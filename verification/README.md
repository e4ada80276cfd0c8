# Verified model of the launchpad backend

The backend indexes a bonding-curve token launchpad: it computes curve and tick arithmetic exactly as
the contracts do, serves comments through a generation-keyed cache, and folds trades into charts and
ledgers. This project models those parts in Dafny and proves what they promise, for every input and
every interleaving. `dafny verify dfyconfig.toml` checks everything.

| file | subject |
|---|---|
| `Arithmetic.dfy`, `BinaryLog.dfy` | exact quotients; binary logarithms of reals stated through repeated squaring |
| `TickTable.dfy`, `TickConstants.dfy`, `TickLog.dfy`, `TickMath.dfy` | the Uniswap v4 tick table, its constants and logarithms, and both conversions |
| `SwapMath.dfy`, `CurveWalk.dfy`, `BondingCurve.dfy`, `LiveStarts.dfy` | swap steps, the walk over segments, the curve of nested positions, which of them join |
| `DevBuyQuote.dfy`, `QuoteTheorems.dfy`, `Template.dfy` | the dev-buy quote, its theorems, and the pinned template |
| `Opening.dfy`, `Ladder.dfy` | opening level, graduation keeper, milestone ladder |
| `Generations.dfy`, `Outbox.dfy`, `CacheProtocol.dfy` | the Redis script, the outbox dispatcher, and the protocol they form |
| `Comments.dfy`, `CommentCache.dfy` | comment transactions, and comments through the cache |
| `Candles.dfy`, `RawCandles.dfy`, `WalletLedger.dfy`, `LiveBars.dfy` | candle builder and what its chart says of the rows, average-cost ledger, live minute bars |

The main theorems, hardest first:

- `TickMath.GetTickAtSqrtPrice` returns the greatest tick for every price in range. The two candidate
  ticks and their error constants are justified from real logarithms of the twenty table constants;
  nothing about the logarithm is assumed.
- `QuoteTheorems` and `Template.DevBuyWithinCapIsQuoted`: dev-buy quotes conserve supply, exist
  exactly within capacity on every curve, keep the sum of joined liquidities at every iteration, are
  monotone in the share, and round within a stated bound.
- `CommentCache.CommentsAreFresh`: over any interleaving of transactions, deliveries, leased
  dispatchers, crashes and readers, every part of what a reader is shown is the comments as they stood
  at some moment no older than the Redis generation it started from.
- `Candles.FillJoinedCandles` with `RawCandles.FilledTells`, `WalletLedger.WalletPnl` and
  `LiveBars.BarsPartitionTrades`: the three
  folds over trades against independent descriptions.

Integers are unbounded, as bigints are; bigint division truncates (`Arithmetic.TruncDiv`). Loops and
updated records of the source are methods and classes, proved against functions.

Where the code and its comments or documentation differ, the model follows the code:

- `src/modules/keepers/keepers.service.ts:67` states an equivalence of which one direction fails
  (`Opening.FlaggedIff`, `Opening.RipeNotFlagged`, `Opening.RipeNotFlaggedExample`).
- `src/modules/tokens/token-query.service.ts:584` reverses the ascending list, so the endpoint is
  newest first (`Candles.Chart`).
- `src/modules/comments/comments.service.ts:83-84` stores depth 0 and the comment's own id as root for
  replies too, so the depth check at line 75 never refuses (`Comments.NeverTooDeep`).
- `src/protocol/protocol-math.ts:531-536` skips coincident starts without their liquidity
  (`LiveStarts.EveryPositionJoinsIff`, `QuoteTheorems.CrowdedCurve`).
- `src/protocol/protocol-math.ts:240` is off by one: band i sits max(spacing, first - decay·i) above
  the previous band, or above graduation for i = 0 (`Ladder.ClosedForm`,
  `Ladder.CommentedGapIff`, `Ladder.TemplateFirstGap`).
- `src/modules/trading/trading.service.ts:431-436` does not clamp a sell larger than a positive holding
  (`WalletLedger.SoundThroughoutIff`).
- The burn debit at `src/modules/trading/trading.service.ts:443-445` is meant to make the ledger match the
  live balance. It falls short when more was burned than the swaps account for, for example after a
  transfer in (`WalletLedger.DebitExactOnePool`, `WalletLedger.BurnedTransferExample`). It would also take
  one burn from every pool of a token (`WalletLedger.DebitExactIff`, `WalletLedger.DoubleDebitExample`);
  the pools table allows one pool per token and chain (`prisma/schema.prisma:394`), so that needs swaps of
  a pool outside it.

## Model

| member | source | states |
|---|---|---|
| `Arithmetic.DivRoundingUpIsCeil` | src/protocol/protocol-math.ts:111-115 | quotient plus one on a remainder is the exact ceiling (the least integer whose multiple reaches the dividend) |
| `Arithmetic.MulDivRoundingUpIsCeil` | src/protocol/protocol-math.ts:103-108 | the rounded-up product quotient is the exact ceiling of a·b/d |
| `Arithmetic.TruncatesTowardZero` | src/modules/trading/trading.service.ts:433 | bigint division for every sign: the remainder is smaller than the divisor and never has the other sign than the dividend |
| `BinaryLog.FixedPointScales` | src/protocol/protocol-math.ts:29-30 | the fixed-point scales are the powers of two they are named after |
| `TickTable.RatioGap` | src/protocol/tick-math.ts:59-81 | the truncated product of table constants falls by more than 2^32 from every magnitude to the next, so rounding cannot merge two ticks |
| `TickTable.InverseGap` | src/protocol/tick-math.ts:83 | the gap survives the reciprocal taken for positive ticks |
| `TickTable.SqrtPriceIncreasing` | src/protocol/tick-math.ts:53-88 | every higher valid tick has a strictly higher sqrt price |
| `TickTable.SqrtPriceEnds` | src/protocol/tick-math.ts:53-88 | the prices of the extreme ticks are exactly the published bounds |
| `TickConstants.FactorIsNearest` | src/protocol/tick-math.ts:60-81 | each of the twenty constants is the nearest integer to 2^128 times 1.0001^(-2^k/2), to its last digit |
| `TickLog.SqrtPriceLog` | src/protocol/tick-math.ts:53-88 | the binary logarithm of every table price is a fixed unit per tick, within a fixed drift per tick and a constant |
| `TickMath.GetSqrtPriceAtTick` | src/protocol/tick-math.ts:53-88 | the twenty conditional multiplications give the table price on exactly the valid ticks, an error elsewhere |
| `TickMath.MostSignificantBit` | src/protocol/tick-math.ts:15-50 | the true floor of log2 for every positive number below 2^256, and for no larger one; zero is refused |
| `BinaryLog.RefineBounds` | src/protocol/tick-math.ts:106-111 | after n rounds the mantissa raised to 2^n is bracketed by the bits read and the mantissa left, with an explicit relative error; the left side never overstates |
| `BinaryLog.RefineLog` | src/protocol/tick-math.ts:106-111 | the bits are the fractional logarithm to within two units, from below |
| `TickMath.OrSetsBit` | src/protocol/tick-math.ts:109 | or-ing a shifted bit into a number whose lower bits are clear is addition, also for negative numbers |
| `TickMath.Log2` | src/protocol/tick-math.ts:96-111 | the 64-round loop keeps r in [2^127, 2^128) with a one-bit carry and accumulates exactly the reference bits |
| `TickMath.Log2Brackets` | src/protocol/tick-math.ts:96-111 | the computed logarithm never overstates the true one and understates it by less than three units of 2^-64 |
| `TickMath.CandidatesBracket` | src/protocol/tick-math.ts:113-122 | the error constants put the greatest tick in {tickLow, tickHi}, which are equal or adjacent, for every price in range |
| `TickMath.GreatestTickGalois` | src/protocol/tick-math.ts:90 | a tick's price is at most p exactly when the tick is at most the greatest tick of p |
| `TickMath.GetTickAtSqrtPrice` | src/protocol/tick-math.ts:91-123 | on exactly the prices in range the result is the greatest tick whose price does not exceed the input; no assumption on the logarithm |
| `SwapMath.Amount0Exact` | src/protocol/protocol-math.ts:305-321 | rounding twice equals one exact ceiling, or floor, of L·2^96·(b-a)/(a·b), in either argument order |
| `SwapMath.Amount1Exact` | src/protocol/protocol-math.ts:324-335 | tokens between two prices are the exact floor, or ceiling, of L·abs(a-b)/2^96 |
| `SwapMath.NextSqrtIsHighest` | src/protocol/protocol-math.ts:338-346 | the solved end price is the highest price that releases at least the requested tokens; a throw means no positive price does |
| `SwapMath.FeeIsLeast` | src/protocol/protocol-math.ts:551 | the fee is the least integer that is at least feePips millionths of input plus fee |
| `CurveWalk.WalkDescends` | src/protocol/protocol-math.ts:527-581 | a walked path is connected, falls, and stays at or above the far price; only two of the throws are reachable |
| `CurveWalk.WalkConserves` | src/protocol/protocol-math.ts:527-581 | summation by parts: liquidity times width of the path covers the requested tokens and never exceeds what the positions hold |
| `CurveWalk.WalkIsLive` | src/protocol/protocol-math.ts:531-536 | on any input, skipping boundaries at or above the current price makes the walk that of the boundaries that join |
| `CurveWalk.WalkAccumulates` | src/protocol/protocol-math.ts:527-581 | for any boundaries and however the loop ends, quote or throw: iteration j stands at the j-th boundary that joins, the active liquidity is the sum over those reached, and the area consumed is the sum of each one's own L times (its start - current) |
| `CurveWalk.PathIterations` | src/protocol/protocol-math.ts:527-581 | a quote's path has one segment per iteration, entered at its price and liquidity |
| `CurveWalk.WalkSucceedsIff` | src/protocol/protocol-math.ts:531-579 | for any boundaries at or above far, coincident ones included, a walk succeeds exactly on amounts within the capacity of those that join; beyond it the only outcome is the supply guard |
| `CurveWalk.CapacityTight` | src/protocol/protocol-math.ts:545-557 | capacity is the exact reserve less under one token unit per segment |
| `CurveWalk.WalkStops` | src/protocol/protocol-math.ts:545-570 | where a walk stops: an amount that takes a whole segment ends at its end, any other at the highest price of its segment that releases what is left |
| `CurveWalk.WalkMonotone` | src/protocol/protocol-math.ts:527-581 | a larger amount never costs less and never ends at a higher price, also when the two walks stop in different segments |
| `CurveWalk.SegmentRounding` | src/protocol/protocol-math.ts:550-560 | a segment's charge covers its exact real-valued cost and exceeds it by less than 1 + 10^6/(10^6 - feePips) |
| `CurveWalk.PathRounding` | src/protocol/protocol-math.ts:543-570 | the same for whole paths, per segment |
| `BondingCurve.LevelGalois` | src/protocol/protocol-math.ts:76-83 | levelAtSqrtPrice(p) <= l exactly when sqrtPriceAtLevel(l) <= p |
| `BondingCurve.LevelAtSqrtPrice` | src/protocol/protocol-math.ts:81-83 | the negated greatest tick on the prices in range, an error elsewhere |
| `BondingCurve.AmountsSumToSupply` | src/protocol/protocol-math.ts:211-215 | position amounts add up to the curve supply exactly |
| `BondingCurve.StartIsFloor` | src/protocol/protocol-math.ts:200-208 | position i starts at i n-ths of the span, rounded down |
| `BondingCurve.DistinctStartsIff` | src/protocol/protocol-math.ts:200-208 | position starts are pairwise distinct exactly when the span has at least one level per position |
| `BondingCurve.BoundariesStrict` | src/protocol/protocol-math.ts:509-517 | with distinct starts the boundary list holds every later position, strictly falling and above far |
| `BondingCurve.LiquidityTight` | src/protocol/protocol-math.ts:218-232 | a position's liquidity releases at most its amount and falls short by less than its width, unless it is cut to exactly 2^128 - 1 |
| `LiveStarts.LastStart` | src/protocol/protocol-math.ts:200-208 | on a curve with at most as many levels as positions the last start is far - 1, and it is a new level exactly when positions < 2·span |
| `LiveStarts.EveryPositionJoinsIff` | src/protocol/protocol-math.ts:509-536 | exactly min(positions, span) - 1 later positions ever join, so every position joins if and only if positions <= span |
| `LiveStarts.JoiningAmounts` | src/protocol/protocol-math.ts:218-232 | the positions that join can release at most their amounts and, unclamped, fall short by at most their widths |
| `LiveStarts.JoinedSupplyIff` | src/protocol/protocol-math.ts:211-215 | the positions that join hold at most the supply; on a curve that can be bought from, all of it exactly when positions <= span |
| `LiveStarts.LiveLevels` | src/protocol/protocol-math.ts:531-576 | the j-th boundary that joins lies at the j-th level reached, with the liquidity of every position that is first of its level up to there |
| `DevBuyQuote.CollectBoundaries` | src/protocol/protocol-math.ts:509-517 | the collection loop yields the curve's start prices with their liquidities, up to the first start at far |
| `DevBuyQuote.WalkDown` | src/protocol/protocol-math.ts:522-581 | the mutating loop terminates and returns the cost, end level and end price of the reference path, or its error; its iterations are exactly the listed ones, in runs that throw too |
| `DevBuyQuote.Quoted` | src/protocol/protocol-math.ts:483-582 | the whole quote, every throw included, equals the reference quote; its tokens are the share of the supply in units of 10^18 rounded down, and its end level is the one its end price belongs to |
| `DevBuyQuote.TokensOutIs` | src/protocol/protocol-math.ts:501 | the tokens bracket supply times share over 10^18, and the full share is the whole supply |
| `DevBuyQuote.QuoteCarries` | src/protocol/protocol-math.ts:501-505 | a quote carries the tokens asked for and a matching end level; no tokens cost nothing and stay at the opening |
| `QuoteTheorems.QuoteWithinSupply` | src/protocol/protocol-math.ts:483-582 | any quote on any curve is for exactly the requested tokens, at most what the joining positions hold, and so at most the curve supply |
| `QuoteTheorems.QuoteExistsIff` | src/protocol/protocol-math.ts:520-581 | on every curve the table covers: an empty first position is refused, and otherwise a quote exists exactly up to capacity, beyond which the supply guard throws |
| `QuoteTheorems.CapacityNearSupply` | src/protocol/protocol-math.ts:218-232 | capacity is at most what the joining positions hold and, with nothing clamped, short of it by less than the started 2^96 units of each width plus one per joining position; with positions <= span that is the supply |
| `QuoteTheorems.QuoteExists` | src/protocol/protocol-math.ts:527-581 | no throw is reachable for tokens within what the joining positions hold (the supply when positions <= span) less the widths' started 2^96 units less one per joining position |
| `QuoteTheorems.CrowdedCurve` | src/protocol/protocol-math.ts:531-536 | what skipping coincident starts costs: part of the supply can never be bought if and only if span < positions, and any larger amount ends in the supply guard; on one level only position 0's share is left |
| `QuoteTheorems.CrowdedExample` | src/protocol/protocol-math.ts:531-536 | two positions on one level: the supply guard refuses a buy of the whole supply |
| `QuoteTheorems.CurveIteration` | src/protocol/protocol-math.ts:527-581 | on every curve and share, in quotes and throws alike, iteration j stands at the j-th level reached with the liquidity of all positions joining up to there; with positions <= span that is position j's start, the sum of liquidities 0..j, and the sum of L_i times (own start - current) as consumed area |
| `QuoteTheorems.QuoteEnds` | src/protocol/protocol-math.ts:547-570 | a quote ends between the far and opening sqrt prices and levels |
| `QuoteTheorems.QuoteStops` | src/protocol/protocol-math.ts:545-570 | exactly where a quote ends on every curve, from the tokens its segments release |
| `QuoteTheorems.QuoteMonotone` | src/protocol/protocol-math.ts:543-570 | on one curve a larger amount costs no less and ends at no higher price and no lower level |
| `QuoteTheorems.ShareMonotone` | src/protocol/protocol-math.ts:501 | the same in terms of shares of the total supply |
| `QuoteTheorems.QuoteRounding` | src/protocol/protocol-math.ts:545-560 | ethCost covers the exact cost of the walked prices, exceeds it by less than 1 + 10^6/(10^6 - feePips) per segment, and the path releases the tokens |
| `Template.TemplateQuoteExists` | src/protocol/protocol-constants.ts:8-28 | on the template curve every share up to the cap is quoted and ends on the curve |
| `Template.TenPercentQuote` | src/protocol/protocol-constants.ts:44-46 | at the cap a quote on the template curve is for exactly 10^26 of the 10^27 tokens |
| `Template.DevBuyWithinCapIsQuoted` | src/protocol/protocol-math.ts:577-579 | end to end from the pinned supply and anchor: the guard called impossible under the 10% cap is unreachable |
| `Opening.Isqrt` | src/protocol/protocol-math.ts:86-95 | terminates with the exact floor root; negative input is refused |
| `Opening.AnchorReached` | src/protocol/protocol-math.ts:127-130 | a level's FDV reaches the anchor exactly when its sqrt price is at most the root |
| `Opening.FdvIsFloor` | src/protocol/protocol-math.ts:127-130 | the value is the supply times 2^192 over the squared sqrt price, rounded down |
| `Opening.OpeningLevel` | src/protocol/protocol-math.ts:178-190 | whenever it returns, that level and all above reach the anchor FDV and all below fall short; it refuses exactly a zero anchor or a root out of range |
| `Opening.GraduateJobs` | src/modules/keepers/keepers.service.ts:62-82 | one job, in order, for exactly the bonding pools with a recorded non-zero price at or below that of level far-1; one such pool with a far level off the table fails the call |
| `Opening.FlaggedIff` | src/modules/keepers/keepers.service.ts:67-68 | flagged exactly when level > far-1, or level = far-1 with the price on the tick; so every job is ripe |
| `Opening.RipeNotFlagged` | src/modules/keepers/keepers.service.ts:67-68 | the commented equivalence fails if and only if the price is strictly inside level far-1, where the pool is ripe and not flagged |
| `Opening.RipeNotFlaggedExample` | src/modules/keepers/keepers.service.ts:67-68 | a concrete ripe pool that is not flagged |
| `Ladder.ClosedForm` | src/protocol/protocol-math.ts:242-265 | the band offset equals the recursive sum of max(spacing, first - decay·j) for j = 0..i at every index |
| `Ladder.ClosedFormIff` | src/protocol/protocol-math.ts:250-260 | over all schedules with positive decay: the closed form is right at every index exactly on the regular ones, also where the division truncates a negative |
| `Ladder.CommentedGapIff` | src/protocol/protocol-math.ts:239-241 | the commented distance from band i to band i+1 is right exactly when first - decay·i <= spacing |
| `Ladder.TemplateFirstGap` | src/protocol/protocol-constants.ts:12-15 | on the template the first two bands lie 6541 levels apart where the comment gives 6932, and bands from the thirteenth on 2235 apart |
| `Ladder.BandsDisjoint` | src/protocol/protocol-math.ts:261-264 | bands ascend without touching and existence is downward closed |
| `Ladder.Milestones` | src/modules/tokens/token-query.service.ts:607-638 | the early exit drops no band: rows are exactly the bands whose upper level is within 887272, in order; each is harvested, deployed, skipped or pending as the tables say, with its deployed bounds or those of the step-by-step ladder |
| `Ladder.NextPayoutSpanPositive` | src/modules/tokens/token-query.service.ts:187-194 | the unchecked read of band paid-1 always finds a real band: the span runs from its upper level, or graduation, to the lower level of the next, and is positive |
| `Generations.NewerIsGreater` | src/infrastructure/cache/redis-domain-cache.ts:10 | length first, then bytes, is numeric order on canonical decimals, both ways |
| `Generations.DecimalRoundTrip` | src/infrastructure/cache/redis-domain-cache.ts:63 | parsing a printed generation gives it back |
| `Generations.GenerationKeys.ApplyStrict` | src/infrastructure/cache/redis-domain-cache.ts:7-15 | the script leaves the numeric maximum of the stored and incoming generation and touches no other key |
| `Generations.GenerationKeys.GetGeneration` | src/infrastructure/cache/redis-domain-cache.ts:61-67 | reads back the number stored, zero for no key and zero when the call fails |
| `Generations.DeliverIsMaximum` | src/infrastructure/cache/redis-domain-cache.ts:69-79 | after any deliveries the key is the greatest of them and the start |
| `Generations.DeliveryOrderIrrelevant` | src/infrastructure/cache/redis-domain-cache.ts:69-79 | duplicated or reordered deliveries end at the same generation |
| `Outbox.OldestFirst` | src/infrastructure/queue/outbox-dispatcher.ts:18-46 | a claimable row is passed over only by a full batch of older ones |
| `Outbox.ClaimExactly` | src/infrastructure/queue/outbox-dispatcher.ts:18-46 | a claim takes at most fifty rows, only unpublished available ones without a running lease, oldest first, and leases them for thirty seconds; every other row stays as it is |
| `Outbox.Dispatcher.Settle` | src/infrastructure/queue/outbox-dispatcher.ts:50-78 | one event's turn: published and counted exactly when the apply and the finalize go through and the lease is still held, after its generation reached Redis; otherwise the failure is recorded and the lease freed, or a lost row left alone |
| `Outbox.Dispatcher.DispatchBatch` | src/infrastructure/queue/outbox-dispatcher.ts:16-81 | every claimed row is settled by its own outcome; rows that are published, not yet available or under a running lease are untouched; the result is the number of rows newly published |
| `CacheProtocol.StepKeeps` | src/modules/comments/comments.service.ts:119-154 | every atomic step of writers, appliers, dispatchers, the clock and readers keeps the protocol invariant: Redis, rows, leases, counts, pages and readers |
| `CacheProtocol.RunKeeps` | src/modules/comments/comments.service.ts:119-154 | in every interleaving every part of a page cached under g holds a database state of version at least g |
| `CacheProtocol.FreshReads` | src/modules/comments/comments.service.ts:119-154 | a list call started when Redis holds generation n answers its own query with parts that each show a version at least n, in ascending order, whatever is committed between its statements |
| `CacheProtocol.StoredIsServed` | src/modules/comments/comments.service.ts:124-126 | what one call stored, the next call of the same query under the same generation is answered with |
| `CacheProtocol.HistoryExtends` | src/modules/comments/comment-cache-generation.ts:9-28 | later states only extend the committed versions |
| `CacheProtocol.RedisIsMaximum` | src/infrastructure/cache/redis-domain-cache.ts:7-15 | in every reachable state Redis is the maximum of what was delivered and never ahead of the database |
| `CacheProtocol.DrainedOutboxConverges` | src/infrastructure/queue/outbox-dispatcher.ts:48-65 | once every event of a domain is published, Redis equals the database generation |
| `CacheProtocol.PublishedStays` | src/infrastructure/queue/outbox-dispatcher.ts:55-64 | a published row never reverts, and only its lease holder's finalize after an apply publishes it |
| `CacheProtocol.ClaimSpares` | src/infrastructure/queue/outbox-dispatcher.ts:19-41 | no claim takes a row whose lease still runs, nor one published or not yet due |
| `CacheProtocol.PublishedOnce` | src/infrastructure/queue/outbox-dispatcher.ts:55-65 | over every run, with expiring and stolen leases, each event is published at most once |
| `CacheProtocol.PublishedWasDelivered` | src/infrastructure/queue/outbox-dispatcher.ts:54-64 | a published event's generation has been applied to Redis |
| `CacheProtocol.ReturnsWithinPublished` | src/infrastructure/queue/outbox-dispatcher.ts:48-80 | the sum of all batch results is at most the number of published events; only crashed batches lose counts |
| `Comments.CommentService.CreateComment` | src/modules/comments/comments.service.ts:28-117 | a comment is created exactly by an authenticated wallet under a new key on an acceptable parent, and stored as sent; a used key answers what it made or is refused; the tables stay consistent, in one version |
| `Comments.CommentService.DeleteComment` | src/modules/comments/comments.service.ts:181-210 | only the author deletes: the comment ends deleted without its text, anyone else is refused without effect, repeating changes nothing; the tables stay consistent, in one version |
| `Comments.CommentService.LikeComment` | src/modules/comments/comment-likes.service.ts:35-73 | a live comment ends liked by the wallet and the answer is the number of wallets that like it; otherwise refused without effect; the tables stay consistent, in one version |
| `Comments.CommentService.UnlikeComment` | src/modules/comments/comment-likes.service.ts:75-103 | a stored comment, deleted or not, ends not liked by the wallet and the answer is the number that still like it; the tables stay consistent, in one version |
| `Comments.AdvanceOutbox` | src/modules/comments/comment-cache-generation.ts:9-28 | a token's outbox rows stay exactly the generations 1, 2, ... up to its current one |
| `Comments.RunKeeps` | src/modules/comments/comments.service.ts:50-116 | over every sequence of transactions likeCount is the number of stored likes, replyCount the number of live direct replies, and parents, keys and outbox rows agree |
| `Comments.CommentFate` | src/modules/comments/comments.service.ts:181-200 | one step keeps every comment's author, token and parent, and deletes it exactly when its author asks |
| `Comments.DeletedIffAuthorAsked` | src/modules/comments/comments.service.ts:181-200 | over every run a stored comment is what a request sent, and it is deleted exactly if its author asked for that |
| `Comments.OneCommentPerKey` | src/modules/comments/comments.service.ts:50-51 | over every run an idempotency key creates at most one comment, exactly one if it is recorded |
| `Comments.RepeatIsReplay` | src/modules/comments/comments.service.ts:212-226 | a recorded request repeats to the comment it made and changes nothing; another body under its key is refused |
| `Comments.NeverTooDeep` | src/modules/comments/comments.service.ts:70-88 | over every run the depth check never refuses: a parent is accepted exactly when it exists on the token and is not deleted, however deep |
| `Comments.StepIsOneVersion` | src/modules/comments/comment-cache-generation.ts:9-28 | a transaction changes nothing, or changes what one token shows and advances that token by exactly one with one matching outbox row |
| `CommentCache.SystemAgrees` | src/modules/comments/comments.service.ts:103-108 | comment transactions are commits of the cache protocol: generations, latest content and outbox rows always agree |
| `CommentCache.VersionsAreMoments` | src/modules/comments/comments.service.ts:103-108 | every version of a token is its comment table after some prefix of the run |
| `CommentCache.CommentsAreFresh` | src/modules/comments/comments.service.ts:119-154 | end to end: for a list call at any point of any run, each part of its answer shows the token's comments exactly as they stood at some moment, at a version no older than the Redis generation when the call began |
| `Candles.Parse` | src/modules/tokens/token-query.service.ts:803-820 | the parsed minutes are exactly the copies, field by field, of the rows with a valid time and a non-zero open or close |
| `Candles.SortIsStable` | src/modules/tokens/token-query.service.ts:821 | the sort is an ascending permutation that keeps equal times in order |
| `Candles.Group` | src/modules/tokens/token-query.service.ts:824-833 | each bucket's list is its rows in time order; the keys ascend from the first row's bucket to the last row's |
| `Candles.Seed` | src/modules/tokens/token-query.service.ts:843-848 | the seed is the close of the last row before the window, or none |
| `Candles.Walk` | src/modules/tokens/token-query.service.ts:849-894 | the walk emits, for every bucket of the window, the candle described from the whole timeline |
| `Candles.FillJoinedCandles` | src/modules/tokens/token-query.service.ts:798-896 | computing only the window returns exactly the last max(limit, 1) candles of the unbounded chart |
| `Candles.LimitIsWindow` | src/modules/tokens/token-query.service.ts:839-842 | a limit returns the trailing candles of what any larger limit returns |
| `Candles.FilledJoins` | src/modules/tokens/token-query.service.ts:798-896 | one candle per bucket, ascending without gaps, close[i] = open[i+1], ending at the last row's bucket and close |
| `RawCandles.FilledTells` | src/modules/tokens/token-query.service.ts:798-896 | every candle told from the database rows by their milliseconds: it covers the extremes of its rows and attains them, trades what they traded, closes at the latest close up to its end and opens at the latest close before it, or at the first open |
| `RawCandles.FilledReaches` | src/modules/tokens/token-query.service.ts:834-842 | the chart is empty exactly when no row counts, ends with the bucket of the latest row, and begins with that of the earliest unless the limit cuts it |
| `RawCandles.FilledConserves` | src/modules/tokens/token-query.service.ts:852-893 | buys, sells and swap counts sum to those of the counting rows from the first candle's first millisecond on |
| `RawCandles.FilledConsistent` | src/modules/tokens/token-query.service.ts:868-872 | if every row that counts has positive prices with low <= open, close <= high, so has every candle, despite the chained open |
| `Candles.EthAntitone` | src/modules/trading/price.ts:14-21 | the ETH price is antitone in the sqrt price |
| `Candles.EthScaledIs` | src/modules/trading/price.ts:14-21 | the scaled ETH price is 2^192 times 10^18 over the squared sqrt price, rounded down |
| `Candles.PresentConsistent` | src/modules/tokens/token-query.service.ts:898-919 | after the inverted conversion lowEth <= openEth, closeEth <= highEth and none is null |
| `Candles.Chart` | src/modules/tokens/token-query.service.ts:578-585 | the endpoint returns the presented candles newest first |
| `RawCandles.ChartPromise` | src/modules/tokens/token-query.service.ts:578-585 | newest first, one bucket apart, each opening at the next one's close; every figure is its candle's, volumes included, prices on the inverted axis; consistent ETH extremes |
| `WalletLedger.FoldTrades` | src/modules/trading/trading.service.ts:415-441 | the fold gives each pool, in order of first trade, the position of its own trades alone |
| `WalletLedger.DebitBurns` | src/modules/trading/trading.service.ts:454-467 | every position of a burned token is debited at its average cost, the others are unchanged |
| `WalletLedger.WalletPnl` | src/modules/trading/trading.service.ts:415-511 | each row shows its pool's own folded position after the burn, valued at held times 2^192 over the squared price rounded down, with realized - cost equal to its net cash; realized + unrealized totals equal value plus all sells minus all buys |
| `WalletLedger.LedgerIdentity` | src/modules/trading/trading.service.ts:425-440 | for every trade list, with rounding and oversells, realized - cost is sell ETH minus buy ETH |
| `WalletLedger.HoldingIdentity` | src/modules/trading/trading.service.ts:428-440 | the holding is what was bought minus what was sold, except for sells that found nothing held |
| `WalletLedger.ValueIs` | src/modules/trading/trading.service.ts:481-482 | a holding is worth held times 2^192 over the squared sqrt price, rounded down, and nothing without a holding or a price |
| `WalletLedger.PoolsInOrder` | src/modules/trading/trading.service.ts:415-424 | positions are listed in order of their first trade |
| `WalletLedger.BurnIsLast` | src/modules/trading/trading.service.ts:454-458 | a token's burn is that of the last row naming it, up to case |
| `WalletLedger.LowerMeets` | src/modules/trading/trading.service.ts:454-457 | two strings fold together exactly when they differ in the case of ASCII letters only |
| `WalletLedger.BurnIdentity` | src/modules/trading/trading.service.ts:456-466 | a burn leaves realized - cost unchanged |
| `WalletLedger.NetPartition` | src/modules/trading/trading.service.ts:415-424 | splitting the trades by pool loses no cash |
| `WalletLedger.SoundThroughoutIff` | src/modules/trading/trading.service.ts:425-440 | holdings and cost stay non-negative and an empty holding costs nothing after every prefix exactly when no sell exceeds a positive holding and no payment buys nothing while empty |
| `WalletLedger.SellKeepsAverage` | src/modules/trading/trading.service.ts:431-436 | a sell never lowers the average cost of what remains |
| `WalletLedger.OversellExample` | src/modules/trading/trading.service.ts:431-436 | a concrete sell that drives holding and cost negative |
| `WalletLedger.BurnKeepsSound` | src/modules/trading/trading.service.ts:459-465 | a burn removes exactly min(held, burned), keeps the position sound, and keeps its average cost from falling and from rising by a wei in total |
| `WalletLedger.DebitExactIff` | src/modules/trading/trading.service.ts:454-466 | after the debit loop a token's holdings have fallen by exactly its burn iff nothing was burned, all holdings together are the burn, or a single pool holds the token and covers it |
| `WalletLedger.DebitExactOnePool` | src/modules/trading/trading.service.ts:454-466 | with one pool per token the ledger loses exactly the burn if and only if it holds at least the burn |
| `WalletLedger.BurnedTransferExample` | src/modules/trading/trading.service.ts:454-466 | through both loops: 10 bought, 15 burned after a transfer in, and the ledger loses only 10 |
| `WalletLedger.DoubleDebitExample` | src/modules/trading/trading.service.ts:454-466 | through both loops: two pools of one token, and one burn of 4 takes 8 |
| `LiveBars.Broadcaster.OnTrade` | src/modules/trading/broadcaster.ts:207-282 | a trade's whole effect on the bars, the ring and the messages sent |
| `LiveBars.Broadcaster.TimerFires` | src/modules/trading/broadcaster.ts:270-281 | a timer closes and removes its own bar only |
| `LiveBars.MinuteIs` | src/modules/trading/broadcaster.ts:236 | a second lies in exactly one minute, the multiple of 60000 ms at most a minute before it, and that is the bucket |
| `LiveBars.RollsIff` | src/modules/trading/broadcaster.ts:236-281 | a trade stays in its pool's bar exactly when it is of that bar's minute; otherwise a new bar of its minute replaces it, with a timer due 50 ms after the minute and no sooner than in 100 ms |
| `LiveBars.TradeSends` | src/modules/trading/broadcaster.ts:234-267 | what a trade sends, in order: its tick, the close of the replaced bar as it stood, and the bar's new state exactly when 250 ms have passed since its last push |
| `LiveBars.BarsPartitionTrades` | src/modules/trading/broadcaster.ts:236-276 | over every run of trades, roll-overs and timers a pool's closed bars and its current one summarize consecutive groups that are exactly its trades: open, close, extremes, volumes, count, and one minute of 60000 ms each |
| `LiveBars.EveryTradeInOneBar` | src/modules/trading/broadcaster.ts:237-276 | the counts of a pool's bars add up to the trades that arrived |
| `LiveBars.ClosedExactlyOnce` | src/modules/trading/broadcaster.ts:240-276 | over every run each bar opened is closed exactly once if it left the map and not at all while it is in it; every bar in the map has a timer |
| `LiveBars.RingIsRecent` | src/modules/trading/broadcaster.ts:227-233 | the ring is exactly the last min(n, 30) trades of the pool |
| `LiveBars.PushesAreSpaced` | src/modules/trading/broadcaster.ts:263-267 | consecutive pushes of one bar are at least 250 ms apart, whatever the clock does |
| `LiveBars.MessageConsistent` | src/modules/trading/broadcaster.ts:304-320 | a bar message of positive prices: the minute in seconds, the ETH prices of the first, last, lowest and highest sqrt price with the extremes around open and close, the volumes and the count |

## Left out

- The database, Redis and websocket clients, controllers, DTOs, heartbeats, logging and reconnects: I/O. A serializable transaction, a conditional `updateMany` and the Lua script are one atomic step each; the clock, random identifiers and the success of each Redis call are inputs.
- CacheProtocol.FreshReads: generation keys are never evicted; cached pages may vanish at any time. A page is the list of what its statements saw, whatever their number.
- CacheProtocol.PublishedOnce: lease owners are distinct by construction; two dispatchers with the same process id and millisecond would share an owner string.
- CommentCache.CommentsAreFresh: each part of a page is the token's whole comment table; filtering, sorting and paging of it, and the author profiles joined to it, are not modelled.
- Outbox.Dispatcher.DispatchBatch: states one dispatcher with no other running and no failure of the update that records a failure; interleaved dispatchers, stolen leases and crashes are the subject of `CacheProtocol`.
- Comments.CommentService.CreateComment: expiry of idempotency records, token resolution and the profile upsert are not modelled, and the two reads around the transaction belong to its atomic step.
- The like-status cache (`src/modules/comments/comment-likes.service.ts:14-33`): it is not keyed by generation, so the protocol promises nothing about it.
- DevBuyQuote.Quoted: totals, shares, levels and fees are non-negative integers and the number of positions is not negative; a fee of exactly one million pips is an error here as it is there.
- BondingCurve.DistinctStartsIff: position starts are exact quotients; the source's double-precision division agrees while span times index is below 2^53.
- Candles.FillJoinedCandles: minute rows are integers; text that is not a canonical decimal, the SQL query that selects the rows and its row limit are not modelled. The bucket size is positive, as the interval table gives it.
- Candles.PresentConsistent: prices are the scaled integers; their formatting as decimal strings is not modelled.
- WalletLedger.WalletPnl: the SQL queries, symbols and names are not modelled; lower-casing is that of ASCII letters.
- LiveBars.Broadcaster.OnTrade: bars are values whose identity is a number, so aliasing of bar objects is not captured; timestamps are whole seconds and pools arrive lower-cased; subscriptions, snapshots on subscribe, backpressure and `stop` are not modelled.
- Two bars of one minute are possible when a trade arrives after the timer, so no uniqueness per minute is stated.
- EIP-712 hashing, CREATE2 salts, contract reads, the quoter and `maxBuy`: foreign calls whose meaning is not visible.
- `src/modules/launch/launch-relay.service.ts`: its outcome depends on the wallet and the chain.
- `tokenPriceEthString` (`src/protocol/protocol-math.ts:162-167`): carries a factor of 10^18 its comment does not, so nothing relates it to the other price conversion.
- Band inventory, saturating multiplication, floating-point proximity and percentages, pagination, rate limits, sessions, images, address book, event topics, ABIs and SQL views: only easy or opaque members.
