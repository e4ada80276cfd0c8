/**
 The average-cost wallet ledger of `walletPnl` (src/modules/trading/trading.service.ts:415-511): a fold of
 the wallet's swaps per pool, a debit for burned tokens, and the valued positions with their totals.
 Bigint division truncates toward zero. A sell larger than a positive holding is not clamped: it
 drives the holding, and usually the cost, below zero.
 */
module WalletLedger {
  import opened Arithmetic
  import opened BinaryLog

  datatype Trade = Trade(pool: string, token: string, isBuy: bool, eth: int, tokens: int)

  datatype Position = Position(token: string, held: int, cost: int, realized: int, trades: nat)

  function Fresh(token: string): Position {
    Position(token, 0, 0, 0, 0)
  }

  /** One swap of a position. */
  function Traded(pos: Position, t: Trade): Position {
    if t.isBuy then pos.(held := pos.held + t.tokens, cost := pos.cost + t.eth, trades := pos.trades + 1)
    else if pos.held > 0 then
      var costSold := TruncDiv(pos.cost * t.tokens, pos.held);
      pos.(held := pos.held - t.tokens, cost := pos.cost - costSold, realized := pos.realized + (t.eth - costSold), trades := pos.trades + 1)
    else pos.(realized := pos.realized + t.eth, trades := pos.trades + 1)
  }

  function FoldFrom(start: Position, ts: seq<Trade>): Position {
    if ts == [] then start else Traded(FoldFrom(start, ts[..|ts| - 1]), ts[|ts| - 1])
  }

  function PoolTrades(ts: seq<Trade>, pool: string): seq<Trade> {
    if ts == [] then []
    else PoolTrades(ts[..|ts| - 1], pool) + if ts[|ts| - 1].pool == pool then [ts[|ts| - 1]] else []
  }

  /** A pool's position depends on that pool's trades only, and carries its first trade's token. */
  function PositionOf(ts: seq<Trade>, pool: string): Position
    requires PoolTrades(ts, pool) != []
  {
    FoldFrom(Fresh(PoolTrades(ts, pool)[0].token), PoolTrades(ts, pool))
  }

  /** The pools in order of their first trade. */
  function Pools(ts: seq<Trade>): seq<string> {
    if ts == [] then []
    else
      var rest := Pools(ts[..|ts| - 1]);
      if ts[|ts| - 1].pool in rest then rest else rest + [ts[|ts| - 1].pool]
  }

  /** The ledger while folding: the map's keys in insertion order are the pools, its values their positions. */
  ghost predicate Folded(ts: seq<Trade>, book: map<string, Position>, order: seq<string>) {
    && order == Pools(ts)
    && (forall p :: p in order <==> p in book)
    && (forall p :: p in book <==> PoolTrades(ts, p) != [])
    && (forall p | p in book :: book[p] == PositionOf(ts, p))
  }

  lemma PoolTradesSnoc(ts: seq<Trade>, t: Trade, pool: string)
    ensures PoolTrades(ts + [t], pool) == PoolTrades(ts, pool) + if t.pool == pool then [t] else []
  {
    assert (ts + [t])[..|ts|] == ts;
  }

  lemma FoldSnoc(start: Position, ts: seq<Trade>, t: Trade)
    ensures FoldFrom(start, ts + [t]) == Traded(FoldFrom(start, ts), t)
  {
    assert (ts + [t])[..|ts|] == ts;
  }

  lemma FoldedSnoc(ts: seq<Trade>, t: Trade, book: map<string, Position>, order: seq<string>)
    requires Folded(ts, book, order)
    ensures var pos := if t.pool in book then book[t.pool] else Fresh(t.token);
      Folded(ts + [t], book[t.pool := Traded(pos, t)], if t.pool in book then order else order + [t.pool])
  {
    hide Traded, PoolTrades, FoldFrom;
    assert (ts + [t])[..|ts|] == ts;
    var pos := if t.pool in book then book[t.pool] else Fresh(t.token);
    var book' := book[t.pool := Traded(pos, t)];
    forall p
      ensures p in book' <==> PoolTrades(ts + [t], p) != []
      ensures p in book' ==> book'[p] == PositionOf(ts + [t], p)
    {
      PoolTradesSnoc(ts, t, p);
      var mine := PoolTrades(ts, p);
      if p == t.pool {
        FoldSnoc(Fresh((mine + [t])[0].token), mine, t);
        FoldNothing(Fresh(t.token));
      } else {
        assert mine + [] == mine;
      }
    }
  }

  lemma FoldNothing(start: Position)
    ensures FoldFrom(start, []) == start
  {}

  /** The first loop of `walletPnl`. */
  method FoldTrades(ts: seq<Trade>) returns (book: map<string, Position>, order: seq<string>)
    ensures Folded(ts, book, order)
  {
    hide Folded, FoldFrom, PoolTrades, Pools;
    book, order := map[], [];
    NothingFolded();
    for i := 0 to |ts|
      invariant Folded(ts[..i], book, order)
    {
      var t := ts[i];
      FoldedSnoc(ts[..i], t, book, order);
      assert ts[..i + 1] == ts[..i] + [t];
      ghost var was := book;
      if t.pool !in book {
        book := book[t.pool := Fresh(t.token)];
        order := order + [t.pool];
      }
      var pos := book[t.pool];
      if t.isBuy {
        pos := pos.(held := pos.held + t.tokens, cost := pos.cost + t.eth);
      } else if pos.held > 0 {
        var costSold := TruncDiv(pos.cost * t.tokens, pos.held);
        pos := pos.(realized := pos.realized + (t.eth - costSold));
        pos := pos.(cost := pos.cost - costSold);
        pos := pos.(held := pos.held - t.tokens);
      } else {
        pos := pos.(realized := pos.realized + t.eth);
      }
      book := book[t.pool := pos.(trades := pos.trades + 1)];
      assert book == was[t.pool := Traded(if t.pool in was then was[t.pool] else Fresh(t.token), t)];
    }
    assert ts[..|ts|] == ts;
  }

  lemma NothingFolded()
    ensures Folded([], map[], [])
  {}

  // ----- burns -----

  function LowerChar(c: char): char {
    if 'A' <= c <= 'Z' then c + 32 as char else c
  }

  function Lower(s: string): string {
    seq(|s|, i requires 0 <= i < |s| => LowerChar(s[i]))
  }

  /** Burn totals by lower-cased token; a later row replaces an earlier one. */
  function BurnsByToken(rows: seq<(string, int)>): map<string, int> {
    if rows == [] then map[]
    else BurnsByToken(rows[..|rows| - 1])[Lower(rows[|rows| - 1].0) := rows[|rows| - 1].1]
  }

  /** Two strings fold together exactly when they differ in the case of ASCII letters only. */
  lemma LowerMeets(s: string, t: string)
    ensures |Lower(s)| == |s| && Lower(Lower(s)) == Lower(s) && Lower("AZaz09") == "azaz09"
    ensures Lower(s) == Lower(t) <==>
              |s| == |t| && forall i | 0 <= i < |s| ::
                s[i] == t[i] || ('A' <= s[i] <= 'Z' && t[i] == s[i] + 32 as char) || ('A' <= t[i] <= 'Z' && s[i] == t[i] + 32 as char)
  {
    assert Lower(Lower(s)) == Lower(s);
    assert Lower("AZaz09") == "azaz09";
    if Lower(s) == Lower(t) {
      assert |s| == |Lower(s)| == |Lower(t)| == |t|;
      forall i | 0 <= i < |s|
        ensures s[i] == t[i] || ('A' <= s[i] <= 'Z' && t[i] == s[i] + 32 as char) || ('A' <= t[i] <= 'Z' && s[i] == t[i] + 32 as char)
      {
        assert Lower(s)[i] == LowerChar(s[i]) && Lower(t)[i] == LowerChar(t[i]);
      }
    }
  }

  ghost predicate LastRowFor(rows: seq<(string, int)>, token: string, k: nat) {
    k < |rows| && Lower(rows[k].0) == Lower(token) && forall j | k < j < |rows| :: Lower(rows[j].0) != Lower(token)
  }

  /** A token's burn is the amount of the last row whose token it is, up to case; without such a row it has none. */
  lemma {:induction false} BurnIsLast(rows: seq<(string, int)>, token: string)
    ensures match BurnOf(BurnsByToken(rows), token)
            case Some(b) => exists k: nat :: LastRowFor(rows, token, k) && b == rows[k].1
            case None => forall k | 0 <= k < |rows| :: Lower(rows[k].0) != Lower(token)
  {
    hide Lower;
    if rows != [] {
      var n := |rows| - 1;
      BurnIsLast(rows[..n], token);
      if Lower(rows[n].0) == Lower(token) {
        assert LastRowFor(rows, token, n);
      } else if BurnOf(BurnsByToken(rows[..n]), token).Some? {
        var k: nat :| LastRowFor(rows[..n], token, k) && BurnOf(BurnsByToken(rows[..n]), token).value == rows[..n][k].1;
        assert LastRowFor(rows, token, k);
      }
    }
  }

  function BurnOf(burns: map<string, int>, token: string): Option<int> {
    if Lower(token) in burns then Some(burns[Lower(token)]) else None
  }

  /** A burn realizes the cost of what it removes, with no proceeds. */
  function Burned(pos: Position, burned: int): Position {
    var debited := Min(pos.held, burned);
    var costBurned := if pos.held > 0 then TruncDiv(pos.cost * debited, pos.held) else 0;
    pos.(held := pos.held - debited, cost := pos.cost - costBurned, realized := pos.realized - costBurned)
  }

  function Debited(pos: Position, burn: Option<int>): Position {
    match burn case None => pos case Some(b) => Burned(pos, b)
  }

  /** Each position is debited by its own token's burn and by nothing else. */
  ghost predicate DebitedBook(book: map<string, Position>, burns: map<string, int>, after: map<string, Position>) {
    after.Keys == book.Keys && forall p | p in book :: after[p] == Debited(book[p], BurnOf(burns, book[p].token))
  }

  /** The second loop: every position whose token was burned is debited, in place. */
  method DebitBurns(book: map<string, Position>, order: seq<string>, burns: map<string, int>) returns (after: map<string, Position>)
    requires forall p :: p in order <==> p in book
    requires forall i, j | 0 <= i < j < |order| :: order[i] != order[j]
    ensures DebitedBook(book, burns, after)
  {
    hide BurnOf;
    after := book;
    if |burns| > 0 {
      for i := 0 to |order|
        invariant after.Keys == book.Keys
        invariant forall j | 0 <= j < i :: after[order[j]] == Debited(book[order[j]], BurnOf(burns, book[order[j]].token))
        invariant forall j | i <= j < |order| :: after[order[j]] == book[order[j]]
      {
        var pos := after[order[i]];
        var burned := BurnOf(burns, pos.token);
        if burned.Some? {
          var debited := if burned.value > pos.held then pos.held else burned.value;
          var costBurned := if pos.held > 0 then TruncDiv(pos.cost * debited, pos.held) else 0;
          pos := pos.(cost := pos.cost - costBurned);
          pos := pos.(realized := pos.realized - costBurned);
          pos := pos.(held := pos.held - debited);
          after := after[order[i] := pos];
        }
      }
      forall p | p in book ensures after[p] == Debited(book[p], BurnOf(burns, book[p].token)) {
        var k :| 0 <= k < |order| && order[k] == p;
      }
    } else {
      forall p | p in book ensures BurnOf(burns, book[p].token) == None {
        NoBurns(burns, book[p].token);
      }
    }
  }

  lemma NoBurns(burns: map<string, int>, token: string)
    requires |burns| == 0
    ensures BurnOf(burns, token) == None
  {}

  // ----- valued positions and totals -----

  datatype Row = Row(pool: string, token: string, trades: nat, held: int, cost: int, value: int, realized: int, unrealized: int)

  datatype Totals = Totals(realized: int, unrealized: int, cost: int, value: int)

  /** Worth of a holding at the pool's last price; nothing when there is no price or no holding. */
  function ValueOf(held: int, sqrt: int): int {
    if sqrt > 0 && held > 0 then SquarePositive(sqrt); TruncDiv(held * Q192, sqrt * sqrt) else 0
  }

  /** A holding at a price: held times 2^192 over the squared sqrt price, rounded down; nothing without a holding or a price. */
  ghost predicate Valued(value: int, held: int, sqrt: int) {
    if held > 0 && sqrt > 0 then value * (sqrt * sqrt) <= held * Pow2(192) < (value + 1) * (sqrt * sqrt) else value == 0
  }

  lemma ValueIs(held: int, sqrt: int)
    ensures Valued(ValueOf(held, sqrt), held, sqrt)
  {
    if held > 0 && sqrt > 0 {
      hide Pow2, TruncDiv;
      FixedPointScales();
      SquarePositive(sqrt);
      TruncIsFloor(held * Q192, sqrt * sqrt);
      FloorIs(held * Q192, sqrt * sqrt, held * Q192 / (sqrt * sqrt));
    }
  }

  function RowOf(pool: string, pos: Position, sqrt: int): Row {
    var value := ValueOf(pos.held, sqrt);
    Row(pool, pos.token, pos.trades, pos.held, pos.cost, value, pos.realized, value - pos.cost)
  }

  function PriceOf(prices: map<string, int>, pool: string): int {
    if pool in prices then prices[pool] else 0
  }

  function SumRows(rows: seq<Row>): Totals {
    if rows == [] then Totals(0, 0, 0, 0)
    else
      var t := SumRows(rows[..|rows| - 1]);
      var r := rows[|rows| - 1];
      Totals(t.realized + r.realized, t.unrealized + r.unrealized, t.cost + r.cost, t.value + r.value)
  }

  // ----- cash -----

  function Cash(t: Trade): int {
    if t.isBuy then 0 - t.eth else t.eth
  }

  /** Sell ETH minus buy ETH. */
  function NetCash(ts: seq<Trade>): int {
    if ts == [] then 0 else NetCash(ts[..|ts| - 1]) + Cash(ts[|ts| - 1])
  }

  /** However the costs were split and rounded, realized minus cost is exactly the net cash. */
  lemma {:induction false} LedgerIdentity(start: Position, ts: seq<Trade>)
    ensures var end := FoldFrom(start, ts);
      && end.realized - end.cost == start.realized - start.cost + NetCash(ts)
      && end.trades == start.trades + |ts| && end.token == start.token
  {
    if ts != [] {
      LedgerIdentity(start, ts[..|ts| - 1]);
    }
  }

  /** Tokens bought minus tokens sold. */
  function NetTokens(ts: seq<Trade>): int {
    if ts == [] then 0
    else NetTokens(ts[..|ts| - 1]) + if ts[|ts| - 1].isBuy then ts[|ts| - 1].tokens else 0 - ts[|ts| - 1].tokens
  }

  /** Tokens of the sells that found nothing held and were left out of the holding. */
  function Untracked(start: Position, ts: seq<Trade>): int {
    if ts == [] then 0
    else
      var t, rest := ts[|ts| - 1], ts[..|ts| - 1];
      Untracked(start, rest) + if !t.isBuy && FoldFrom(start, rest).held <= 0 then t.tokens else 0
  }

  /** The holding is what was bought minus what was sold, except for sells that found nothing held. */
  lemma {:induction false} HoldingIdentity(start: Position, ts: seq<Trade>)
    ensures FoldFrom(start, ts).held == start.held + NetTokens(ts) + Untracked(start, ts)
  {
    if ts != [] {
      HoldingIdentity(start, ts[..|ts| - 1]);
    }
  }

  lemma BurnIdentity(pos: Position, burn: Option<int>)
    ensures Debited(pos, burn).realized - Debited(pos, burn).cost == pos.realized - pos.cost
    ensures Debited(pos, burn).token == pos.token && Debited(pos, burn).trades == pos.trades
  {}

  /** Net cash summed pool by pool. */
  function NetByPool(pools: seq<string>, ts: seq<Trade>): int {
    if pools == [] then 0
    else NetByPool(pools[..|pools| - 1], ts) + NetCash(PoolTrades(ts, pools[|pools| - 1]))
  }

  ghost predicate Distinct(pools: seq<string>) {
    forall i, j | 0 <= i < j < |pools| :: pools[i] != pools[j]
  }

  lemma {:induction false} PoolsDistinct(ts: seq<Trade>)
    ensures Distinct(Pools(ts))
    ensures forall p :: p in Pools(ts) <==> PoolTrades(ts, p) != []
  {
    if ts != [] {
      PoolsDistinct(ts[..|ts| - 1]);
    }
  }

  ghost predicate TradedBefore(ts: seq<Trade>, p: string, q: string) {
    exists a :: 0 <= a < |ts| && ts[a].pool == p && forall b | 0 <= b <= a :: ts[b].pool != q
  }

  /** The pools are listed by their first trade: an earlier one was traded before the later one ever was. */
  lemma {:induction false} PoolsInOrder(ts: seq<Trade>, i: nat, j: nat)
    requires i < j < |Pools(ts)|
    ensures TradedBefore(ts, Pools(ts)[i], Pools(ts)[j])
  {
    hide PoolTrades;
    var n := |ts| - 1;
    var rest := ts[..n];
    PoolsDistinct(rest);
    if j < |Pools(rest)| {
      PoolsInOrder(rest, i, j);
      var a :| 0 <= a < |rest| && rest[a].pool == Pools(ts)[i] && forall b | 0 <= b <= a :: rest[b].pool != Pools(ts)[j];
      assert ts[a].pool == Pools(ts)[i] && forall b | 0 <= b <= a :: ts[b] == rest[b];
    } else {
      var p, q := Pools(ts)[i], Pools(ts)[j];
      assert q == ts[n].pool && q !in Pools(rest) && p in Pools(rest);
      forall b | 0 <= b < n ensures ts[b].pool != q {
        TradeListed(rest, b);
      }
      var a := FirstListed(rest, p);
    }
  }

  lemma {:induction false} TradeListed(ts: seq<Trade>, b: nat)
    requires b < |ts|
    ensures ts[b].pool in Pools(ts)
  {
    if b < |ts| - 1 {
      TradeListed(ts[..|ts| - 1], b);
    }
  }

  lemma {:induction false} FirstListed(ts: seq<Trade>, p: string) returns (a: nat)
    requires p in Pools(ts)
    ensures a < |ts| && ts[a].pool == p
  {
    var n := |ts| - 1;
    if p in Pools(ts[..n]) {
      a := FirstListed(ts[..n], p);
    } else {
      a := n;
    }
  }

  lemma NetSnoc(ts: seq<Trade>, t: Trade)
    ensures NetCash(ts + [t]) == NetCash(ts) + Cash(t)
  {
    assert (ts + [t])[..|ts|] == ts;
  }

  lemma {:induction false} NetByPoolSnoc(pools: seq<string>, ts: seq<Trade>, t: Trade)
    requires Distinct(pools)
    ensures NetByPool(pools, ts + [t]) == NetByPool(pools, ts) + if t.pool in pools then Cash(t) else 0
  {
    hide PoolTrades, NetCash, Cash;
    if pools != [] {
      var n := |pools| - 1;
      var p := pools[n];
      NetByPoolSnoc(pools[..n], ts, t);
      PoolTradesSnoc(ts, t, p);
      NetSnoc(PoolTrades(ts, p), t);
      assert PoolTrades(ts, p) + [] == PoolTrades(ts, p);
      assert p !in pools[..n];
      assert t.pool in pools <==> t.pool in pools[..n] || t.pool == p;
    }
  }

  lemma {:induction false} NetByPoolNone(pools: seq<string>)
    ensures NetByPool(pools, []) == 0
  {
    if pools != [] {
      NetByPoolNone(pools[..|pools| - 1]);
      assert PoolTrades([], pools[|pools| - 1]) == [];
      assert NetCash([]) == 0;
    }
  }

  /** Splitting the trades by pool loses no cash. */
  lemma {:induction false} NetPartition(ts: seq<Trade>)
    ensures NetByPool(Pools(ts), ts) == NetCash(ts)
  {
    hide PoolTrades, NetByPool, NetCash;
    if ts == [] {
      NetByPoolNone([]);
      assert NetCash([]) == 0 by { NetNothing(); }
    } else {
      var rest, t := ts[..|ts| - 1], ts[|ts| - 1];
      assert ts == rest + [t];
      NetPartition(rest);
      PoolsDistinct(rest);
      NetSnoc(rest, t);
      NetByPoolSnoc(Pools(rest), rest, t);
      if t.pool !in Pools(rest) {
        NewPool(Pools(rest), rest, t);
      }
    }
  }

  lemma NetNothing()
    ensures NetCash([]) == 0
  {}

  lemma NewPool(pools: seq<string>, ts: seq<Trade>, t: Trade)
    requires PoolTrades(ts, t.pool) == []
    ensures NetByPool(pools + [t.pool], ts + [t]) == NetByPool(pools, ts + [t]) + Cash(t)
  {
    hide PoolTrades, NetCash;
    assert (pools + [t.pool])[..|pools|] == pools;
    PoolTradesSnoc(ts, t, t.pool);
    NetSnoc([], t);
    NetNothing();
    assert [] + [t] == [t];
  }

  // ----- the endpoint -----

  /** The rows `walletPnl` must report: each pool on its own trades, then its token's burn, then its price. */
  function Report(ts: seq<Trade>, burns: map<string, int>, prices: map<string, int>, pools: seq<string>): seq<Row>
    requires forall p | p in pools :: PoolTrades(ts, p) != []
  {
    if pools == [] then []
    else
      var p := pools[|pools| - 1];
      var pos := PositionOf(ts, p);
      Report(ts, burns, prices, pools[..|pools| - 1]) + [RowOf(p, Debited(pos, BurnOf(burns, pos.token)), PriceOf(prices, p))]
  }

  /** A row shows its pool's position after the burn, valued at its pool's price. */
  ghost predicate Shows(row: Row, pos: Position, prices: map<string, int>) {
    && row.token == pos.token && row.held == pos.held && row.cost == pos.cost && row.realized == pos.realized
    && Valued(row.value, row.held, if row.pool in prices then prices[row.pool] else 0)
  }

  /** A pool's position once its token's burn is debited. */
  function FinalPosition(ts: seq<Trade>, burns: map<string, int>, pool: string): Position
    requires PoolTrades(ts, pool) != []
  {
    Debited(PositionOf(ts, pool), BurnOf(burns, PositionOf(ts, pool).token))
  }

  ghost predicate Balanced(row: Row, ts: seq<Trade>, pool: string) {
    && row.pool == pool && row.trades == |PoolTrades(ts, pool)|
    && row.realized - row.cost == NetCash(PoolTrades(ts, pool))
    && row.unrealized == row.value - row.cost
  }

  /** Every reported row accounts for its pool's cash. */
  lemma {:induction false} ReportRows(ts: seq<Trade>, burns: map<string, int>, prices: map<string, int>, pools: seq<string>)
    requires forall p | p in pools :: PoolTrades(ts, p) != []
    ensures |Report(ts, burns, prices, pools)| == |pools|
    ensures forall i | 0 <= i < |pools| ::
              && Balanced(Report(ts, burns, prices, pools)[i], ts, pools[i])
              && Shows(Report(ts, burns, prices, pools)[i], FinalPosition(ts, burns, pools[i]), prices)
  {
    hide PoolTrades, Balanced, PositionOf, RowOf, BurnOf, Debited, PriceOf, Shows;
    if pools != [] {
      ReportRows(ts, burns, prices, pools[..|pools| - 1]);
      RowBalances(ts, burns, prices, pools[|pools| - 1]);
    }
  }

  lemma {:induction false} SumBalances(rows: seq<Row>, ts: seq<Trade>, pools: seq<string>)
    requires |rows| == |pools| && forall i | 0 <= i < |pools| :: Balanced(rows[i], ts, pools[i])
    ensures SumRows(rows).realized - SumRows(rows).cost == NetByPool(pools, ts)
    ensures SumRows(rows).unrealized == SumRows(rows).value - SumRows(rows).cost
  {
    hide PoolTrades, NetCash;
    if pools != [] {
      SumBalances(rows[..|rows| - 1], ts, pools[..|pools| - 1]);
      assert Balanced(rows[|rows| - 1], ts, pools[|pools| - 1]);
    }
  }

  lemma RowShows(ts: seq<Trade>, burns: map<string, int>, prices: map<string, int>, p: string)
    requires PoolTrades(ts, p) != []
    requires Valued(ValueOf(FinalPosition(ts, burns, p).held, PriceOf(prices, p)), FinalPosition(ts, burns, p).held, PriceOf(prices, p))
    ensures Shows(RowOf(p, FinalPosition(ts, burns, p), PriceOf(prices, p)), FinalPosition(ts, burns, p), prices)
  {
    hide FinalPosition, ValueOf, Valued;
  }

  lemma RowBalances(ts: seq<Trade>, burns: map<string, int>, prices: map<string, int>, p: string)
    requires PoolTrades(ts, p) != []
    ensures var pos := PositionOf(ts, p);
      var row := RowOf(p, Debited(pos, BurnOf(burns, pos.token)), PriceOf(prices, p));
      Balanced(row, ts, p) && Shows(row, FinalPosition(ts, burns, p), prices)
  {
    ValueIs(FinalPosition(ts, burns, p).held, PriceOf(prices, p));
    RowShows(ts, burns, prices, p);
    hide PoolTrades, NetCash, FoldFrom, Burned, ValueOf, BurnOf, PriceOf, Shows, Valued;
    var mine := PoolTrades(ts, p);
    LedgerIdentity(Fresh(mine[0].token), mine);
    var pos := PositionOf(ts, p);
    BurnIdentity(pos, BurnOf(burns, pos.token));
  }

  /**
   `walletPnl`: the rows are those of the independent per-pool folds, and the totals satisfy
   realized + unrealized == value + sells - buys, whatever was rounded, oversold or burned.
   */
  method WalletPnl(ts: seq<Trade>, burnRows: seq<(string, int)>, prices: map<string, int>) returns (rows: seq<Row>, totals: Totals)
    ensures forall p | p in Pools(ts) :: PoolTrades(ts, p) != []
    ensures rows == Report(ts, BurnsByToken(burnRows), prices, Pools(ts))
    ensures |rows| == |Pools(ts)| && forall i | 0 <= i < |rows| ::
              Balanced(rows[i], ts, Pools(ts)[i]) && Shows(rows[i], FinalPosition(ts, BurnsByToken(burnRows), Pools(ts)[i]), prices)
    ensures totals == SumRows(rows)
    ensures totals.realized + totals.unrealized == totals.value + NetCash(ts)
  {
    hide FoldFrom, PoolTrades, BurnOf, Debited, RowOf, NetByPool, NetCash, BurnsByToken, SumRows, Report, Pools, PositionOf, Balanced, Shows, FinalPosition;
    var book, order := FoldTrades(ts);
    PoolsDistinct(ts);
    var burnsByToken := IndexBurns(burnRows);
    var after := DebitBurns(book, order, burnsByToken);
    rows := Value(ts, book, order, burnsByToken, after, prices);
    totals := AddUp(rows);
    ReportRows(ts, burnsByToken, prices, order);
    SumBalances(rows, ts, order);
    NetPartition(ts);
  }

  method IndexBurns(burnRows: seq<(string, int)>) returns (burns: map<string, int>)
    ensures burns == BurnsByToken(burnRows)
  {
    hide Lower;
    burns := map[];
    for i := 0 to |burnRows|
      invariant burns == BurnsByToken(burnRows[..i])
    {
      assert burnRows[..i + 1][..i] == burnRows[..i];
      burns := burns[Lower(burnRows[i].0) := burnRows[i].1];
    }
    assert burnRows[..|burnRows|] == burnRows;
  }

  /** Positions in insertion order, valued at their pool's last price. */
  method Value(ghost ts: seq<Trade>, ghost book: map<string, Position>, order: seq<string>, ghost burns: map<string, int>,
               after: map<string, Position>, prices: map<string, int>)
      returns (rows: seq<Row>)
    requires Folded(ts, book, order) && DebitedBook(book, burns, after)
    ensures forall p | p in order :: PoolTrades(ts, p) != []
    ensures rows == Report(ts, burns, prices, order)
  {
    hide PoolTrades, PositionOf, Pools, BurnOf, Debited, RowOf;
    rows := [];
    for i := 0 to |order|
      invariant rows == Report(ts, burns, prices, order[..i])
    {
      assert order[..i + 1][..i] == order[..i];
      assert order[i] in book;
      rows := rows + [RowOf(order[i], after[order[i]], PriceOf(prices, order[i]))];
    }
    assert order[..|order|] == order;
  }

  method AddUp(rows: seq<Row>) returns (totals: Totals)
    ensures totals == SumRows(rows)
  {
    totals := Totals(0, 0, 0, 0);
    for i := 0 to |rows|
      invariant totals == SumRows(rows[..i])
    {
      assert rows[..i + 1][..i] == rows[..i];
      totals := Totals(totals.realized + rows[i].realized, totals.unrealized + rows[i].unrealized,
                       totals.cost + rows[i].cost, totals.value + rows[i].value);
    }
    assert rows[..|rows|] == rows;
  }

  // ----- soundness of a position -----

  /** Nothing negative, and an empty holding carries no cost. */
  predicate Sound(pos: Position) {
    pos.held >= 0 && pos.cost >= 0 && (pos.held == 0 ==> pos.cost == 0)
  }

  /** The sell branch that goes wrong: selling more than a positive holding. */
  predicate Oversells(pos: Position, t: Trade) {
    !t.isBuy && 0 < pos.held < t.tokens
  }

  /** The buy that goes wrong: paying for no tokens while holding none. */
  predicate Strands(pos: Position, t: Trade) {
    t.isBuy && t.tokens == 0 < t.eth && pos.held == 0
  }

  /** One swap with non-negative amounts keeps a sound position sound exactly when it neither oversells nor strands. */
  lemma TradeSoundIff(pos: Position, t: Trade)
    requires Sound(pos) && t.eth >= 0 && t.tokens >= 0
    ensures Sound(Traded(pos, t)) <==> !Oversells(pos, t) && !Strands(pos, t)
  {
    if !t.isBuy && pos.held > 0 && t.tokens <= pos.held {
      ShareSold(pos.cost, t.tokens, pos.held);
    }
  }

  /** The cost of a part: within the whole, all of it when everything goes, and never more than its share. */
  lemma ShareSold(cost: int, part: int, whole: int)
    requires 0 <= cost && 0 <= part <= whole && 0 < whole
    ensures 0 <= TruncDiv(cost * part, whole) <= cost
    ensures part == whole ==> TruncDiv(cost * part, whole) == cost
    ensures TruncDiv(cost * part, whole) * whole <= cost * part < TruncDiv(cost * part, whole) * whole + whole
  {
    MulMonotone(0, cost, part);
    TruncIsFloor(cost * part, whole);
    var q := cost * part / whole;
    FloorIs(cost * part, whole, q);
    FloorAtLeast(cost * part, whole, 0);
    MulMonotone(part, whole, cost);
    if q > cost {
      MulStrict(cost, q, whole);
    }
    if part == whole {
      FloorIs(cost * part, whole, cost);
    }
  }

  /**
   Over every list of swaps with non-negative amounts: the position is sound after every prefix if and
   only if no swap oversells a positive holding or pays for nothing while empty.
   */
  lemma {:induction false} SoundThroughoutIff(start: Position, ts: seq<Trade>)
    requires Sound(start)
    requires forall i | 0 <= i < |ts| :: ts[i].eth >= 0 && ts[i].tokens >= 0
    ensures (forall k | 0 <= k <= |ts| :: Sound(FoldFrom(start, ts[..k])))
       <==> (forall k | 0 <= k < |ts| :: !Oversells(FoldFrom(start, ts[..k]), ts[k]) && !Strands(FoldFrom(start, ts[..k]), ts[k]))
  {
    hide Sound, Oversells, Strands, Traded, FoldFrom;
    forall k | 0 <= k < |ts| && Sound(FoldFrom(start, ts[..k]))
      ensures Sound(FoldFrom(start, ts[..k + 1])) <==> !Oversells(FoldFrom(start, ts[..k]), ts[k]) && !Strands(FoldFrom(start, ts[..k]), ts[k])
    {
      assert ts[..k + 1] == ts[..k] + [ts[k]];
      FoldSnoc(start, ts[..k], ts[k]);
      TradeSoundIff(FoldFrom(start, ts[..k]), ts[k]);
    }
    assert ts[..0] == [];
    FoldNothing(start);
    if forall k | 0 <= k < |ts| :: !Oversells(FoldFrom(start, ts[..k]), ts[k]) && !Strands(FoldFrom(start, ts[..k]), ts[k]) {
      for k := 0 to |ts|
        invariant forall j | 0 <= j <= k :: Sound(FoldFrom(start, ts[..j]))
      {
        assert Sound(FoldFrom(start, ts[..k]));
      }
    } else {
      var k :| 0 <= k < |ts| && !(!Oversells(FoldFrom(start, ts[..k]), ts[k]) && !Strands(FoldFrom(start, ts[..k]), ts[k]));
      assert !Sound(FoldFrom(start, ts[..k])) || !Sound(FoldFrom(start, ts[..k + 1]));
    }
  }

  /** A sell never lowers the average cost of what remains, and raises it by less than one wei in total. */
  lemma SellKeepsAverage(pos: Position, t: Trade)
    requires Sound(pos) && !t.isBuy && 0 <= t.tokens <= pos.held && 0 < pos.held
    ensures var end := Traded(pos, t);
      pos.cost * end.held <= end.cost * pos.held < pos.cost * end.held + pos.held
  {
    ShareSold(pos.cost, t.tokens, pos.held);
    var c := TruncDiv(pos.cost * t.tokens, pos.held);
    assert pos.cost * (pos.held - t.tokens) == pos.cost * pos.held - pos.cost * t.tokens;
    assert (pos.cost - c) * pos.held == pos.cost * pos.held - c * pos.held;
  }

  /** A sell that oversells: 10 tokens held at cost 100, 15 sold. */
  lemma OversellExample()
    ensures var pos := FoldFrom(Fresh("t"), [Trade("p", "t", true, 100, 10), Trade("p", "t", false, 90, 15)]);
      pos.held == -5 && pos.cost == -50 && pos.realized == -60
  {
    var a, b := Trade("p", "t", true, 100, 10), Trade("p", "t", false, 90, 15);
    assert [a, b] == [a] + [b] && [a] == [] + [a];
    FoldSnoc(Fresh("t"), [a], b);
    FoldSnoc(Fresh("t"), [], a);
    FoldNothing(Fresh("t"));
    assert TruncDiv(1500, 10) == 150;
  }

  // ----- burns -----

  /** A burn keeps a position sound and removes exactly what it can. */
  lemma BurnKeepsSound(pos: Position, burned: int)
    requires Sound(pos) && burned >= 0
    ensures Sound(Burned(pos, burned))
    ensures Burned(pos, burned).held == Max(0, pos.held - burned)
    ensures pos.cost * Burned(pos, burned).held <= Burned(pos, burned).cost * pos.held
    ensures pos.held > 0 ==> Burned(pos, burned).cost * pos.held < pos.cost * Burned(pos, burned).held + pos.held
  {
    hide TruncDiv;
    if pos.held > 0 {
      var d := Min(pos.held, burned);
      ShareSold(pos.cost, d, pos.held);
      var c := TruncDiv(pos.cost * d, pos.held);
      assert pos.cost * (pos.held - d) == pos.cost * pos.held - pos.cost * d;
      assert (pos.cost - c) * pos.held == pos.cost * pos.held - c * pos.held;
    }
  }

  function Holdings(ps: seq<Position>): int {
    if ps == [] then 0 else Holdings(ps[..|ps| - 1]) + ps[|ps| - 1].held
  }

  /** Tokens the ledger loses when one burn is debited from every position of its token. */
  function Lost(ps: seq<Position>, burned: int): int {
    if ps == [] then 0
    else Lost(ps[..|ps| - 1], burned) + (ps[|ps| - 1].held - Burned(ps[|ps| - 1], burned).held)
  }

  ghost predicate NonNegative(ps: seq<Position>) {
    forall i | 0 <= i < |ps| :: ps[i].held >= 0
  }

  lemma OneLost(p: Position, burned: int)
    ensures p.held - Burned(p, burned).held == Min(p.held, burned)
  {}

  lemma {:induction false} LostWithin(ps: seq<Position>, burned: int)
    requires NonNegative(ps) && burned >= 0
    ensures 0 <= Lost(ps, burned) <= Holdings(ps)
  {
    hide Burned;
    if ps != [] {
      LostWithin(ps[..|ps| - 1], burned);
      OneLost(ps[|ps| - 1], burned);
    }
  }

  lemma {:induction false} OneWithin(ps: seq<Position>, burned: int, i: nat)
    requires NonNegative(ps) && burned >= 0 && i < |ps|
    ensures ps[i].held <= Holdings(ps) && Min(ps[i].held, burned) <= Lost(ps, burned)
  {
    hide Burned;
    var n := |ps| - 1;
    LostWithin(ps[..n], burned);
    OneLost(ps[n], burned);
    if i < n {
      OneWithin(ps[..n], burned, i);
    }
  }

  lemma {:induction false} AllSmall(ps: seq<Position>, burned: int)
    requires forall i | 0 <= i < |ps| :: ps[i].held <= burned
    ensures Lost(ps, burned) == Holdings(ps)
  {
    hide Burned;
    if ps != [] {
      AllSmall(ps[..|ps| - 1], burned);
      OneLost(ps[|ps| - 1], burned);
    }
  }

  lemma {:induction false} NoneLost(ps: seq<Position>, burned: int)
    requires NonNegative(ps) && burned > 0
    ensures Lost(ps, burned) == 0 <==> Holdings(ps) == 0
  {
    hide Burned;
    if ps != [] {
      NoneLost(ps[..|ps| - 1], burned);
      LostWithin(ps[..|ps| - 1], burned);
      OneLost(ps[|ps| - 1], burned);
    }
  }

  /** With one holding at least the burn, the loss is the burn exactly when the others are empty. */
  lemma {:induction false} OneLarge(ps: seq<Position>, burned: int, i: nat)
    requires NonNegative(ps) && i < |ps| && 0 < burned <= ps[i].held
    ensures Lost(ps, burned) == burned <==> Holdings(ps) == ps[i].held
  {
    hide Burned;
    var n := |ps| - 1;
    OneLost(ps[n], burned);
    if i < n {
      OneLarge(ps[..n], burned, i);
      OneWithin(ps[..n], burned, i);
    } else {
      NoneLost(ps[..n], burned);
      LostWithin(ps[..n], burned);
    }
  }

  lemma {:induction false} NothingBurned(ps: seq<Position>)
    requires NonNegative(ps)
    ensures Lost(ps, 0) == 0
  {
    hide Burned;
    if ps != [] {
      NothingBurned(ps[..|ps| - 1]);
      OneLost(ps[|ps| - 1], 0);
    }
  }

  /** For any positions and burn: what is lost is the burn exactly in these three cases. */
  lemma LostIsBurnIff(ps: seq<Position>, burned: int)
    requires NonNegative(ps) && burned >= 0
    ensures Lost(ps, burned) == burned
       <==> burned == 0 || Holdings(ps) == burned || exists i | 0 <= i < |ps| :: burned <= ps[i].held == Holdings(ps)
  {
    hide Lost, Holdings;
    if burned == 0 {
      NothingBurned(ps);
    } else if exists i :: 0 <= i < |ps| && burned <= ps[i].held {
      var i :| 0 <= i < |ps| && burned <= ps[i].held;
      OneLarge(ps, burned, i);
      OneWithin(ps, burned, i);
      forall j | 0 <= j < |ps| && burned <= ps[j].held == Holdings(ps) ensures Lost(ps, burned) == burned {
        OneLarge(ps, burned, j);
      }
    } else {
      AllSmall(ps, burned);
    }
  }

  /** A token's positions, in the ledger's order. */
  function TokenPositions(book: map<string, Position>, order: seq<string>, token: string): seq<Position>
    requires forall p | p in order :: p in book
  {
    if order == [] then []
    else
      var pos := book[order[|order| - 1]];
      TokenPositions(book, order[..|order| - 1], token) + if Lower(pos.token) == token then [pos] else []
  }

  /** What the loop takes from a token's positions is the loss of its burn; a token nothing was burned of loses nothing. */
  lemma {:induction false} DebitLoses(book: map<string, Position>, order: seq<string>, burns: map<string, int>,
                                      after: map<string, Position>, token: string)
    requires (forall p | p in order :: p in book) && DebitedBook(book, burns, after)
    ensures Holdings(TokenPositions(book, order, token)) - Holdings(TokenPositions(after, order, token))
         == if token in burns then Lost(TokenPositions(book, order, token), burns[token]) else 0
  {
    hide Burned, Lower;
    if order != [] {
      var rest, p := order[..|order| - 1], order[|order| - 1];
      DebitLoses(book, rest, burns, after, token);
      BurnIdentity(book[p], BurnOf(burns, book[p].token));
      HoldingsSnoc(TokenPositions(book, rest, token), book[p]);
      HoldingsSnoc(TokenPositions(after, rest, token), after[p]);
      if token in burns {
        LostSnoc(TokenPositions(book, rest, token), book[p], burns[token]);
      }
    }
  }

  lemma HoldingsSnoc(ps: seq<Position>, p: Position)
    ensures Holdings(ps + [p]) == Holdings(ps) + p.held
    ensures ps + [] == ps
  {
    assert (ps + [p])[..|ps|] == ps;
  }

  lemma LostSnoc(ps: seq<Position>, p: Position, burned: int)
    ensures Lost(ps + [p], burned) == Lost(ps, burned) + (p.held - Burned(p, burned).held)
  {
    assert (ps + [p])[..|ps|] == ps;
  }

  /**
   The debit is meant to make the ledger lose what the wallet burned. For the positions of one token
   it does exactly when nothing was burned, or all holdings together are the burn, or a single pool
   holds the token and holds at least the burn.
   */
  lemma DebitExactIff(book: map<string, Position>, order: seq<string>, burns: map<string, int>,
                      after: map<string, Position>, token: string)
    requires (forall p | p in order :: p in book) && DebitedBook(book, burns, after)
    requires token in burns && burns[token] >= 0 && NonNegative(TokenPositions(book, order, token))
    ensures var ps, burned := TokenPositions(book, order, token), burns[token];
      Holdings(ps) - Holdings(TokenPositions(after, order, token)) == burned
      <==> burned == 0 || Holdings(ps) == burned || exists i | 0 <= i < |ps| :: burned <= ps[i].held == Holdings(ps)
  {
    hide TokenPositions, Lost, Holdings, DebitedBook;
    DebitLoses(book, order, burns, after, token);
    LostIsBurnIff(TokenPositions(book, order, token), burns[token]);
  }

  /** With one pool per token, as the pools table demands: the debit is right exactly when the ledger holds the burn, oversold holdings included. */
  lemma DebitExactOnePool(book: map<string, Position>, order: seq<string>, burns: map<string, int>,
                          after: map<string, Position>, token: string)
    requires (forall p | p in order :: p in book) && DebitedBook(book, burns, after)
    requires token in burns && burns[token] >= 0 && |TokenPositions(book, order, token)| <= 1
    ensures var ps, burned := TokenPositions(book, order, token), burns[token];
      Holdings(ps) - Holdings(TokenPositions(after, order, token)) == burned <==> burned <= Holdings(ps)
  {
    hide TokenPositions, DebitedBook, Burned;
    DebitLoses(book, order, burns, after, token);
    var ps := TokenPositions(book, order, token);
    if |ps| == 1 {
      HoldingsSnoc([], ps[0]);
      LostSnoc([], ps[0], burns[token]);
      OneLost(ps[0], burns[token]);
      assert [] + [ps[0]] == ps;
    }
  }

  /** A wallet buys 10, is sent 5 more, and burns all 15: the ledger only loses the 10 it knows of. */
  method BurnedTransferExample() returns (held: int, left: int)
    ensures held == 10 && left == 0
  {
    hide PoolTrades, PositionOf, Pools, FoldFrom, Burned;
    var t := Trade("pool", "token", true, 100, 10);
    var book, order := FoldTrades([t]);
    OneTrade(t);
    PoolsDistinct([t]);
    assert "pool" in book;
    held := book["pool"].held;
    var burns := map["token" := 15];
    var after := DebitBurns(book, order, burns);
    assert Lower("token") == "token";
    OneLost(book["pool"], 15);
    left := after["pool"].held;
  }

  lemma OneTrade(t: Trade)
    ensures PoolTrades([t], t.pool) == [t]
    ensures PositionOf([t], t.pool) == Traded(Fresh(t.token), t)
  {
    assert [t] == [] + [t];
    PoolTradesSnoc([], t, t.pool);
    FoldSnoc(Fresh(t.token), [], t);
  }

  /**
   Two pools of one token, 10 bought in each, and one burn of 4: the ledger loses 8. The pools table
   allows one pool per token and chain, so this needs swaps of a pool outside it.
   */
  method DoubleDebitExample() returns (held: int, left: int)
    ensures held == 20 && left == 12
  {
    hide PoolTrades, PositionOf, Pools, FoldFrom, Burned;
    var t, u := Trade("p", "token", true, 100, 10), Trade("q", "token", true, 100, 10);
    var book, order := FoldTrades([t, u]);
    TwoPools(t, u);
    PoolsDistinct([t, u]);
    assert "p" in book && "q" in book;
    held := book["p"].held + book["q"].held;
    var burns := map["token" := 4];
    var after := DebitBurns(book, order, burns);
    assert Lower("token") == "token";
    OneLost(book["p"], 4);
    OneLost(book["q"], 4);
    left := after["p"].held + after["q"].held;
  }

  lemma TwoPools(t: Trade, u: Trade)
    requires t.pool != u.pool
    ensures PoolTrades([t, u], t.pool) == [t] && PoolTrades([t, u], u.pool) == [u]
    ensures PositionOf([t, u], t.pool) == Traded(Fresh(t.token), t)
    ensures PositionOf([t, u], u.pool) == Traded(Fresh(u.token), u)
  {
    assert [t, u] == [t] + [u] && [t] == [] + [t] && [u] == [] + [u];
    PoolTradesSnoc([t], u, t.pool);
    PoolTradesSnoc([t], u, u.pool);
    PoolTradesSnoc([], t, t.pool);
    PoolTradesSnoc([], t, u.pool);
    FoldSnoc(Fresh(t.token), [], t);
    FoldSnoc(Fresh(u.token), [], u);
  }
}
