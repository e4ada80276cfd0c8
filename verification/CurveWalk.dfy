/**
 The walk of a dev buy down a bonding curve (src/protocol/protocol-math.ts:522-581): segments
 between position starts, each at the liquidity deployed so far. Stated on any list of
 boundaries; the curve of nested positions is one instance.
 */
module CurveWalk {
  import opened Arithmetic
  import opened SwapMath

  /** A position start: its sqrt price, and the liquidity that joins there. */
  datatype Boundary = Boundary(sqrtPrice: nat, liquidity: nat)

  /** A stretch of the path walked at one liquidity. */
  datatype Segment = Segment(from: nat, to: nat, liquidity: nat)

  datatype QuoteError =
    | TickOutOfRange
    | PriceOutOfRange
    | DivisionByZero
    | FirstPositionEmpty
    | LiquidityExhausted
    | NotEnoughLiquidity
    | ExceedsCurveSupply

  datatype Result<+T> = Ok(value: T) | Err(error: QuoteError)

  /** The segments walked to release `remaining` tokens, starting at `current`. */
  function Walk(boundaries: seq<Boundary>, far: nat, current: nat, active: nat, remaining: nat): Result<seq<Segment>>
    decreases |boundaries|
  {
    if boundaries != [] && boundaries[0].sqrtPrice >= current then
      Walk(boundaries[1..], far, current, active, remaining)
    else if active == 0 then Err(LiquidityExhausted)
    else
      var target := Target(boundaries, far);
      var outToTarget := Amount1Delta(current, target, active, false);
      if remaining < outToTarget then
        match NextSqrtFromAmount1Out(current, active, remaining)
        case None => Err(NotEnoughLiquidity)
        case Some(end) => Ok([Segment(current, end, active)])
      else if remaining == outToTarget then Ok([Segment(current, target, active)])
      else if boundaries == [] then Err(ExceedsCurveSupply)
      else
        Amount1Exact(current, target, active);
        match Walk(boundaries[1..], far, target, active + boundaries[0].liquidity, remaining - outToTarget)
        case Err(e) => Err(e)
        case Ok(path) => Ok([Segment(current, target, active)] + path)
  }

  function Target(boundaries: seq<Boundary>, far: nat): nat {
    if boundaries == [] then far else boundaries[0].sqrtPrice
  }

  /** ETH a segment takes before the fee. */
  function SegmentInput(s: Segment): int {
    match Amount0Delta(s.to, s.from, s.liquidity, true)
    case Some(amount) => amount
    case None => 0
  }

  function SegmentCost(s: Segment, feePips: nat): int
    requires feePips != FEE_DENOMINATOR
  {
    SegmentInput(s) + FeeOn(SegmentInput(s), feePips)
  }

  function PathCost(path: seq<Segment>, feePips: nat): int
    requires feePips != FEE_DENOMINATOR
  {
    if path == [] then 0 else SegmentCost(path[0], feePips) + PathCost(path[1..], feePips)
  }

  /** Liquidity times sqrt-price width, summed over the path: tokens released, in units of 2^-96. */
  function Area(path: seq<Segment>): int {
    if path == [] then 0 else path[0].liquidity * (path[0].from - path[0].to) + Area(path[1..])
  }

  // ----- shape of a path -----

  ghost predicate AtOrAbove(boundaries: seq<Boundary>, far: nat) {
    forall b | b in boundaries :: far <= b.sqrtPrice
  }

  /** Starts at `current`, every segment continues the one before, falls, and stays at or above far. */
  ghost predicate Descends(path: seq<Segment>, current: nat, far: nat) {
    && path != []
    && path[0].from == current
    && (forall i | 0 <= i < |path| :: far <= path[i].to <= path[i].from)
    && (forall i | 0 < i < |path| :: path[i].from == path[i - 1].to)
  }

  function EndOf(path: seq<Segment>): nat
    requires path != []
  {
    path[|path| - 1].to
  }

  /** One stop inside a segment: the end price lies between current and target, so the walk never underflows. */
  lemma StopInside(current: nat, target: nat, active: nat, remaining: nat)
    requires target <= current && 0 < active
    requires remaining <= active * (current - target) / Q96
    requires 0 < target
    ensures var end := NextSqrtFromAmount1Out(current, active, remaining);
      end.Some? && target <= end.value <= current && remaining * Q96 <= active * (current - end.value)
  {
    hide NextSqrtFromAmount1Out;
    FloorAtLeast(active * (current - target), Q96, remaining);
    NextSqrtIsHighest(current, active, remaining, target);
    var end := NextSqrtFromAmount1Out(current, active, remaining);
    NextSqrtIsHighest(current, active, remaining, end.value);
  }

  lemma {:induction false} WalkDescends(boundaries: seq<Boundary>, far: nat, current: nat, active: nat, remaining: nat)
    requires 0 < far <= current && AtOrAbove(boundaries, far)
    ensures var r := Walk(boundaries, far, current, active, remaining);
      && (r.Ok? ==> Descends(r.value, current, far))
      && (r.Err? ==> r.error == LiquidityExhausted || r.error == ExceedsCurveSupply)
    decreases |boundaries|
  {
    hide Amount1Delta, NextSqrtFromAmount1Out;
    if boundaries != [] && boundaries[0].sqrtPrice >= current {
      WalkDescends(boundaries[1..], far, current, active, remaining);
    } else if active > 0 {
      var target := Target(boundaries, far);
      Amount1Exact(current, target, active);
      var outToTarget := Amount1Delta(current, target, active, false);
      if remaining < outToTarget {
        StopInside(current, target, active, remaining);
      } else if remaining > outToTarget && boundaries != [] {
        WalkDescends(boundaries[1..], far, target, active + boundaries[0].liquidity, remaining - outToTarget);
      }
    }
  }

  // ----- conservation -----

  /** All that active liquidity and the liquidity still to join could release down to far, times 2^96. */
  function Reserve(boundaries: seq<Boundary>, far: nat, current: nat, active: nat): int {
    active * (current - far) + Joining(boundaries, far)
  }

  function Joining(boundaries: seq<Boundary>, far: nat): int {
    if boundaries == [] then 0
    else boundaries[0].liquidity * (boundaries[0].sqrtPrice - far) + Joining(boundaries[1..], far)
  }

  lemma {:induction false} JoiningNonNegative(boundaries: seq<Boundary>, far: nat)
    requires AtOrAbove(boundaries, far)
    ensures 0 <= Joining(boundaries, far)
  {
    if boundaries != [] {
      assert boundaries[0] in boundaries;
      MulMonotone(0, boundaries[0].liquidity, boundaries[0].sqrtPrice - far);
      JoiningNonNegative(boundaries[1..], far);
    }
  }

  /** Summation by parts: passing a boundary turns consumed area into reserve, one for one. */
  lemma ReserveStep(boundaries: seq<Boundary>, far: nat, current: nat, active: nat)
    requires boundaries != []
    ensures var b := boundaries[0];
      Reserve(boundaries, far, current, active)
        == active * (current - b.sqrtPrice) + Reserve(boundaries[1..], far, b.sqrtPrice, active + b.liquidity)
  {
    var b := boundaries[0];
    var w, v := current - b.sqrtPrice, b.sqrtPrice - far;
    assert active * (current - far) == active * w + active * v;
    assert (active + b.liquidity) * v == active * v + b.liquidity * v;
  }

  /** A quoted amount never exceeds what the positions hold, whatever liquidity was skipped. */
  lemma {:induction false} WalkConserves(boundaries: seq<Boundary>, far: nat, current: nat, active: nat, remaining: nat)
    requires 0 < far <= current && AtOrAbove(boundaries, far)
    requires Walk(boundaries, far, current, active, remaining).Ok?
    ensures var path := Walk(boundaries, far, current, active, remaining).value;
      remaining * Q96 <= Area(path) <= Reserve(boundaries, far, current, active)
    decreases |boundaries|
  {
    hide Amount1Delta, NextSqrtFromAmount1Out, Reserve, Area;
    if boundaries != [] && boundaries[0].sqrtPrice >= current {
      SkipReserve(boundaries, far, current, active);
      WalkConserves(boundaries[1..], far, current, active, remaining);
    } else {
      var target := Target(boundaries, far);
      Amount1Exact(current, target, active);
      var outToTarget := Amount1Delta(current, target, active, false);
      FloorAtLeast(active * (current - target), Q96, outToTarget);
      if remaining < outToTarget {
        StopInside(current, target, active, remaining);
        StopReserve(boundaries, far, current, active, NextSqrtFromAmount1Out(current, active, remaining).value);
      } else if remaining == outToTarget {
        StopReserve(boundaries, far, current, active, target);
      } else {
        ReserveStep(boundaries, far, current, active);
        WalkConserves(boundaries[1..], far, target, active + boundaries[0].liquidity, remaining - outToTarget);
        AreaCons(Segment(current, target, active),
                 Walk(boundaries[1..], far, target, active + boundaries[0].liquidity, remaining - outToTarget).value);
      }
    }
  }

  lemma SkipReserve(boundaries: seq<Boundary>, far: nat, current: nat, active: nat)
    requires boundaries != [] && AtOrAbove(boundaries, far)
    ensures Reserve(boundaries[1..], far, current, active) <= Reserve(boundaries, far, current, active)
  {
    assert boundaries[0] in boundaries;
    MulMonotone(0, boundaries[0].liquidity, boundaries[0].sqrtPrice - far);
  }

  lemma StopReserve(boundaries: seq<Boundary>, far: nat, current: nat, active: nat, end: nat)
    requires AtOrAbove(boundaries, far) && far <= end <= current
    ensures Area([Segment(current, end, active)])
         == active * (current - end) <= Reserve(boundaries, far, current, active)
  {
    AreaCons(Segment(current, end, active), []);
    JoiningNonNegative(boundaries, far);
    MulMonotone(current - end, current - far, active);
  }

  lemma AreaCons(s: Segment, path: seq<Segment>)
    ensures Area([s] + path) == s.liquidity * (s.from - s.to) + Area(path)
    ensures Area([s]) == s.liquidity * (s.from - s.to)
  {
    assert ([s] + path)[1..] == path;
  }

  // ----- when a quote exists -----

  /**
   The boundaries at which liquidity joins: one that does not lie below the price reached so far is
   skipped for good.
   */
  function Live(boundaries: seq<Boundary>, current: nat): seq<Boundary> {
    if boundaries == [] then []
    else if boundaries[0].sqrtPrice >= current then Live(boundaries[1..], current)
    else [boundaries[0]] + Live(boundaries[1..], boundaries[0].sqrtPrice)
  }

  /** Skipping changes nothing but the list: on any input the walk is the walk over the live boundaries. */
  lemma {:induction false} WalkIsLive(boundaries: seq<Boundary>, far: nat, current: nat, active: nat, remaining: nat)
    ensures Walk(boundaries, far, current, active, remaining) == Walk(Live(boundaries, current), far, current, active, remaining)
    decreases |boundaries|
  {
    hide Amount1Delta, NextSqrtFromAmount1Out;
    if boundaries != [] {
      var b, rest := boundaries[0], boundaries[1..];
      if b.sqrtPrice >= current {
        WalkIsLive(rest, far, current, active, remaining);
      } else {
        var live := Live(boundaries, current);
        assert live[1..] == Live(rest, b.sqrtPrice);
        if active > 0 {
          Amount1Exact(current, b.sqrtPrice, active);
          var out := Amount1Delta(current, b.sqrtPrice, active, false);
          if remaining > out {
            WalkIsLive(rest, far, b.sqrtPrice, active + b.liquidity, remaining - out);
          }
        }
      }
    }
  }

  /** Each boundary lies strictly below the one before, and above far. */
  ghost predicate Strict(boundaries: seq<Boundary>, far: nat, current: nat) {
    if boundaries == [] then far < current
    else boundaries[0].sqrtPrice < current && Strict(boundaries[1..], far, boundaries[0].sqrtPrice)
  }

  /** A list that already falls strictly is all live. */
  lemma {:induction false} StrictIsLive(boundaries: seq<Boundary>, far: nat, current: nat)
    requires Strict(boundaries, far, current)
    ensures Live(boundaries, current) == boundaries
  {
    if boundaries != [] {
      StrictIsLive(boundaries[1..], far, boundaries[0].sqrtPrice);
    }
  }

  lemma {:induction false} LiveAbove(boundaries: seq<Boundary>, far: nat, current: nat)
    requires AtOrAbove(boundaries, far)
    ensures AtOrAbove(Live(boundaries, current), far)
  {
    if boundaries != [] {
      var b := boundaries[0];
      LiveAbove(boundaries[1..], far, if b.sqrtPrice >= current then current else b.sqrtPrice);
    }
  }

  /** Tokens released by walking every segment to far, each rounded down. */
  function Capacity(boundaries: seq<Boundary>, far: nat, current: nat, active: nat): int {
    if boundaries == [] then active * (current - far) / Q96
    else
      var b := boundaries[0];
      active * (current - b.sqrtPrice) / Q96 + Capacity(boundaries[1..], far, b.sqrtPrice, active + b.liquidity)
  }

  lemma {:induction false} CapacityNonNegative(boundaries: seq<Boundary>, far: nat, current: nat, active: nat)
    requires far <= current && AtOrAbove(boundaries, far)
    ensures 0 <= Capacity(Live(boundaries, current), far, current, active)
  {
    if boundaries != [] && boundaries[0].sqrtPrice >= current {
      CapacityNonNegative(boundaries[1..], far, current, active);
    } else {
      var target := Target(boundaries, far);
      MulMonotone(0, active, current - target);
      FloorAtLeast(active * (current - target), Q96, 0);
      if boundaries != [] {
        LiveHead(boundaries, current);
        CapacityNonNegative(boundaries[1..], far, target, active + boundaries[0].liquidity);
      }
    }
  }

  lemma LiveHead(boundaries: seq<Boundary>, current: nat)
    requires boundaries != [] && boundaries[0].sqrtPrice < current
    ensures var live := Live(boundaries, current);
      live != [] && live[0] == boundaries[0] && live[1..] == Live(boundaries[1..], boundaries[0].sqrtPrice)
  {}

  /**
   On any boundaries at or above far, coincident or out of order included, the walk succeeds exactly on
   the amounts within the capacity of the live ones; the only other outcome is the supply guard.
   */
  lemma {:induction false} WalkSucceedsIff(boundaries: seq<Boundary>, far: nat, current: nat, active: nat, remaining: nat)
    requires 0 < far <= current && 0 < active && AtOrAbove(boundaries, far)
    ensures var r := Walk(boundaries, far, current, active, remaining);
      if remaining <= Capacity(Live(boundaries, current), far, current, active) then r.Ok? else r == Err(ExceedsCurveSupply)
    decreases |boundaries|
  {
    hide Amount1Delta, NextSqrtFromAmount1Out;
    if boundaries != [] && boundaries[0].sqrtPrice >= current {
      WalkSucceedsIff(boundaries[1..], far, current, active, remaining);
    } else {
      var target := Target(boundaries, far);
      Amount1Exact(current, target, active);
      var outToTarget := Amount1Delta(current, target, active, false);
      if boundaries != [] {
        LiveHead(boundaries, current);
        CapacityNonNegative(boundaries[1..], far, target, active + boundaries[0].liquidity);
      }
      if remaining < outToTarget {
        StopInside(current, target, active, remaining);
      } else if remaining > outToTarget && boundaries != [] {
        WalkSucceedsIff(boundaries[1..], far, target, active + boundaries[0].liquidity, remaining - outToTarget);
      }
    }
  }

  /** Tokens released by the first j segments, each rounded down. */
  function Released(boundaries: seq<Boundary>, far: nat, current: nat, active: nat, j: nat): int
    requires j <= |boundaries| + 1
  {
    if j == 0 then 0
    else if boundaries == [] then active * (current - far) / Q96
    else
      var b := boundaries[0];
      active * (current - b.sqrtPrice) / Q96 + Released(boundaries[1..], far, b.sqrtPrice, active + b.liquidity, j - 1)
  }

  lemma {:induction false} ReleasedNonNegative(boundaries: seq<Boundary>, far: nat, current: nat, active: nat, j: nat)
    requires j <= |boundaries| + 1 && far <= current && AtOrAbove(boundaries, far) && Live(boundaries, current) == boundaries
    ensures 0 <= Released(boundaries, far, current, active, j)
  {
    if j > 0 {
      var target := Target(boundaries, far);
      if boundaries != [] {
        LiveTail(boundaries, current);
        ReleasedNonNegative(boundaries[1..], far, target, active + boundaries[0].liquidity, j - 1);
      }
      MulMonotone(0, active, current - target);
      FloorAtLeast(active * (current - target), Q96, 0);
    }
  }

  lemma {:induction false} LiveShorter(boundaries: seq<Boundary>, current: nat)
    ensures |Live(boundaries, current)| <= |boundaries|
  {
    if boundaries != [] {
      var b := boundaries[0];
      LiveShorter(boundaries[1..], if b.sqrtPrice >= current then current else b.sqrtPrice);
    }
  }

  lemma LiveTail(boundaries: seq<Boundary>, current: nat)
    requires boundaries != [] && Live(boundaries, current) == boundaries
    ensures boundaries[0].sqrtPrice < current && Live(boundaries[1..], boundaries[0].sqrtPrice) == boundaries[1..]
  {
    if boundaries[0].sqrtPrice >= current {
      LiveShorter(boundaries[1..], current);
    } else {
      LiveHead(boundaries, current);
    }
  }

  /** The price at which the j-th segment starts and the one it aims at, with the liquidity it has. */
  function PriceAt(boundaries: seq<Boundary>, far: nat, current: nat, j: nat): nat
    requires j <= |boundaries| + 1
  {
    if j == 0 then current else if j <= |boundaries| then boundaries[j - 1].sqrtPrice else far
  }

  /**
   Where a walk over live boundaries stops. An amount that the first j segments cannot release but one
   more can ends in that segment: at its very end if it takes all of it, and otherwise at the highest
   price that releases what is left.
   */
  lemma {:induction false} WalkStops(boundaries: seq<Boundary>, far: nat, current: nat, active: nat, remaining: nat, j: nat, price: nat)
    requires 0 < far <= current && 0 < active && AtOrAbove(boundaries, far) && Live(boundaries, current) == boundaries
    requires j <= |boundaries|
    requires Released(boundaries, far, current, active, j) < remaining <= Released(boundaries, far, current, active, j + 1)
    ensures var r := Walk(boundaries, far, current, active, remaining);
      var from, to := PriceAt(boundaries, far, current, j), PriceAt(boundaries, far, current, j + 1);
      var left := remaining - Released(boundaries, far, current, active, j);
      && r.Ok? && |r.value| == j + 1
      && (remaining == Released(boundaries, far, current, active, j + 1) ==> EndOf(r.value) == to)
      && (remaining < Released(boundaries, far, current, active, j + 1) && price <= from ==>
            (left * Q96 <= (active + TotalLiquidity(boundaries[..j])) * (from - price) <==> price <= EndOf(r.value)))
    decreases |boundaries|
  {
    hide TotalLiquidity, Walk, AtOrAbove, Live;
    SumsOfNone();
    assert boundaries[..0] == [];
    if boundaries != [] {
      LiveTail(boundaries, current);
    }
    if j == 0 {
      StopsFirst(boundaries, far, current, active, remaining, price);
    } else {
      var b, rest := boundaries[0], boundaries[1..];
      AboveTail(boundaries, far);
      ReleasedNonNegative(rest, far, b.sqrtPrice, active + b.liquidity, j - 1);
      var out := active * (current - b.sqrtPrice) / Q96;
      assert Released(boundaries, far, current, active, j) == out + Released(rest, far, b.sqrtPrice, active + b.liquidity, j - 1);
      assert Released(boundaries, far, current, active, j + 1) == out + Released(rest, far, b.sqrtPrice, active + b.liquidity, j);
      hide Released;
      WalkNext(boundaries, far, current, active, remaining);
      WalkStops(rest, far, b.sqrtPrice, active + b.liquidity, remaining - out, j - 1, price);
      assert boundaries[..j] == [b] + rest[..j - 1];
      SumsCons(b, rest[..j - 1], 0);
      assert PriceAt(boundaries, far, current, j) == PriceAt(rest, far, b.sqrtPrice, j - 1);
      assert PriceAt(boundaries, far, current, j + 1) == PriceAt(rest, far, b.sqrtPrice, j);
    }
  }

  lemma AboveTail(boundaries: seq<Boundary>, far: nat)
    requires boundaries != [] && AtOrAbove(boundaries, far)
    ensures far <= boundaries[0].sqrtPrice && AtOrAbove(boundaries[1..], far)
  {}

  /** A walk that needs more than its first segment goes on from the boundary. */
  lemma WalkNext(boundaries: seq<Boundary>, far: nat, current: nat, active: nat, remaining: nat)
    requires boundaries != [] && boundaries[0].sqrtPrice < current && 0 < active
    requires active * (current - boundaries[0].sqrtPrice) / Q96 < remaining
    ensures var b, out := boundaries[0], active * (current - boundaries[0].sqrtPrice) / Q96;
      && 0 <= out
      && match Walk(boundaries[1..], far, b.sqrtPrice, active + b.liquidity, remaining - out)
         case Err(e) => Walk(boundaries, far, current, active, remaining) == Err(e)
         case Ok(path) => Walk(boundaries, far, current, active, remaining) == Ok([Segment(current, b.sqrtPrice, active)] + path)
  {
    hide Amount1Delta, NextSqrtFromAmount1Out;
    Amount1Exact(current, boundaries[0].sqrtPrice, active);
  }

  lemma StopsFirst(boundaries: seq<Boundary>, far: nat, current: nat, active: nat, remaining: nat, price: nat)
    requires 0 < far <= current && 0 < active && AtOrAbove(boundaries, far)
    requires boundaries != [] ==> boundaries[0].sqrtPrice < current
    requires 0 < remaining <= active * (current - Target(boundaries, far)) / Q96
    ensures var r := Walk(boundaries, far, current, active, remaining);
      var target := Target(boundaries, far);
      && r.Ok? && |r.value| == 1
      && (remaining == active * (current - target) / Q96 ==> EndOf(r.value) == target)
      && (remaining < active * (current - target) / Q96 && price <= current ==>
            (remaining * Q96 <= active * (current - price) <==> price <= EndOf(r.value)))
  {
    hide Amount1Delta, NextSqrtFromAmount1Out;
    var target := Target(boundaries, far);
    Amount1Exact(current, target, active);
    StopInside(current, target, active, remaining);
    if price <= current {
      NextSqrtIsHighest(current, active, remaining, price);
    }
  }

  /** Rounding each segment down loses less than one token unit per segment. */
  lemma {:induction false} CapacityTight(boundaries: seq<Boundary>, far: nat, current: nat, active: nat)
    ensures Capacity(boundaries, far, current, active) * Q96 <= Reserve(boundaries, far, current, active)
    ensures Reserve(boundaries, far, current, active)
          < (Capacity(boundaries, far, current, active) + |boundaries| + 1) * Q96
  {
    var target := Target(boundaries, far);
    var area := active * (current - target);
    FloorIs(area, Q96, area / Q96);
    if boundaries != [] {
      hide Reserve;
      ReserveStep(boundaries, far, current, active);
      CapacityTight(boundaries[1..], far, target, active + boundaries[0].liquidity);
    }
  }

  // ----- what every iteration keeps -----

  function TotalLiquidity(boundaries: seq<Boundary>): int {
    if boundaries == [] then 0 else boundaries[0].liquidity + TotalLiquidity(boundaries[1..])
  }

  /** Price and liquidity at the top of an iteration of the loop. */
  datatype Iteration = Iteration(price: nat, active: nat)

  /** The iterations the loop makes, however it ends: a quote, a throw, or the supply guard. */
  function Iterations(boundaries: seq<Boundary>, far: nat, current: nat, active: nat, remaining: nat): (r: seq<Iteration>)
    ensures r != [] && r[0] == Iteration(current, active)
    decreases |boundaries|
  {
    if boundaries != [] && boundaries[0].sqrtPrice >= current then
      Iterations(boundaries[1..], far, current, active, remaining)
    else
      [Iteration(current, active)] + LaterIterations(boundaries, far, current, active, remaining)
  }

  function LaterIterations(boundaries: seq<Boundary>, far: nat, current: nat, active: nat, remaining: nat): seq<Iteration>
    decreases |boundaries|, 0
  {
    if boundaries == [] || active == 0 then []
    else
      var target := boundaries[0].sqrtPrice;
      var outToTarget := Amount1Delta(current, target, active, false);
      Amount1Exact(current, target, active);
      if remaining <= outToTarget then []
      else Iterations(boundaries[1..], far, target, active + boundaries[0].liquidity, remaining - outToTarget)
  }

  /** Liquidity times width consumed from the first iteration to the last. */
  function Consumed(its: seq<Iteration>): int {
    if |its| < 2 then 0 else its[0].active * (its[0].price - its[1].price) + Consumed(its[1..])
  }

  /**
   Whatever the boundaries and however the loop ends, at its j-th iteration the price is that of the
   j-th live boundary, the active liquidity is that of all live boundaries reached, and the area
   consumed so far is each one's own liquidity times the distance from its own price.
   */
  lemma {:induction false} WalkAccumulates(boundaries: seq<Boundary>, far: nat, current: nat, active: nat, remaining: nat, j: nat)
    requires j < |Iterations(boundaries, far, current, active, remaining)|
    ensures j <= |Live(boundaries, current)|
    ensures var its, live := Iterations(boundaries, far, current, active, remaining), Live(boundaries, current);
      var here := its[j].price;
      && here == (if j == 0 then current else live[j - 1].sqrtPrice)
      && its[j].active == active + TotalLiquidity(live[..j])
      && Consumed(its[..j + 1]) == active * (current - here) + Joining(live[..j], here)
    decreases |boundaries|
  {
    hide Joining, TotalLiquidity, Amount1Delta, Consumed;
    var its, live := Iterations(boundaries, far, current, active, remaining), Live(boundaries, current);
    SumsOfNone();
    assert live[..0] == [];
    assert its[..1] == [its[0]];
    ConsumedOne(its[0]);
    if boundaries != [] && boundaries[0].sqrtPrice >= current {
      WalkAccumulates(boundaries[1..], far, current, active, remaining, j);
    } else if j > 0 {
      var b := boundaries[0];
      Amount1Exact(current, b.sqrtPrice, active);
      var left := remaining - Amount1Delta(current, b.sqrtPrice, active, false);
      var rest := Iterations(boundaries[1..], far, b.sqrtPrice, active + b.liquidity, left);
      LiveHead(boundaries, current);
      WalkAccumulates(boundaries[1..], far, b.sqrtPrice, active + b.liquidity, left, j - 1);
      assert its == [Iteration(current, active)] + rest;
      ConsumedCons(Iteration(current, active), rest, j);
      AccumulatedCons(b, live[1..], j - 1, current, active, rest[j - 1].price);
      assert live == [b] + live[1..];
    }
  }

  lemma ConsumedOne(it: Iteration)
    ensures Consumed([it]) == 0
  {}

  lemma ConsumedCons(it: Iteration, rest: seq<Iteration>, j: nat)
    requires 0 < j <= |rest|
    ensures Consumed(([it] + rest)[..j + 1]) == it.active * (it.price - rest[0].price) + Consumed(rest[..j])
  {
    var its := ([it] + rest)[..j + 1];
    assert its[1..] == rest[..j];
  }

  lemma AccumulatedCons(b: Boundary, rest: seq<Boundary>, j: nat, current: nat, active: nat, here: nat)
    requires j <= |rest|
    ensures ([b] + rest)[..j + 1] == [b] + rest[..j]
    ensures TotalLiquidity(([b] + rest)[..j + 1]) == b.liquidity + TotalLiquidity(rest[..j])
    ensures active * (current - b.sqrtPrice) + ((active + b.liquidity) * (b.sqrtPrice - here) + Joining(rest[..j], here))
         == active * (current - here) + Joining(([b] + rest)[..j + 1], here)
  {
    hide TotalLiquidity, Joining;
    assert ([b] + rest)[..j + 1] == [b] + rest[..j];
    SumsCons(b, rest[..j], here);
    ByParts(active, b.liquidity, current, b.sqrtPrice, here);
  }

  /** A quote's path has one segment per iteration, entered at its price and liquidity. */
  lemma {:induction false} PathIterations(boundaries: seq<Boundary>, far: nat, current: nat, active: nat, remaining: nat)
    requires Walk(boundaries, far, current, active, remaining).Ok?
    ensures var path, its := Walk(boundaries, far, current, active, remaining).value, Iterations(boundaries, far, current, active, remaining);
      |path| == |its| && forall i | 0 <= i < |path| :: path[i].from == its[i].price && path[i].liquidity == its[i].active
    decreases |boundaries|
  {
    hide Amount1Delta, NextSqrtFromAmount1Out;
    if boundaries != [] && boundaries[0].sqrtPrice >= current {
      PathIterations(boundaries[1..], far, current, active, remaining);
    } else {
      var target := Target(boundaries, far);
      Amount1Exact(current, target, active);
      var outToTarget := Amount1Delta(current, target, active, false);
      if remaining > outToTarget && boundaries != [] {
        PathIterations(boundaries[1..], far, target, active + boundaries[0].liquidity, remaining - outToTarget);
      }
    }
  }

  lemma SumsCons(b: Boundary, rest: seq<Boundary>, far: nat)
    ensures Joining([b] + rest, far) == b.liquidity * (b.sqrtPrice - far) + Joining(rest, far)
    ensures TotalLiquidity([b] + rest) == b.liquidity + TotalLiquidity(rest)
  {
    assert ([b] + rest)[1..] == rest;
  }

  lemma SumsOfNone()
    ensures forall here: nat :: Joining([], here) == 0
    ensures TotalLiquidity([]) == 0
  {}

  lemma ByParts(active: int, liquidity: int, current: int, start: int, here: int)
    ensures active * (current - start) + (active + liquidity) * (start - here)
         == active * (current - here) + liquidity * (start - here)
  {}

  // ----- monotonicity -----

  lemma SegmentInputIs(s: Segment)
    requires 0 < s.to <= s.from
    ensures 0 < s.to * s.from
    ensures SegmentInput(s) == CeilDiv(s.liquidity * Q96 * (s.from - s.to), s.to * s.from) >= 0
  {
    hide Amount0Delta, CeilDiv;
    Amount0Exact(s.to, s.from, s.liquidity);
    MulMonotone(0, s.liquidity * Q96, s.from - s.to);
    CeilAtMost(s.liquidity * Q96 * (s.from - s.to), s.to * s.from, -1);
  }

  /** Walking further at the same liquidity never costs less. */
  lemma SegmentCostMonotone(from: nat, near: nat, deep: nat, liquidity: nat, feePips: nat)
    requires 0 < deep <= near <= from && feePips < FEE_DENOMINATOR
    ensures 0 <= SegmentCost(Segment(from, near, liquidity), feePips) <= SegmentCost(Segment(from, deep, liquidity), feePips)
  {
    hide SegmentInput, FeeOn, CeilDiv;
    var s, t := Segment(from, near, liquidity), Segment(from, deep, liquidity);
    SegmentInputIs(s);
    SegmentInputIs(t);
    var k, q := liquidity * Q96, SegmentInput(t);
    CeilAtMost(k * (from - deep), deep * from, q);
    MulMonotone(from - near, from - deep, k);
    MulMonotone(deep, near, from);
    MulMonotone(deep * from, near * from, q);
    CeilAtMost(k * (from - near), near * from, q);
    FeeMonotone(SegmentInput(s), q, feePips);
  }

  lemma PathCostCons(s: Segment, path: seq<Segment>, feePips: nat)
    requires feePips != FEE_DENOMINATOR
    ensures PathCost([s] + path, feePips) == SegmentCost(s, feePips) + PathCost(path, feePips)
    ensures PathCost([s], feePips) == SegmentCost(s, feePips)
  {
    assert ([s] + path)[1..] == path;
  }

  lemma {:induction false} PathCostNonNegative(path: seq<Segment>, feePips: nat)
    requires feePips < FEE_DENOMINATOR
    requires forall s | s in path :: 0 < s.to <= s.from
    ensures 0 <= PathCost(path, feePips)
  {
    if path != [] {
      hide SegmentCost;
      SegmentCostMonotone(path[0].from, path[0].to, path[0].to, path[0].liquidity, feePips);
      PathCostNonNegative(path[1..], feePips);
    }
  }

  /** A larger amount never costs less and never ends at a higher price, wherever the two walks stop. */
  lemma {:induction false} WalkMonotone(boundaries: seq<Boundary>, far: nat, current: nat, active: nat,
                                        small: nat, large: nat, feePips: nat)
    requires 0 < far <= current && AtOrAbove(boundaries, far) && feePips < FEE_DENOMINATOR
    requires small <= large
    requires Walk(boundaries, far, current, active, small).Ok? && Walk(boundaries, far, current, active, large).Ok?
    ensures var p, q := Walk(boundaries, far, current, active, small).value, Walk(boundaries, far, current, active, large).value;
      p != [] && q != [] && EndOf(q) <= EndOf(p) && PathCost(p, feePips) <= PathCost(q, feePips)
    decreases |boundaries|
  {
    hide Amount1Delta, NextSqrtFromAmount1Out, SegmentCost, PathCost;
    var p, q := Walk(boundaries, far, current, active, small).value, Walk(boundaries, far, current, active, large).value;
    WalkDescends(boundaries, far, current, active, small);
    WalkDescends(boundaries, far, current, active, large);
    if boundaries != [] && boundaries[0].sqrtPrice >= current {
      WalkMonotone(boundaries[1..], far, current, active, small, large, feePips);
    } else {
      var target := Target(boundaries, far);
      Amount1Exact(current, target, active);
      var out := Amount1Delta(current, target, active, false);
      if small <= out {
        FirstStop(boundaries, far, current, active, small, large, feePips);
      } else {
        var next := active + boundaries[0].liquidity;
        WalkMonotone(boundaries[1..], far, target, next, small - out, large - out, feePips);
        PathCostCons(p[0], Walk(boundaries[1..], far, target, next, small - out).value, feePips);
        PathCostCons(q[0], Walk(boundaries[1..], far, target, next, large - out).value, feePips);
      }
    }
  }

  /** The smaller walk stops in the first segment; the larger stops no earlier. */
  lemma FirstStop(boundaries: seq<Boundary>, far: nat, current: nat, active: nat, small: nat, large: nat, feePips: nat)
    requires 0 < far <= current && AtOrAbove(boundaries, far) && feePips < FEE_DENOMINATOR && small <= large
    requires boundaries != [] ==> boundaries[0].sqrtPrice < current
    requires small <= Amount1Delta(current, Target(boundaries, far), active, false)
    requires Walk(boundaries, far, current, active, small).Ok? && Walk(boundaries, far, current, active, large).Ok?
    ensures var p, q := Walk(boundaries, far, current, active, small).value, Walk(boundaries, far, current, active, large).value;
      p != [] && q != [] && EndOf(q) <= EndOf(p) && PathCost(p, feePips) <= PathCost(q, feePips)
  {
    hide Amount1Delta, NextSqrtFromAmount1Out, SegmentCost, PathCost;
    var p, q := Walk(boundaries, far, current, active, small).value, Walk(boundaries, far, current, active, large).value;
    WalkDescends(boundaries, far, current, active, large);
    var target := Target(boundaries, far);
    Amount1Exact(current, target, active);
    StopOrder(current, target, active, small, large);
    assert |p| == 1 && p[0].to >= q[0].to >= far;
    assert p == [Segment(current, p[0].to, active)];
    hide Walk;
    ShorterIsCheaper(q, current, p[0].to, active, far, feePips);
  }

  /** A path that goes at least to the end of a first segment ends no higher and costs no less. */
  lemma ShorterIsCheaper(q: seq<Segment>, current: nat, near: nat, active: nat, far: nat, feePips: nat)
    requires 0 < far && Descends(q, current, far) && q[0].liquidity == active && q[0].to <= near <= current
    requires feePips < FEE_DENOMINATOR
    ensures EndOf(q) <= near && PathCost([Segment(current, near, active)], feePips) <= PathCost(q, feePips)
  {
    hide SegmentCost, PathCost;
    EndBelowFirst(q, current, far, |q| - 1);
    SegmentCostMonotone(current, near, q[0].to, active, feePips);
    assert forall i | 0 <= i < |q[1..]| :: q[1..][i] == q[i + 1];
    PathCostNonNegative(q[1..], feePips);
    assert q == [q[0]] + q[1..];
    PathCostCons(Segment(current, near, active), [], feePips);
    PathCostCons(q[0], q[1..], feePips);
  }

  lemma StopOrder(current: nat, target: nat, active: nat, small: nat, large: nat)
    requires 0 < target <= current && 0 < active && small <= large
    requires small <= active * (current - target) / Q96
    ensures var p, q := NextSqrtFromAmount1Out(current, active, small), NextSqrtFromAmount1Out(current, active, large);
      p.Some? && target <= p.value <= current && (q.Some? ==> q.value <= p.value)
  {
    hide NextSqrtFromAmount1Out;
    StopInside(current, target, active, small);
    var q := NextSqrtFromAmount1Out(current, active, large);
    if q.Some? {
      NextSqrtIsHighest(current, active, large, 0);
      NextSqrtIsHighest(current, active, large, q.value);
      NextSqrtIsHighest(current, active, small, q.value);
    }
  }

  lemma {:induction false} EndBelowFirst(path: seq<Segment>, current: nat, far: nat, i: nat)
    requires Descends(path, current, far) && i < |path|
    ensures path[i].to <= path[0].to
  {
    if i > 0 {
      EndBelowFirst(path, current, far, i - 1);
    }
  }

  // ----- rounding of the cost -----

  /** ETH a segment costs exactly, fee included, with no rounding at all. */
  ghost function ExactCost(s: Segment, feePips: nat): real
    requires 0 < s.to <= s.from && feePips < FEE_DENOMINATOR
  {
    ExactInput(s) * Gross(feePips)
  }

  ghost function ExactInput(s: Segment): real
    requires 0 < s.to <= s.from
  {
    MulStrict(0, s.to, s.from);
    (s.liquidity * Q96 * (s.from - s.to)) as real / (s.to * s.from) as real
  }

  /** Input plus fee, per unit of input. */
  ghost function Gross(feePips: nat): real
    requires feePips < FEE_DENOMINATOR
  {
    FEE_DENOMINATOR as real / (FEE_DENOMINATOR - feePips) as real
  }

  lemma CeilReal(x: int, d: int)
    requires 0 < d
    ensures x as real / d as real <= CeilDiv(x, d) as real < x as real / d as real + 1.0
  {
    hide CeilDiv;
    CeilTight(x, d);
    var q := CeilDiv(x, d);
    assert (q * d) as real == q as real * d as real;
    assert x as real <= q as real * d as real < x as real + d as real;
    DivideBounds(x as real, q as real, d as real);
  }

  lemma DivideBounds(x: real, q: real, d: real)
    requires 0.0 < d && x <= q * d < x + d
    ensures x / d <= q < x / d + 1.0
  {
    var y := x / d;
    assert y * d == x;
    if q < y {
      RealStrict(q, y, d);
    }
    assert (y + 1.0) * d == x + d;
    if y + 1.0 <= q {
      RealScale(d, y + 1.0, q);
    }
  }

  /** Both roundings together exceed the exact cost by less than one wei plus one wei of grossed-up input. */
  lemma SegmentRounding(s: Segment, feePips: nat)
    requires 0 < s.to <= s.from && feePips < FEE_DENOMINATOR
    ensures ExactCost(s, feePips) <= SegmentCost(s, feePips) as real
          < ExactCost(s, feePips) + 1.0 + Gross(feePips)
  {
    hide SegmentInput, FeeOn, CeilDiv, MulDivRoundingUp, ExactInput, Gross;
    var input := SegmentInput(s);
    SegmentInputIs(s);
    InputRounding(s);
    FeeRounding(input, feePips);
    GrossAtLeastOne(feePips);
    var x, g := ExactInput(s), Gross(feePips);
    var w := input as real * g;
    assert w <= SegmentCost(s, feePips) as real < w + 1.0;
    GrossUp(x, input as real, g, w);
  }

  lemma InputRounding(s: Segment)
    requires 0 < s.to <= s.from
    ensures ExactInput(s) <= SegmentInput(s) as real < ExactInput(s) + 1.0
  {
    hide SegmentInput, CeilDiv;
    SegmentInputIs(s);
    CeilReal(s.liquidity * Q96 * (s.from - s.to), s.to * s.from);
  }

  lemma FeeRounding(input: nat, feePips: nat)
    requires feePips < FEE_DENOMINATOR
    ensures input as real * Gross(feePips) <= (input + FeeOn(input, feePips)) as real
          < input as real * Gross(feePips) + 1.0
  {
    hide CeilDiv, DivRoundingUp;
    var rest := FEE_DENOMINATOR - feePips;
    MulDivRoundingUpIsCeil(input, feePips, rest);
    CeilReal(input * feePips, rest);
    GrossIs(input, feePips);
  }

  lemma GrossIs(input: nat, feePips: nat)
    requires feePips < FEE_DENOMINATOR
    ensures var rest := FEE_DENOMINATOR - feePips;
      input as real * Gross(feePips) == input as real + (input * feePips) as real / rest as real
  {
    var n, f, d := input as real, feePips as real, FEE_DENOMINATOR as real;
    var r := d - f;
    assert (input * feePips) as real == n * f;
    assert Gross(feePips) == 1.0 + f / r;
    assert n * (f / r) == n * f / r;
  }

  lemma GrossAtLeastOne(feePips: nat)
    requires feePips < FEE_DENOMINATOR
    ensures 1.0 <= Gross(feePips)
  {
    var r := (FEE_DENOMINATOR - feePips) as real;
    assert FEE_DENOMINATOR as real >= r > 0.0;
  }

  lemma GrossUp(x: real, y: real, g: real, w: real)
    requires x <= y < x + 1.0 && 1.0 <= g && w == y * g
    ensures x * g <= w < x * g + g
  {
    RealScale(g, x, y);
    var z := x + 1.0;
    RealStrict(y, z, g);
    assert w < z * g;
    assert z * g == x * g + g;
  }

  ghost function PathExactCost(path: seq<Segment>, feePips: nat): real
    requires feePips < FEE_DENOMINATOR && forall s | s in path :: 0 < s.to <= s.from
  {
    if path == [] then 0.0 else ExactCost(path[0], feePips) + PathExactCost(path[1..], feePips)
  }

  /** A quote never undercharges the exact cost of its path, and overcharges a bounded amount per segment. */
  lemma {:induction false} PathRounding(path: seq<Segment>, feePips: nat)
    requires feePips < FEE_DENOMINATOR && forall s | s in path :: 0 < s.to <= s.from
    ensures PathExactCost(path, feePips) <= PathCost(path, feePips) as real
         <= PathExactCost(path, feePips) + |path| as real * (1.0 + Gross(feePips))
    ensures path != [] ==>
              PathCost(path, feePips) as real < PathExactCost(path, feePips) + |path| as real * (1.0 + Gross(feePips))
  {
    hide SegmentCost, ExactCost, Gross;
    if path != [] {
      SegmentRounding(path[0], feePips);
      PathRounding(path[1..], feePips);
      var n, c := (|path| - 1) as real, 1.0 + Gross(feePips);
      assert (n + 1.0) * c == n * c + c;
    }
  }
}
