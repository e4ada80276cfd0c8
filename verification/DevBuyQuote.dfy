/**
 The pre-launch dev-buy quote (src/protocol/protocol-math.ts:483-582) on the nested curve: what it
 returns, when it throws, and how quotes for different shares compare.
 */
module DevBuyQuote {
  import opened Arithmetic
  import opened SwapMath
  import opened CurveWalk
  import opened TickTable
  import opened TickMath
  import opened BondingCurve

  datatype Quote = Quote(tokensOut: nat, ethCost: int, endLevel: int, endSqrtPrice: nat)

  /** Tokens a share of the total supply stands for. */
  function TokensOut(totalSupply: nat, shareWad: nat): (t: nat) {
    FloorAtLeast(totalSupply * shareWad, WAD, 0);
    totalSupply * shareWad / WAD
  }

  /** The tokens are the share of the supply in units of 10^18, rounded down; the full share is the whole supply. */
  lemma TokensOutIs(totalSupply: nat, shareWad: nat)
    ensures var t := TokensOut(totalSupply, shareWad);
      t * 1_000_000_000_000_000_000 <= totalSupply * shareWad < (t + 1) * 1_000_000_000_000_000_000
    ensures shareWad == 1_000_000_000_000_000_000 ==> TokensOut(totalSupply, shareWad) == totalSupply
  {
    var x := totalSupply * shareWad;
    FloorIs(x, WAD, x / WAD);
    FloorIs(totalSupply * WAD, WAD, totalSupply);
  }

  /** A level and price that belong together: the price has fallen to the level's, and not yet past it. */
  ghost predicate OnLevel(level: int, sqrtPrice: int) {
    && ValidLevel(level) && SqrtAtLevel(level) <= sqrtPrice
    && (ValidLevel(level - 1) ==> sqrtPrice < SqrtAtLevel(level - 1))
  }

  lemma LevelOfIsOn(price: int)
    requires MIN_SQRT_PRICE <= price
    ensures OnLevel(LevelOf(price), price)
  {
    hide SqrtAtLevel, LevelOf;
    LevelOfValid(price);
    LevelGalois(price, LevelOf(price));
    if ValidLevel(LevelOf(price) - 1) {
      LevelGalois(price, LevelOf(price) - 1);
    }
  }

  /** What every quote carries: the tokens asked for and an end level that belongs to its end price. */
  lemma QuoteCarries(c: Curve, tokensOut: nat, feePips: nat)
    ensures QuoteFor(c, tokensOut, feePips).Ok? ==>
              var q := QuoteFor(c, tokensOut, feePips).value;
              q.tokensOut == tokensOut && OnLevel(q.endLevel, q.endSqrtPrice) && (tokensOut == 0 ==> q.ethCost == 0 && q.endLevel == c.opening)
  {
    hide SqrtAtLevel, LevelOf, CurvePath, PathCost, PositionLiquidity;
    if tokensOut == 0 {
      if ValidLevel(c.opening) && ValidLevel(c.opening - 1) {
        LevelsFall(c.opening - 1, c.opening);
      }
    } else if QuoteFor(c, tokensOut, feePips).Ok? {
      LevelOfIsOn(QuoteFor(c, tokensOut, feePips).value.endSqrtPrice);
    }
  }

  function CurvePath(c: Curve, tokensOut: nat): Result<seq<Segment>>
    requires ValidCurve(c)
  {
    Walk(Boundaries(c, 1), SqrtAtLevel(c.far), SqrtAtLevel(c.opening), PositionLiquidity(c, 0), tokensOut)
  }

  /** The loop's iterations on a curve, however it ends. */
  function CurveIterations(c: Curve, tokensOut: nat): seq<Iteration>
    requires ValidCurve(c)
  {
    Iterations(Boundaries(c, 1), SqrtAtLevel(c.far), SqrtAtLevel(c.opening), PositionLiquidity(c, 0), tokensOut)
  }

  /** Reference: the guards in order, then the cost and end of the walked path. */
  ghost function QuoteFor(c: Curve, tokensOut: nat, feePips: nat): Result<Quote> {
    if !ValidLevel(c.opening) then Err(TickOutOfRange)
    else if tokensOut == 0 then Ok(Quote(0, 0, c.opening, SqrtAtLevel(c.opening)))
    else if !ValidLevel(c.far) then Err(TickOutOfRange)
    else if c.positions == 0 then Err(DivisionByZero)
    else if PositionLiquidity(c, 0) == 0 then Err(FirstPositionEmpty)
    else if feePips == FEE_DENOMINATOR then Err(DivisionByZero)
    else QuoteOfPath(CurvePath(c, tokensOut), tokensOut, feePips)
  }

  ghost function QuoteOfPath(walked: Result<seq<Segment>>, tokensOut: nat, feePips: nat): Result<Quote>
    requires feePips != FEE_DENOMINATOR
  {
    match walked
    case Err(e) => Err(e)
    case Ok(path) =>
      if path == [] || !(MIN_SQRT_PRICE <= EndOf(path) < MAX_SQRT_PRICE) then Err(PriceOutOfRange)
      else Ok(Quote(tokensOut, PathCost(path, feePips), LevelOf(EndOf(path)), EndOf(path)))
  }

  method CollectBoundaries(c: Curve) returns (boundaries: seq<Boundary>)
    requires ValidCurve(c)
    ensures boundaries == Boundaries(c, 1)
  {
    hide PositionStart, SqrtAtLevel, PositionLiquidity;
    boundaries := [];
    var i := 1;
    while i < c.positions
      invariant 1 <= i
      invariant boundaries + Boundaries(c, i) == Boundaries(c, 1)
    {
      var start := PositionStart(c, i);
      StartRange(c, i);
      if start >= c.far {
        break;
      }
      boundaries := boundaries + [Boundary(SqrtAtLevel(start), PositionLiquidity(c, i))];
      i := i + 1;
    }
  }

  /** Puts already walked segments in front of the rest of a walk. */
  ghost function Continue(walked: seq<Segment>, rest: Result<seq<Segment>>): Result<seq<Segment>> {
    match rest
    case Err(e) => Err(e)
    case Ok(path) => Ok(walked + path)
  }

  /** The loop of the quote: one segment per iteration, cost and active liquidity accumulated; `trace` records every iteration. */
  method WalkDown(boundaries: seq<Boundary>, farSqrt: nat, startSqrt: nat, firstLiquidity: nat, tokensOut: nat, feePips: nat)
    returns (r: Result<Quote>, ghost trace: seq<Iteration>)
    requires feePips != FEE_DENOMINATOR
    ensures trace == Iterations(boundaries, farSqrt, startSqrt, firstLiquidity, tokensOut)
    ensures r == QuoteOfPath(Walk(boundaries, farSqrt, startSqrt, firstLiquidity, tokensOut), tokensOut, feePips)
  {
    hide SegmentCost, PathCost, Amount1Delta, NextSqrtFromAmount1Out, LevelOf, QuoteOfPath, Walk, Iterations, Continue;
    QuoteOfError(tokensOut, feePips);
    PathCostNone(feePips);
    var currentSqrt: nat, remaining: nat, ethCost: int, boundaryIndex: nat := startSqrt, tokensOut, 0, 0;
    var activeLiquidity: nat := firstLiquidity;
    ghost var walked: seq<Segment> := [];
    ghost var whole := Walk(boundaries, farSqrt, startSqrt, firstLiquidity, tokensOut);
    assert boundaries[0..] == boundaries;
    ContinueNone(whole);
    trace := [];
    ghost var all := Iterations(boundaries, farSqrt, startSqrt, firstLiquidity, tokensOut);
    assert trace + all == all;
    while true
      invariant 0 <= boundaryIndex <= |boundaries|
      invariant ethCost == PathCost(walked, feePips)
      invariant whole == Continue(walked, Walk(boundaries[boundaryIndex..], farSqrt, currentSqrt, activeLiquidity, remaining))
      invariant all == trace + Iterations(boundaries[boundaryIndex..], farSqrt, currentSqrt, activeLiquidity, remaining)
      decreases |boundaries| - boundaryIndex
    {
      while boundaryIndex < |boundaries| && boundaries[boundaryIndex].sqrtPrice >= currentSqrt
        invariant 0 <= boundaryIndex <= |boundaries|
        invariant whole == Continue(walked, Walk(boundaries[boundaryIndex..], farSqrt, currentSqrt, activeLiquidity, remaining))
        invariant all == trace + Iterations(boundaries[boundaryIndex..], farSqrt, currentSqrt, activeLiquidity, remaining)
        decreases |boundaries| - boundaryIndex
      {
        SkipTurn(boundaries, boundaryIndex, farSqrt, currentSqrt, activeLiquidity, remaining);
        boundaryIndex := boundaryIndex + 1;
      }
      var targetIsBoundary := boundaryIndex < |boundaries|;
      var targetSqrt: nat := if targetIsBoundary then boundaries[boundaryIndex].sqrtPrice else farSqrt;
      ghost var later := Turn(boundaries, boundaryIndex, farSqrt, currentSqrt, activeLiquidity, remaining, walked);
      assert all == trace + [Iteration(currentSqrt, activeLiquidity)] + later;
      trace := trace + [Iteration(currentSqrt, activeLiquidity)];
      assert later == [] ==> all == trace;
      if activeLiquidity == 0 {
        return Err(LiquidityExhausted), trace;
      }
      var outToTarget := Amount1Delta(currentSqrt, targetSqrt, activeLiquidity, false);
      if remaining < outToTarget {
        var end := NextSqrtFromAmount1Out(currentSqrt, activeLiquidity, remaining);
        if end.None? {
          return Err(NotEnoughLiquidity), trace;
        }
        var s := Segment(currentSqrt, end.value, activeLiquidity);
        ethCost := ethCost + SegmentCost(s, feePips);
        PathCostSnoc(walked, s, feePips);
        r := Finish(walked + [s], tokensOut, ethCost, end.value, feePips);
        return;
      }
      remaining := remaining - outToTarget;
      var s := Segment(currentSqrt, targetSqrt, activeLiquidity);
      ethCost := ethCost + SegmentCost(s, feePips);
      PathCostSnoc(walked, s, feePips);
      currentSqrt := targetSqrt;
      if remaining == 0 {
        r := Finish(walked + [s], tokensOut, ethCost, currentSqrt, feePips);
        return;
      }
      if !targetIsBoundary {
        return Err(ExceedsCurveSupply), trace;
      }
      walked := walked + [s];
      activeLiquidity := activeLiquidity + boundaries[boundaryIndex].liquidity;
      boundaryIndex := boundaryIndex + 1;
    }
  }

  lemma SkipTurn(boundaries: seq<Boundary>, index: nat, far: nat, current: nat, active: nat, remaining: nat)
    requires index < |boundaries| && boundaries[index].sqrtPrice >= current
    ensures Walk(boundaries[index..], far, current, active, remaining) == Walk(boundaries[index + 1..], far, current, active, remaining)
    ensures Iterations(boundaries[index..], far, current, active, remaining)
         == Iterations(boundaries[index + 1..], far, current, active, remaining)
  {
    hide Amount1Delta, NextSqrtFromAmount1Out;
    assert boundaries[index..][1..] == boundaries[index + 1..];
  }

  /** One iteration after the skipping: where it ends, or what it goes on with. */
  lemma Turn(boundaries: seq<Boundary>, index: nat, far: nat, current: nat, active: nat, remaining: nat, walked: seq<Segment>)
      returns (later: seq<Iteration>)
    requires index <= |boundaries| && (index < |boundaries| ==> boundaries[index].sqrtPrice < current)
    ensures Iterations(boundaries[index..], far, current, active, remaining) == [Iteration(current, active)] + later
    ensures var target := if index < |boundaries| then boundaries[index].sqrtPrice else far;
      var out := Amount1Delta(current, target, active, false);
      var s := Segment(current, target, active);
      var whole := Continue(walked, Walk(boundaries[index..], far, current, active, remaining));
      && 0 <= out
      && (active == 0 ==> whole == Err(LiquidityExhausted) && later == [])
      && (0 < active && remaining < out ==>
            && later == []
            && match NextSqrtFromAmount1Out(current, active, remaining)
               case None => whole == Err(NotEnoughLiquidity)
               case Some(end) => 0 <= end && whole == Ok(walked + [Segment(current, end, active)]))
      && (0 < active && remaining == out ==> whole == Ok(walked + [s]) && later == [])
      && (0 < active && out < remaining && index == |boundaries| ==> whole == Err(ExceedsCurveSupply) && later == [])
      && (0 < active && out < remaining && index < |boundaries| ==>
            && whole == Continue(walked + [s], Walk(boundaries[index + 1..], far, target, active + boundaries[index].liquidity, remaining - out))
            && later == Iterations(boundaries[index + 1..], far, target, active + boundaries[index].liquidity, remaining - out))
  {
    hide Amount1Delta, NextSqrtFromAmount1Out;
    var bs := boundaries[index..];
    var target := Target(bs, far);
    Amount1Exact(current, target, active);
    EndSqrtNatural(current, active, remaining);
    later := LaterIterations(bs, far, current, active, remaining);
    if index < |boundaries| {
      assert bs[1..] == boundaries[index + 1..];
      var out := Amount1Delta(current, target, active, false);
      if 0 < active && out < remaining {
        ContinueSnoc(walked, Segment(current, target, active),
                     Walk(boundaries[index + 1..], far, target, active + boundaries[index].liquidity, remaining - out));
      }
    }
  }

  /** The whole quote: guards, boundaries, then the walk. */
  method Quoted(c: Curve, totalSupply: nat, shareWad: nat, feePips: nat) returns (r: Result<Quote>)
    ensures r == QuoteFor(c, TokensOut(totalSupply, shareWad), feePips)
    ensures r.Ok? ==>
              && r.value.tokensOut * 1_000_000_000_000_000_000 <= totalSupply * shareWad
              && totalSupply * shareWad < (r.value.tokensOut + 1) * 1_000_000_000_000_000_000
              && OnLevel(r.value.endLevel, r.value.endSqrtPrice)
  {
    hide SqrtAtLevel, PositionLiquidity, Boundaries, Walk, QuoteOfPath, LevelOf, OnLevel, TokensOut;
    TokensOutIs(totalSupply, shareWad);
    QuoteCarries(c, TokensOut(totalSupply, shareWad), feePips);
    var tokensOut := TokensOut(totalSupply, shareWad);
    if !ValidLevel(c.opening) {
      return Err(TickOutOfRange);
    }
    var startSqrt := SqrtAtLevel(c.opening);
    if tokensOut == 0 {
      return Ok(Quote(0, 0, c.opening, startSqrt));
    }
    if !ValidLevel(c.far) {
      return Err(TickOutOfRange);
    }
    if c.positions == 0 {
      return Err(DivisionByZero);
    }
    var boundaries := CollectBoundaries(c);
    var farSqrt := SqrtAtLevel(c.far);
    var activeLiquidity: nat := PositionLiquidity(c, 0);
    if activeLiquidity == 0 {
      return Err(FirstPositionEmpty);
    }
    if feePips == FEE_DENOMINATOR {
      return Err(DivisionByZero);
    }
    ghost var trace;
    r, trace := WalkDown(boundaries, farSqrt, startSqrt, activeLiquidity, tokensOut, feePips);
  }

  method Finish(ghost path: seq<Segment>, tokensOut: nat, ethCost: int, end: nat, ghost feePips: nat) returns (r: Result<Quote>)
    requires feePips != FEE_DENOMINATOR && path != [] && ethCost == PathCost(path, feePips) && end == EndOf(path)
    ensures r == QuoteOfPath(Ok(path), tokensOut, feePips)
  {
    hide LevelOf;
    var level := LevelAtSqrtPrice(end);
    match level
    case None => r := Err(PriceOutOfRange);
    case Some(l) => r := Ok(Quote(tokensOut, ethCost, l, end));
  }

  lemma EndSqrtNatural(current: nat, active: nat, remaining: nat)
    ensures var end := NextSqrtFromAmount1Out(current, active, remaining); end.Some? ==> end.value >= 0
  {}

  lemma {:induction false} PathCostSnoc(path: seq<Segment>, s: Segment, feePips: nat)
    requires feePips != FEE_DENOMINATOR
    ensures PathCost(path + [s], feePips) == PathCost(path, feePips) + SegmentCost(s, feePips)
  {
    hide SegmentCost;
    if path == [] {
      assert [] + [s] == [s];
      PathCostCons(s, [], feePips);
    } else {
      PathCostSnoc(path[1..], s, feePips);
      assert path + [s] == [path[0]] + (path[1..] + [s]);
      PathCostCons(path[0], path[1..] + [s], feePips);
    }
  }

  lemma ContinueSnoc(walked: seq<Segment>, s: Segment, rest: Result<seq<Segment>>)
    ensures Continue(walked, Continue([s], rest)) == Continue(walked + [s], rest)
  {
    if rest.Ok? {
      assert walked + ([s] + rest.value) == walked + [s] + rest.value;
    }
  }

  lemma ContinueNone(walked: Result<seq<Segment>>)
    ensures Continue([], walked) == walked
  {
    if walked.Ok? {
      assert [] + walked.value == walked.value;
    }
  }

  lemma QuoteOfError(tokensOut: nat, feePips: nat)
    requires feePips != FEE_DENOMINATOR
    ensures forall e: QuoteError :: QuoteOfPath(Err(e), tokensOut, feePips) == Err(e)
  {}

  lemma PathCostNone(feePips: nat)
    requires feePips != FEE_DENOMINATOR
    ensures PathCost([], feePips) == 0
  {}
}
