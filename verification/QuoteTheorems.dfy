/**
 What every dev-buy quote satisfies: it never promises more than the curve holds, it exists exactly
 within the curve's capacity, it ends between the opening and far levels, it is monotone in the
 share, and its cost is the exact cost of its path up to a bounded rounding.
 */
module QuoteTheorems {
  import opened Arithmetic
  import opened SwapMath
  import opened CurveWalk
  import opened TickTable
  import opened TickMath
  import opened BondingCurve
  import opened LiveStarts
  import opened DevBuyQuote

  // ----- the reserve of a curve -----

  /** Token units lost to rounding liquidities down: one per started 2^96 of each width. */
  function WidthTokens(c: Curve, index: nat): int
    requires ValidCurve(c) && index <= c.positions
    decreases c.positions - index
  {
    if index == c.positions then 0 else CeilDiv(Width(c, index), Q96) + WidthTokens(c, index + 1)
  }

  /** The boundaries of the walk at which liquidity joins. */
  function LiveBoundaries(c: Curve): seq<Boundary>
    requires ValidCurve(c)
  {
    Live(Boundaries(c, 1), SqrtAtLevel(c.opening))
  }

  ghost function CurveReserve(c: Curve): int
    requires ValidCurve(c)
  {
    Reserve(LiveBoundaries(c), SqrtAtLevel(c.far), SqrtAtLevel(c.opening), PositionLiquidity(c, 0))
  }

  /** What the walk can release is what the joining positions hold, short of it by less than the widths. */
  lemma ReserveIsJoined(c: Curve)
    requires ValidCurve(c) && c.opening < c.far
    ensures CurveReserve(c) <= JoinedSupply(c) * Q96
    ensures NothingClamped(c) ==> JoinedSupply(c) * Q96 <= CurveReserve(c) + WidthSum(c, 0)
  {
    hide PositionStart, SqrtAtLevel, PositionLiquidity, PositionAmount, Live, Boundaries, Joining, Width, Unclamped;
    var e, n := c.supply / c.positions, c.positions;
    JoiningAmounts(c, 1, e);
    EveryPositionJoinsIff(c);
    StartRange(c, 0);
    LiquidityTight(c, 0);
    AmountIs(c, 0);
    WidthIs(c, 0);
    var m := Min(n, Span(c));
    assert (m - 1) * e == m * e - e;
    var l, w := PositionLiquidity(c, 0), Width(c, 0);
    assert (l + 1) * w == l * w + w;
  }

  lemma {:induction false} WidthSumWithin(c: Curve, index: nat)
    requires ValidCurve(c) && index <= c.positions
    ensures WidthSum(c, index) <= WidthTokens(c, index) * Q96
    decreases c.positions - index
  {
    hide Width, CeilDiv;
    if index < c.positions {
      CeilTight(Width(c, index), Q96);
      WidthSumWithin(c, index + 1);
    }
  }

  // ----- conservation -----

  /** What stands behind a quote for some tokens: a path down a curve the table covers, whose cost and end it shows. */
  ghost predicate HasPath(c: Curve, tokensOut: nat, feePips: nat, q: Quote) {
    && ValidCurve(c) && c.opening < c.far && feePips != FEE_DENOMINATOR && 0 < PositionLiquidity(c, 0)
    && CurvePath(c, tokensOut).Ok?
    && var path := CurvePath(c, tokensOut).value;
       && Descends(path, SqrtAtLevel(c.opening), SqrtAtLevel(c.far))
       && MIN_SQRT_PRICE <= EndOf(path) < MAX_SQRT_PRICE
       && q == Quote(tokensOut, PathCost(path, feePips), LevelOf(EndOf(path)), EndOf(path))
       && 0 < SqrtAtLevel(c.far) < SqrtAtLevel(c.opening)
       && AtOrAbove(Boundaries(c, 1), SqrtAtLevel(c.far))
  }

  lemma QuoteHasPath(c: Curve, tokensOut: nat, feePips: nat)
    requires 0 < tokensOut
    ensures QuoteFor(c, tokensOut, feePips).Ok? ==> HasPath(c, tokensOut, feePips, QuoteFor(c, tokensOut, feePips).value)
  {
    hide SqrtAtLevel, Walk, Boundaries, LevelOf, PathCost;
    if QuoteFor(c, tokensOut, feePips).Ok? {
      StartRange(c, 0);
      LevelsFall(c.opening, c.far);
      BoundariesAbove(c, 1);
      WalkDescends(Boundaries(c, 1), SqrtAtLevel(c.far), SqrtAtLevel(c.opening), PositionLiquidity(c, 0), tokensOut);
    }
  }

  /** A quote's path is the walk over the live boundaries. */
  lemma LivePath(c: Curve, tokensOut: nat)
    requires ValidCurve(c)
    ensures CurvePath(c, tokensOut)
         == Walk(LiveBoundaries(c), SqrtAtLevel(c.far), SqrtAtLevel(c.opening), PositionLiquidity(c, 0), tokensOut)
    ensures AtOrAbove(LiveBoundaries(c), SqrtAtLevel(c.far))
  {
    hide SqrtAtLevel, PositionLiquidity, Boundaries;
    BoundariesAbove(c, 1);
    LiveAbove(Boundaries(c, 1), SqrtAtLevel(c.far), SqrtAtLevel(c.opening));
    WalkIsLive(Boundaries(c, 1), SqrtAtLevel(c.far), SqrtAtLevel(c.opening), PositionLiquidity(c, 0), tokensOut);
  }

  /** Any quote, on any curve and share, is for at most what the joining positions hold, and so for at most the curve supply. */
  lemma QuoteWithinSupply(c: Curve, tokensOut: nat, feePips: nat)
    ensures QuoteFor(c, tokensOut, feePips).Ok? ==>
              && QuoteFor(c, tokensOut, feePips).value.tokensOut == tokensOut <= c.supply
              && (0 < tokensOut ==> 0 < c.positions && tokensOut <= JoinedSupply(c))
  {
    hide SqrtAtLevel, PositionLiquidity, Boundaries, Walk, LevelOf, Reserve, JoinedSupply, LiveBoundaries;
    if 0 < tokensOut && QuoteFor(c, tokensOut, feePips).Ok? {
      QuoteHasPath(c, tokensOut, feePips);
      LivePath(c, tokensOut);
      WalkConserves(LiveBoundaries(c), SqrtAtLevel(c.far), SqrtAtLevel(c.opening), PositionLiquidity(c, 0), tokensOut);
      ReserveIsJoined(c);
      JoinedSupplyIff(c);
      MulCancel(tokensOut, JoinedSupply(c), Q96);
    }
  }

  // ----- existence -----

  ghost function CurveCapacity(c: Curve): int
    requires ValidCurve(c)
  {
    Capacity(LiveBoundaries(c), SqrtAtLevel(c.far), SqrtAtLevel(c.opening), PositionLiquidity(c, 0))
  }

  /** On every curve the table covers, an empty first position or else capacity decides; no other error is possible. */
  lemma QuoteExistsIff(c: Curve, tokensOut: nat, feePips: nat)
    requires ValidCurve(c) && feePips != FEE_DENOMINATOR && 0 < tokensOut
    ensures if PositionLiquidity(c, 0) == 0 then QuoteFor(c, tokensOut, feePips) == Err(FirstPositionEmpty)
            else c.opening < c.far &&
                 if tokensOut <= CurveCapacity(c) then QuoteFor(c, tokensOut, feePips).Ok?
                 else QuoteFor(c, tokensOut, feePips) == Err(ExceedsCurveSupply)
  {
    hide SqrtAtLevel, Boundaries, Walk, LevelOf, Capacity, PathCost, Live;
    StartRange(c, 0);
    if 0 < PositionLiquidity(c, 0) {
      hide PositionLiquidity;
      LevelsFall(c.opening, c.far);
      BoundariesAbove(c, 1);
      var bs, far, start, active := Boundaries(c, 1), SqrtAtLevel(c.far), SqrtAtLevel(c.opening), PositionLiquidity(c, 0);
      WalkSucceedsIff(bs, far, start, active, tokensOut);
      if tokensOut <= CurveCapacity(c) {
        WalkDescends(bs, far, start, active, tokensOut);
        WalkConserves(bs, far, start, active, tokensOut);
        var path := CurvePath(c, tokensOut).value;
        EndBelowStart(path, start, far);
        PricesInRange(c);
      }
    }
  }

  lemma PricesInRange(c: Curve)
    requires ValidCurve(c)
    ensures MIN_SQRT_PRICE <= SqrtAtLevel(c.far) && SqrtAtLevel(c.opening) <= MAX_SQRT_PRICE
  {
    hide SqrtPrice;
    SqrtPriceRange(-c.far);
    SqrtPriceRange(-c.opening);
  }

  /** A path that covers some area ends strictly below its start. */
  lemma EndBelowStart(path: seq<Segment>, start: nat, far: nat)
    requires Descends(path, start, far) && 0 < Area(path)
    ensures far <= EndOf(path) < start
  {
    EndBelowFirst(path, start, far, |path| - 1);
    assert path[0..] == path;
    if EndOf(path) == start {
      FlatPath(path, start, far, 0);
    }
  }

  lemma {:induction false} FlatPath(path: seq<Segment>, start: nat, far: nat, i: nat)
    requires Descends(path, start, far) && EndOf(path) == start && i <= |path|
    ensures Area(path[i..]) == 0
    decreases |path| - i
  {
    if i < |path| {
      FlatPath(path, start, far, i + 1);
      SegmentFlat(path, start, far, i);
      assert path[i..][1..] == path[i + 1..];
    }
  }

  lemma SegmentFlat(path: seq<Segment>, start: nat, far: nat, i: nat)
    requires Descends(path, start, far) && EndOf(path) == start && i < |path|
    ensures path[i].from == path[i].to
  {
    EndsFall(path, start, far, i, |path| - 1);
    StartsFall(path, start, far, i);
  }

  lemma {:induction false} EndsFall(path: seq<Segment>, start: nat, far: nat, i: nat, j: nat)
    requires Descends(path, start, far) && i <= j < |path|
    ensures path[j].to <= path[i].to
    decreases j
  {
    if i < j {
      EndsFall(path, start, far, i, j - 1);
    }
  }

  lemma {:induction false} StartsFall(path: seq<Segment>, start: nat, far: nat, i: nat)
    requires Descends(path, start, far) && i < |path|
    ensures path[i].from <= start
  {
    if i > 0 {
      StartsFall(path, start, far, i - 1);
    }
  }

  /** Capacity is what the joining positions hold, short of it only by bounded rounding; and that is the curve supply when all join. */
  lemma CapacityNearSupply(c: Curve)
    requires ValidCurve(c) && c.opening < c.far
    ensures CurveCapacity(c) <= JoinedSupply(c) <= c.supply
    ensures NothingClamped(c) ==> JoinedSupply(c) - WidthTokens(c, 0) - Min(c.positions, Span(c)) < CurveCapacity(c)
    ensures c.positions <= Span(c) ==> JoinedSupply(c) == c.supply
  {
    hide SqrtAtLevel, PositionLiquidity, Boundaries, Capacity, Reserve, WidthSum, WidthTokens, NothingClamped, JoinedSupply, Live;
    EveryPositionJoinsIff(c);
    CapacityTight(LiveBoundaries(c), SqrtAtLevel(c.far), SqrtAtLevel(c.opening), PositionLiquidity(c, 0));
    ReserveIsJoined(c);
    WidthSumWithin(c, 0);
    JoinedSupplyIff(c);
  }

  /** Every amount within what the joining positions hold, less the rounding loss, is quoted. */
  lemma QuoteExists(c: Curve, tokensOut: nat, feePips: nat)
    requires ValidCurve(c) && c.opening < c.far && NothingClamped(c)
    requires 0 < PositionLiquidity(c, 0) && feePips != FEE_DENOMINATOR
    requires tokensOut <= JoinedSupply(c) - WidthTokens(c, 0) - Min(c.positions, Span(c))
    ensures QuoteFor(c, tokensOut, feePips).Ok?
  {
    hide SqrtAtLevel, PositionLiquidity, Boundaries, CurveCapacity, WidthTokens, NothingClamped, QuoteOfPath, JoinedSupply;
    CapacityNearSupply(c);
    if 0 < tokensOut {
      hide QuoteFor;
      QuoteExistsIff(c, tokensOut, feePips);
    }
  }

  /**
   The price of coincident starts: on a curve with fewer levels than positions, and only there, part of
   the supply can never be bought. Anything above what the joining positions hold ends in the supply guard.
   */
  lemma CrowdedCurve(c: Curve, tokensOut: nat, feePips: nat)
    requires ValidCurve(c) && 0 < PositionLiquidity(c, 0) && feePips != FEE_DENOMINATOR
    ensures c.opening < c.far && (JoinedSupply(c) < c.supply <==> Span(c) < c.positions)
    ensures JoinedSupply(c) < tokensOut ==> QuoteFor(c, tokensOut, feePips) == Err(ExceedsCurveSupply)
    ensures Span(c) == 1 < c.positions ==> JoinedSupply(c) == c.supply / c.positions
  {
    hide PositionLiquidity, CurveCapacity, QuoteFor, SqrtAtLevel;
    FirstHoldsSome(c);
    JoinedSupplyIff(c);
    CapacityNearSupply(c);
    FloorAtLeast(c.supply, c.positions, 0);
    if JoinedSupply(c) < tokensOut {
      JoinedNonNegative(c);
      QuoteExistsIff(c, tokensOut, feePips);
    }
  }

  lemma ParPrice()
    ensures SqrtAtLevel(0) == Q96
  {
    hide SqrtPrice;
    SqrtPriceEnds();
  }

  /** Two positions on one level, with a supply of one token: half of it can never be bought. */
  lemma CrowdedExample(feePips: nat)
    requires feePips != FEE_DENOMINATOR
    ensures var c := Curve(0, 1, 2, WAD);
      && ValidCurve(c) && JoinedSupply(c) == WAD / 2
      && QuoteFor(c, WAD, feePips) == Err(ExceedsCurveSupply)
  {
    hide SqrtAtLevel, QuoteFor, PositionLiquidity, PositionStart;
    var c := Curve(0, 1, 2, WAD);
    assert SqrtAtLevel(0) == Q96 by { ParPrice(); }
    WidthIs(c, 0);
    StartRange(c, 0);
    LiquidityPositive(c, 0);
    CrowdedCurve(c, WAD, feePips);
  }

  lemma FirstHoldsSome(c: Curve)
    requires ValidCurve(c) && 0 < PositionLiquidity(c, 0)
    ensures c.opening < c.far
  {
    hide SqrtAtLevel;
    StartRange(c, 0);
  }

  lemma JoinedNonNegative(c: Curve)
    requires ValidCurve(c) && c.opening < c.far
    ensures 0 <= JoinedSupply(c)
  {
    FloorAtLeast(c.supply, c.positions, 0);
    MulMonotone(0, Min(c.positions, Span(c)), c.supply / c.positions);
  }

  // ----- what every iteration keeps -----

  /**
   On every curve and share, in runs that end in a quote and in runs that end in a throw, iteration j
   stands at the j-th level reached, and the active liquidity is that of the first position and of
   every position that joins at or before that level. With at least one level per position that is the
   start of position j, every position up to j is active, and the area consumed is the sum of each
   position's own liquidity times the distance from its own start.
   */
  lemma CurveIteration(c: Curve, tokensOut: nat, j: nat)
    requires ValidCurve(c) && c.opening < c.far && j < |CurveIterations(c, tokensOut)|
    ensures var its, level := CurveIterations(c, tokensOut), LevelReached(c, 1, j);
      && j < Min(c.positions, Span(c)) && ValidLevel(level)
      && its[j].price == SqrtAtLevel(level)
      && its[j].active == PositionLiquidity(c, 0) + LevelLiquidity(c, 1, level)
      && (c.positions <= Span(c) ==>
            && level == PositionStart(c, j)
            && its[j].active == LiquiditySum(c, 0, j + 1)
            && Consumed(its[..j + 1]) == AreaSum(c, 0, j + 1, its[j].price))
  {
    hide PositionStart, SqrtAtLevel, PositionLiquidity, Live, Boundaries, Iterations, TotalLiquidity, Joining, Consumed, LiquiditySum, AreaSum;
    var bs, far, start, active := Boundaries(c, 1), SqrtAtLevel(c.far), SqrtAtLevel(c.opening), PositionLiquidity(c, 0);
    StartRange(c, 0);
    WalkAccumulates(bs, far, start, active, tokensOut, j);
    EveryPositionJoinsIff(c);
    LiveLevels(c, 1, j);
    if c.positions <= Span(c) {
      BoundariesStrict(c, 1);
      StrictIsLive(bs, far, start);
      var here := CurveIterations(c, tokensOut)[j].price;
      PrefixSums(c, 1, j, here);
      FirstTerm(c, j + 1, here);
    }
  }

  lemma FirstTerm(c: Curve, end: nat, here: int)
    requires ValidCurve(c) && c.opening < c.far && 0 < end <= c.positions
    ensures LiquiditySum(c, 0, end) == PositionLiquidity(c, 0) + LiquiditySum(c, 1, end)
    ensures AreaSum(c, 0, end, here) == PositionLiquidity(c, 0) * (SqrtAtLevel(c.opening) - here) + AreaSum(c, 1, end, here)
  {
    hide SqrtAtLevel, PositionLiquidity;
    StartRange(c, 0);
  }

  // ----- where a quote ends -----

  lemma QuoteEnds(c: Curve, tokensOut: nat, feePips: nat)
    requires 0 < tokensOut
    ensures QuoteFor(c, tokensOut, feePips).Ok? ==>
              var q := QuoteFor(c, tokensOut, feePips).value;
              && SqrtAtLevel(c.far) <= q.endSqrtPrice <= SqrtAtLevel(c.opening)
              && c.opening <= q.endLevel <= c.far
  {
    hide SqrtAtLevel, CurvePath, LevelOf, PathCost;
    if QuoteFor(c, tokensOut, feePips).Ok? {
      QuoteHasPath(c, tokensOut, feePips);
      var path := CurvePath(c, tokensOut).value;
      EndBelowFirst(path, SqrtAtLevel(c.opening), SqrtAtLevel(c.far), |path| - 1);
      LevelGalois(EndOf(path), c.far);
      LevelAtLeast(EndOf(path), c.opening);
    }
  }

  /** A price at or below a level's own price is at or above that level. */
  lemma LevelAtLeast(price: int, level: int)
    requires MIN_SQRT_PRICE <= price && ValidLevel(level) && price <= SqrtAtLevel(level)
    ensures level <= LevelOf(price)
  {
    hide SqrtAtLevel, LevelOf;
    var l := LevelOf(price);
    LevelOfValid(price);
    LevelGalois(price, l);
    if l < level {
      LevelsFall(l, level);
    }
  }

  /**
   Exactly where a quote ends: an amount that j segments of the curve cannot release but j + 1 can ends at
   the end of that segment if it takes all of it, and otherwise at the highest price that releases the rest.
   */
  lemma QuoteStops(c: Curve, tokensOut: nat, feePips: nat, j: nat, price: nat)
    requires ValidCurve(c) && 0 < PositionLiquidity(c, 0) && feePips != FEE_DENOMINATOR && j <= |LiveBoundaries(c)|
    requires Released(LiveBoundaries(c), SqrtAtLevel(c.far), SqrtAtLevel(c.opening), PositionLiquidity(c, 0), j) < tokensOut
    requires tokensOut <= Released(LiveBoundaries(c), SqrtAtLevel(c.far), SqrtAtLevel(c.opening), PositionLiquidity(c, 0), j + 1)
    ensures QuoteFor(c, tokensOut, feePips).Ok?
    ensures var live, far, start, first := LiveBoundaries(c), SqrtAtLevel(c.far), SqrtAtLevel(c.opening), PositionLiquidity(c, 0);
      var end := QuoteFor(c, tokensOut, feePips).value.endSqrtPrice;
      var from, left := PriceAt(live, far, start, j), tokensOut - Released(live, far, start, first, j);
      && (tokensOut == Released(live, far, start, first, j + 1) ==> end == PriceAt(live, far, start, j + 1))
      && (tokensOut < Released(live, far, start, first, j + 1) && price <= from ==>
            (left * Q96 <= (first + TotalLiquidity(live[..j])) * (from - price) <==> price <= end))
  {
    hide SqrtAtLevel, PositionLiquidity, Boundaries, Walk, LevelOf, Live, PathCost, Released, TotalLiquidity, Capacity;
    FirstHoldsSome(c);
    LevelsFall(c.opening, c.far);
    LivePath(c, tokensOut);
    LiveIsLive(Boundaries(c, 1), SqrtAtLevel(c.opening));
    var live, far, start, first := LiveBoundaries(c), SqrtAtLevel(c.far), SqrtAtLevel(c.opening), PositionLiquidity(c, 0);
    ReleasedNonNegative(live, far, start, first, j);
    WalkStops(live, far, start, first, tokensOut, j, price);
    QuoteExistsIff(c, tokensOut, feePips);
    LiveIsEnough(c, tokensOut);
    QuoteHasPath(c, tokensOut, feePips);
  }

  /** A walk that succeeds is within capacity. */
  lemma LiveIsEnough(c: Curve, tokensOut: nat)
    requires ValidCurve(c) && 0 < PositionLiquidity(c, 0) && CurvePath(c, tokensOut).Ok?
    ensures tokensOut <= CurveCapacity(c)
  {
    hide SqrtAtLevel, PositionLiquidity, Boundaries, Walk, Live, Capacity;
    FirstHoldsSome(c);
    LevelsFall(c.opening, c.far);
    BoundariesAbove(c, 1);
    WalkSucceedsIff(Boundaries(c, 1), SqrtAtLevel(c.far), SqrtAtLevel(c.opening), PositionLiquidity(c, 0), tokensOut);
  }

  lemma {:induction false} LiveIsLive(boundaries: seq<Boundary>, current: nat)
    ensures Live(Live(boundaries, current), current) == Live(boundaries, current)
  {
    if boundaries != [] {
      var b, rest := boundaries[0], boundaries[1..];
      if b.sqrtPrice >= current {
        LiveIsLive(rest, current);
      } else {
        LiveIsLive(rest, b.sqrtPrice);
        assert Live(boundaries, current)[1..] == Live(rest, b.sqrtPrice);
      }
    }
  }

  // ----- monotonicity -----

  /** On one curve a larger amount never costs less and never ends lower in level or higher in price. */
  lemma QuoteMonotone(c: Curve, small: nat, large: nat, feePips: nat)
    requires small <= large && feePips < FEE_DENOMINATOR
    ensures QuoteFor(c, small, feePips).Ok? && QuoteFor(c, large, feePips).Ok? ==>
              var p, q := QuoteFor(c, small, feePips).value, QuoteFor(c, large, feePips).value;
              && p.tokensOut <= q.tokensOut
              && 0 <= p.ethCost <= q.ethCost
              && q.endSqrtPrice <= p.endSqrtPrice
              && p.endLevel <= q.endLevel
  {
    hide SqrtAtLevel, PositionLiquidity, Boundaries, Walk, LevelOf, PathCost;
    if !(QuoteFor(c, small, feePips).Ok? && QuoteFor(c, large, feePips).Ok?) {
      return;
    }
    if 0 < large {
      QuoteHasPath(c, large, feePips);
      QuoteEnds(c, large, feePips);
      CostNonNegative(CurvePath(c, large).value, SqrtAtLevel(c.opening), SqrtAtLevel(c.far), feePips);
    }
    if 0 < small {
      QuoteHasPath(c, small, feePips);
      CostNonNegative(CurvePath(c, small).value, SqrtAtLevel(c.opening), SqrtAtLevel(c.far), feePips);
      WalkMonotone(Boundaries(c, 1), SqrtAtLevel(c.far), SqrtAtLevel(c.opening), PositionLiquidity(c, 0), small, large, feePips);
      LevelAntitone(EndOf(CurvePath(c, large).value), EndOf(CurvePath(c, small).value));
    }
  }

  lemma CostNonNegative(path: seq<Segment>, start: nat, far: nat, feePips: nat)
    requires 0 < far && Descends(path, start, far) && feePips < FEE_DENOMINATOR
    ensures 0 <= PathCost(path, feePips)
  {
    PathCostNonNegative(path, feePips);
  }

  lemma LevelAntitone(low: int, high: int)
    requires MIN_SQRT_PRICE <= low <= high
    ensures LevelOf(high) <= LevelOf(low)
  {
    hide LevelOf, SqrtAtLevel;
    LevelOfValid(low);
    LevelGalois(low, LevelOf(low));
    LevelGalois(high, LevelOf(low));
  }

  /** The same in terms of shares of one total supply. */
  lemma ShareMonotone(c: Curve, totalSupply: nat, smallShare: nat, largeShare: nat, feePips: nat)
    requires smallShare <= largeShare && feePips < FEE_DENOMINATOR
    ensures var small, large := QuoteFor(c, TokensOut(totalSupply, smallShare), feePips), QuoteFor(c, TokensOut(totalSupply, largeShare), feePips);
      small.Ok? && large.Ok? ==>
        && small.value.ethCost <= large.value.ethCost
        && large.value.endSqrtPrice <= small.value.endSqrtPrice && small.value.endLevel <= large.value.endLevel
  {
    hide QuoteFor;
    MulMonotone(smallShare, largeShare, totalSupply);
    FloorMonotone(totalSupply * smallShare, totalSupply * largeShare, WAD);
    QuoteMonotone(c, TokensOut(totalSupply, smallShare), TokensOut(totalSupply, largeShare), feePips);
  }

  // ----- rounding -----

  /** The quoted cost covers the exact cost of the walked prices, and exceeds it by less than a fixed amount per segment. */
  lemma QuoteRounding(c: Curve, tokensOut: nat, feePips: nat)
    requires 0 < tokensOut && feePips < FEE_DENOMINATOR
    ensures QuoteFor(c, tokensOut, feePips).Ok? ==>
              && ValidCurve(c) && CurvePath(c, tokensOut).Ok?
              && (forall s | s in CurvePath(c, tokensOut).value :: 0 < s.to <= s.from)
              && var path, q := CurvePath(c, tokensOut).value, QuoteFor(c, tokensOut, feePips).value;
                 && PathExactCost(path, feePips) <= q.ethCost as real
                 && q.ethCost as real < PathExactCost(path, feePips) + |path| as real * (1.0 + Gross(feePips))
                 && tokensOut * Q96 <= Area(path)
  {
    hide SqrtAtLevel, PositionLiquidity, Boundaries, Walk, LevelOf, PathCost, PathExactCost, Gross;
    if QuoteFor(c, tokensOut, feePips).Ok? {
      QuoteHasPath(c, tokensOut, feePips);
      PathRounding(CurvePath(c, tokensOut).value, feePips);
      WalkConserves(Boundaries(c, 1), SqrtAtLevel(c.far), SqrtAtLevel(c.opening), PositionLiquidity(c, 0), tokensOut);
    }
  }
}
