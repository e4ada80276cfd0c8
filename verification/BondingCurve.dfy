/**
 Geometry of the nested bonding curve (src/protocol/protocol-math.ts:178-232): positions that all
 end at the far level, start at evenly spread levels, and share the curve supply.
 */
module BondingCurve {
  import opened Arithmetic
  import opened CurveWalk
  import opened TickTable
  import opened TickMath

  const UINT128_MAX: nat := Q128 - 1

  // ----- levels: the negated ticks -----

  predicate ValidLevel(level: int) {
    ValidTick(-level)
  }

  function SqrtAtLevel(level: int): nat
    requires ValidLevel(level)
  {
    SqrtPrice(-level)
  }

  lemma LevelsFall(low: int, high: int)
    requires ValidLevel(low) && ValidLevel(high) && low < high
    ensures 0 < SqrtAtLevel(high) < SqrtAtLevel(low)
  {
    hide SqrtPrice;
    SqrtPriceIncreasing(-high, -low);
    SqrtPriceRange(-high);
  }

  /** The level of a sqrt price: the negated greatest tick. */
  ghost function LevelOf(price: int): int
    requires MIN_SQRT_PRICE <= price
  {
    -GreatestTick(price)
  }

  /** A level is at or above that of a price exactly when its own sqrt price does not exceed it. */
  lemma LevelGalois(price: int, level: int)
    requires MIN_SQRT_PRICE <= price && ValidLevel(level)
    ensures LevelOf(price) <= level <==> SqrtAtLevel(level) <= price
  {
    hide SqrtPrice, GreatestTick;
    GreatestTickGalois(price, -level);
  }

  lemma LevelOfValid(price: int)
    requires MIN_SQRT_PRICE <= price
    ensures ValidLevel(LevelOf(price))
  {}

  method LevelAtSqrtPrice(price: int) returns (r: Option<int>)
    ensures r == if MIN_SQRT_PRICE <= price < MAX_SQRT_PRICE then Some(LevelOf(price)) else None
  {
    hide SqrtPrice, GreatestTick;
    var tick := GetTickAtSqrtPrice(price);
    match tick
    case None => r := None;
    case Some(t) => r := Some(-t);
  }

  // ----- positions -----

  datatype Curve = Curve(opening: int, far: int, positions: nat, supply: nat)

  predicate ValidCurve(c: Curve) {
    ValidLevel(c.opening) && ValidLevel(c.far) && 0 < c.positions
  }

  function PositionStart(c: Curve, index: nat): int
    requires 0 < c.positions
  {
    c.opening + TruncDiv((c.far - c.opening) * index, c.positions)
  }

  function PositionAmount(c: Curve, index: nat): int
    requires 0 < c.positions
  {
    var each := c.supply / c.positions;
    if index + 1 == c.positions then c.supply - each * (c.positions - 1) else each
  }

  /** Starts lie between the two ends, so the table covers them. */
  lemma StartRange(c: Curve, index: nat)
    requires 0 < c.positions && index < c.positions
    ensures c.opening < c.far ==> c.opening <= PositionStart(c, index) < c.far
    ensures c.far <= c.opening ==> c.far <= PositionStart(c, index) <= c.opening
    ensures PositionStart(c, 0) == c.opening
  {
    hide TruncDiv;
    var span, n := c.far - c.opening, c.positions;
    TruncIsFloor(0, n);
    FloorIs(0, n, 0);
    if span >= 0 {
      SpreadUp(span, index, n);
    } else {
      SpreadDown(-span, index, n);
      assert span * index == 0 - (-span) * index;
    }
  }

  /** Position i starts i-nths of the span above the opening, rounded down. */
  lemma StartIsFloor(c: Curve, index: nat)
    requires c.opening < c.far && index < c.positions
    ensures var steps := PositionStart(c, index) - c.opening;
      steps * c.positions <= (c.far - c.opening) * index < (steps + 1) * c.positions
  {
    hide TruncDiv;
    var x := (c.far - c.opening) * index;
    MulMonotone(0, index, c.far - c.opening);
    TruncIsFloor(x, c.positions);
    FloorIs(x, c.positions, x / c.positions);
  }

  lemma SpreadUp(span: nat, index: nat, n: nat)
    requires index < n
    ensures 0 <= TruncDiv(span * index, n) <= span && (0 < span ==> TruncDiv(span * index, n) < span)
  {
    hide TruncDiv;
    TruncIsFloor(span * index, n);
    FloorAtLeast(span * index, n, 0);
    if span > 0 {
      MulStrict(index, n, span);
      FloorAtLeast(span * index, n, span);
    }
  }

  lemma SpreadDown(span: nat, index: nat, n: nat)
    requires index < n
    ensures 0 - span <= TruncDiv(0 - span * index, n) <= 0
  {
    var x := span * index;
    MulMonotone(index, n, span);
    FloorAtLeast(x, n, 0);
    FloorAtLeast(x, n, span + 1);
    assert (span + 1) * n == span * n + n;
    if x == 0 {
      FloorIs(0, n, 0);
    }
  }

  function PositionLiquidity(c: Curve, index: nat): (liquidity: nat)
    requires ValidCurve(c) && index < c.positions
  {
    var start := PositionStart(c, index);
    StartRange(c, index);
    AmountNonNegative(c, index);
    if start >= c.far then 0
    else
      LevelsFall(start, c.far);
      var denominator := SqrtAtLevel(start) - SqrtAtLevel(c.far);
      var liquidity := PositionAmount(c, index) * Q96 / denominator;
      QuotientNonNegative(PositionAmount(c, index) * Q96, denominator);
      if liquidity > UINT128_MAX then UINT128_MAX else liquidity
  }

  lemma QuotientNonNegative(x: nat, d: nat)
    requires 0 < d
    ensures 0 <= x / d
  {
    FloorAtLeast(x, d, 0);
  }

  lemma AmountNonNegative(c: Curve, index: nat)
    requires 0 < c.positions
    ensures 0 <= PositionAmount(c, index)
  {
    FloorAtLeast(c.supply, c.positions, 0);
    FloorIs(c.supply, c.positions, c.supply / c.positions);
    var each := c.supply / c.positions;
    assert each * c.positions == each * (c.positions - 1) + each;
  }

  function AmountSum(c: Curve, count: nat): int
    requires 0 < c.positions && count <= c.positions
  {
    if count == 0 then 0 else AmountSum(c, count - 1) + PositionAmount(c, count - 1)
  }

  lemma {:induction false} EqualShares(c: Curve, count: nat)
    requires 0 < c.positions && count < c.positions
    ensures AmountSum(c, count) == count * (c.supply / c.positions)
  {
    if count > 0 {
      EqualShares(c, count - 1);
      var each := c.supply / c.positions;
      assert count * each == (count - 1) * each + each;
    }
  }

  /** The shares add up to the curve supply exactly: the last position absorbs the remainder. */
  lemma AmountsSumToSupply(c: Curve)
    requires 0 < c.positions
    ensures AmountSum(c, c.positions) == c.supply
  {
    EqualShares(c, c.positions - 1);
  }

  /** Starts are pairwise distinct, in order. */
  ghost predicate DistinctStarts(c: Curve)
    requires 0 < c.positions
  {
    forall i: nat | i + 1 < c.positions :: PositionStart(c, i) < PositionStart(c, i + 1)
  }

  /** Exactly a span of at least one level per position keeps the starts apart. */
  lemma DistinctStartsIff(c: Curve)
    requires 0 < c.positions && c.opening < c.far
    ensures DistinctStarts(c) <==> c.positions <= c.far - c.opening
  {
    hide PositionStart;
    if c.positions <= c.far - c.opening {
      forall i: nat | i + 1 < c.positions ensures PositionStart(c, i) < PositionStart(c, i + 1) {
        NextStart(c, i);
      }
    }
    if DistinctStarts(c) {
      StartsSpread(c, c.positions - 1);
      StartRange(c, c.positions - 1);
    }
  }

  lemma NextStart(c: Curve, i: nat)
    requires 0 < c.positions <= c.far - c.opening
    ensures PositionStart(c, i) < PositionStart(c, i + 1)
  {
    var span, n := c.far - c.opening, c.positions;
    MulMonotone(0, span, i);
    MulMonotone(0, span, i + 1);
    TruncIsFloor(span * i, n);
    TruncIsFloor(span * (i + 1), n);
    FloorSuperadditive(span * i, span, n);
    FloorAtLeast(span, n, 1);
    assert span * (i + 1) == span * i + span;
  }

  lemma {:induction false} StartsSpread(c: Curve, i: nat)
    requires 0 < c.positions && DistinctStarts(c) && i < c.positions
    ensures c.opening + i <= PositionStart(c, i)
  {
    hide PositionStart;
    StartRange(c, 0);
    if i > 0 {
      StartsSpread(c, i - 1);
    }
  }

  // ----- boundaries of the walk -----

  /** Sqrt-price width of a position. */
  function Width(c: Curve, index: nat): int
    requires ValidCurve(c) && index < c.positions
  {
    StartRange(c, index);
    SqrtAtLevel(PositionStart(c, index)) - SqrtAtLevel(c.far)
  }

  /** Starts and liquidities of positions `index` onward, up to the first that starts at the far level. */
  function Boundaries(c: Curve, index: nat): seq<Boundary>
    requires ValidCurve(c)
    decreases c.positions - index
  {
    if index >= c.positions then []
    else
      var start := PositionStart(c, index);
      StartRange(c, index);
      if start >= c.far then []
      else [Boundary(SqrtAtLevel(start), PositionLiquidity(c, index))] + Boundaries(c, index + 1)
  }

  /** Distinct starts make a strictly falling list of all positions. */
  lemma {:induction false} BoundariesStrict(c: Curve, index: nat)
    requires ValidCurve(c) && c.positions <= c.far - c.opening && 0 < index <= c.positions
    ensures PositionStart(c, index - 1) < c.far
    ensures ValidLevel(PositionStart(c, index - 1))
    ensures Strict(Boundaries(c, index), SqrtAtLevel(c.far), SqrtAtLevel(PositionStart(c, index - 1)))
    ensures |Boundaries(c, index)| == c.positions - index
    decreases c.positions - index
  {
    hide PositionStart, SqrtAtLevel, PositionLiquidity;
    StartRange(c, index - 1);
    if index == c.positions {
      LevelsFall(PositionStart(c, index - 1), c.far);
    } else {
      StartRange(c, index);
      NextStart(c, index - 1);
      LevelsFall(PositionStart(c, index - 1), PositionStart(c, index));
      BoundariesStrict(c, index + 1);
    }
  }

  /** Any boundary list of a curve stays at or above the far price, distinct starts or not. */
  lemma {:induction false} BoundariesAbove(c: Curve, index: nat)
    requires ValidCurve(c)
    ensures AtOrAbove(Boundaries(c, index), SqrtAtLevel(c.far))
    decreases c.positions - index
  {
    hide PositionStart, SqrtAtLevel, PositionLiquidity;
    if index < c.positions {
      StartRange(c, index);
      BoundariesAbove(c, index + 1);
      if PositionStart(c, index) < c.far {
        LevelsFall(PositionStart(c, index), c.far);
      }
    }
  }

  // ----- liquidity against amounts -----

  /** Nothing is cut to 128 bits. */
  ghost predicate Unclamped(c: Curve, index: nat)
    requires ValidCurve(c) && index < c.positions
  {
    0 < Width(c, index) ==> PositionAmount(c, index) * Q96 / Width(c, index) <= UINT128_MAX
  }

  /** A position has liquidity as soon as its amount reaches its width. */
  lemma LiquidityPositive(c: Curve, index: nat)
    requires ValidCurve(c) && index < c.positions && c.opening < c.far
    requires Width(c, index) <= PositionAmount(c, index) * Q96
    ensures 0 < PositionLiquidity(c, index)
  {
    hide PositionStart, SqrtAtLevel, PositionAmount;
    StartRange(c, index);
    LevelsFall(PositionStart(c, index), c.far);
    FloorAtLeast(PositionAmount(c, index) * Q96, Width(c, index), 1);
  }

  /** A position's liquidity releases at most its amount, and falls short by less than its width unless it is cut to 128 bits. */
  lemma LiquidityTight(c: Curve, index: nat)
    requires ValidCurve(c) && index < c.positions && c.opening < c.far
    ensures 0 < Width(c, index)
    ensures PositionLiquidity(c, index) * Width(c, index) <= PositionAmount(c, index) * Q96
    ensures Unclamped(c, index) ==>
              PositionAmount(c, index) * Q96 < (PositionLiquidity(c, index) + 1) * Width(c, index)
    ensures PositionLiquidity(c, index) <= 0xffff_ffff_ffff_ffff_ffff_ffff_ffff_ffff
    ensures !Unclamped(c, index) ==> PositionLiquidity(c, index) == 0xffff_ffff_ffff_ffff_ffff_ffff_ffff_ffff
  {
    hide PositionStart, SqrtAtLevel, PositionAmount;
    StartRange(c, index);
    LevelsFall(PositionStart(c, index), c.far);
    AmountNonNegative(c, index);
    var w, x := Width(c, index), PositionAmount(c, index) * Q96;
    FloorIs(x, w, x / w);
    MulMonotone(PositionLiquidity(c, index), x / w, w);
  }
}
