/**
 The two conversions of src/protocol/tick-math.ts: the sqrt price at a tick, and the tick at a
 sqrt price. The second is proved to be the greatest tick whose price does not exceed its input,
 for every price in range.
 */
module TickMath {
  import opened Arithmetic
  import opened BinaryLog
  import opened TickTable
  import opened TickLog

  // ----- price at a tick -----

  /** One table line: `bits` is the tick magnitude shifted so that bit k comes first. */
  function StepAt(price: nat, bits: nat, k: nat): nat
    requires k < 20
  {
    if bits % 2 == 1 then Scale(price, k) else price
  }

  lemma Line(price: nat, bits: nat, k: nat)
    requires k < 20
    ensures Fold(price, bits, k) == Fold(StepAt(price, bits, k), bits / 2, k + 1)
  {
    hide Scale, Fold;
    FoldUnfold(price, bits, k);
  }

  method LowLines(absTick: nat) returns (price: nat)
    ensures Fold(price, absTick / 0x80, 7) == Ratio(absTick)
  {
    hide Ratio, Fold, Factor, StepAt;
    price := if absTick % 2 == 1 then Factor(0) else Q128;
    FirstLine(absTick);
    Line(price, absTick / 0x2, 1);
    price := StepAt(price, absTick / 0x2, 1);
    Line(price, absTick / 0x4, 2);
    price := StepAt(price, absTick / 0x4, 2);
    Line(price, absTick / 0x8, 3);
    price := StepAt(price, absTick / 0x8, 3);
    Line(price, absTick / 0x10, 4);
    price := StepAt(price, absTick / 0x10, 4);
    Line(price, absTick / 0x20, 5);
    price := StepAt(price, absTick / 0x20, 5);
    Line(price, absTick / 0x40, 6);
    price := StepAt(price, absTick / 0x40, 6);
  }

  method MiddleLines(absTick: nat, low: nat) returns (price: nat)
    ensures Fold(price, absTick / 0x4000, 14) == Fold(low, absTick / 0x80, 7)
  {
    hide Fold, StepAt;
    price := low;
    Line(price, absTick / 0x80, 7);
    price := StepAt(price, absTick / 0x80, 7);
    Line(price, absTick / 0x100, 8);
    price := StepAt(price, absTick / 0x100, 8);
    Line(price, absTick / 0x200, 9);
    price := StepAt(price, absTick / 0x200, 9);
    Line(price, absTick / 0x400, 10);
    price := StepAt(price, absTick / 0x400, 10);
    Line(price, absTick / 0x800, 11);
    price := StepAt(price, absTick / 0x800, 11);
    Line(price, absTick / 0x1000, 12);
    price := StepAt(price, absTick / 0x1000, 12);
    Line(price, absTick / 0x2000, 13);
    price := StepAt(price, absTick / 0x2000, 13);
  }

  method HighLines(absTick: nat, middle: nat) returns (price: nat)
    ensures price == Fold(middle, absTick / 0x4000, 14)
  {
    hide Fold, StepAt;
    price := middle;
    Line(price, absTick / 0x4000, 14);
    price := StepAt(price, absTick / 0x4000, 14);
    Line(price, absTick / 0x8000, 15);
    price := StepAt(price, absTick / 0x8000, 15);
    Line(price, absTick / 0x10000, 16);
    price := StepAt(price, absTick / 0x10000, 16);
    Line(price, absTick / 0x20000, 17);
    price := StepAt(price, absTick / 0x20000, 17);
    Line(price, absTick / 0x40000, 18);
    price := StepAt(price, absTick / 0x40000, 18);
    Line(price, absTick / 0x80000, 19);
    price := StepAt(price, absTick / 0x80000, 19);
    FoldUnfold(price, absTick / 0x100000, 20);
  }

  /** Exactly the valid ticks have a price; the twenty table lines compute it. */
  method GetSqrtPriceAtTick(tick: int) returns (r: Option<nat>)
    ensures r == if ValidTick(tick) then Some(SqrtPrice(tick)) else None
  {
    hide Ratio, Fold;
    var absTick: nat := Abs(tick);
    if absTick > MAX_TICK {
      return None;
    }
    var price := LowLines(absTick);
    price := MiddleLines(absTick, price);
    price := HighLines(absTick, price);
    RatioRange(absTick);
    if tick > 0 {
      price := MAX_UINT256 / price;
    }
    r := Some((price + (Q32 - 1)) / Q32);
  }

  lemma FirstLine(magnitude: nat)
    ensures Ratio(magnitude) == Fold(if magnitude % 2 == 1 then Factor(0) else Q128, magnitude / 2, 1)
  {
    hide Fold, Factor;
    FoldUnfold(Q128, magnitude, 0);
    FloorIs(Q128 * Factor(0), Q128, Factor(0));
  }

  // ----- most significant bit -----

  ghost predicate Shifted(whole: nat, msb: nat, rest: nat) {
    0 < rest && Pow2(msb) * rest <= whole < Pow2(msb) * (rest + 1)
  }

  lemma ShiftKeeps(whole: nat, msb: nat, rest: nat, width: nat)
    requires Shifted(whole, msb, rest) && rest >= Pow2(width)
    ensures Shifted(whole, msb + width, rest / Pow2(width))
  {
    hide Pow2;
    Pow2Add(msb, width);
    FloorAtLeast(rest, Pow2(width), 1);
    ShiftBounds(whole, Pow2(msb), Pow2(width), rest);
  }

  lemma ShiftBounds(whole: nat, p: nat, w: nat, rest: nat)
    requires 0 < p && 0 < w && p * rest <= whole < p * (rest + 1)
    ensures p * w * (rest / w) <= whole < p * w * (rest / w + 1)
  {
    var q := rest / w;
    FloorIs(rest, w, q);
    MulMonotone(q * w, rest, p);
    MulMonotone(rest + 1, q * w + w, p);
    MulAssoc(p, w, q);
    assert p * w * (q + 1) == p * w * q + p * w;
    assert p * (q * w + w) == p * (q * w) + p * w;
  }

  lemma Pow2Of128()
    ensures Pow2(128) == Q128 && Pow2(64) == 0x1_0000_0000_0000_0000 && Pow2(32) == Q32
    ensures Pow2(16) == 0x1_0000 && Pow2(8) == 0x100 && Pow2(4) == 0x10 && Pow2(2) == 4 && Pow2(1) == 2
    ensures Pow2(0) == 1 && Pow2(127) == Q127 && Pow2(256) == Q128 * Q128
  {
    Pow2Of8();
    assert Pow2(4) == 0x10 && Pow2(2) == 4 && Pow2(1) == 2 && Pow2(0) == 1;
    assert Pow2(128) == 2 * Pow2(127);
    hide Pow2;
    Pow2Of64();
    Pow2Add(8, 8);
    Pow2Add(64, 64);
    Pow2Add(128, 128);
  }

  /** One `if` of the search: drop `width` low bits when something is left above them. */
  method DropBits(ghost number: nat, x: nat, msb: nat, width: nat, limit: nat) returns (x': nat, msb': nat)
    requires Shifted(number, msb, x) && limit == Pow2(width)
    ensures Shifted(number, msb', x') && msb <= msb' <= msb + width
    ensures x < limit * limit ==> x' < limit
  {
    hide Pow2, Shifted;
    x', msb' := x, msb;
    if x >= limit {
      ShiftKeeps(number, msb, x, width);
      msb' := msb + width;
      x' := x / limit;
      FloorAtLeast(x, limit, limit);
    }
  }

  /** The exact floor of the binary logarithm below 2^256, and only there; zero is refused. */
  method MostSignificantBit(number: nat) returns (r: Option<nat>)
    ensures r.None? <==> number == 0
    ensures r.Some? ==> (Pow2(r.value) <= number < Pow2(r.value + 1) <==> number < Pow2(256))
  {
    hide Pow2, Shifted;
    if number == 0 {
      return None;
    }
    var x, msb := number, 0;
    Pow2Of128();
    ShiftedStart(number);
    x, msb := DropBits(number, x, msb, 128, Q128);
    x, msb := DropBits(number, x, msb, 64, 0x1_0000_0000_0000_0000);
    x, msb := DropBits(number, x, msb, 32, Q32);
    x, msb := DropBits(number, x, msb, 16, 0x1_0000);
    x, msb := DropBits(number, x, msb, 8, 0x100);
    x, msb := DropBits(number, x, msb, 4, 0x10);
    x, msb := DropBits(number, x, msb, 2, 4);
    x, msb := DropBits(number, x, msb, 1, 2);
    Pow2Monotone(msb + 1, 256);
    ShiftedEnd(number, msb, x);
    r := Some(msb);
  }

  lemma ShiftedStart(x: nat)
    requires 0 < x
    ensures Shifted(x, 0, x)
  {}

  lemma ShiftedEnd(whole: nat, msb: nat, rest: nat)
    requires Shifted(whole, msb, rest)
    ensures 0 < rest && (rest == 1 ==> Pow2(msb) <= whole < Pow2(msb + 1))
  {}

  // ----- the greatest tick at or below a price -----

  /** Reference definition: walk down from a tick until the price is not exceeded. */
  ghost function TickAtOrBelow(price: int, tick: int): (t: int)
    requires ValidTick(tick)
    ensures ValidTick(t) && t <= tick
    decreases tick - MIN_TICK
  {
    if tick == MIN_TICK || SqrtPrice(tick) <= price then tick else TickAtOrBelow(price, tick - 1)
  }

  lemma {:induction false} TickAtOrBelowIs(price: int, tick: int)
    requires ValidTick(tick) && MIN_SQRT_PRICE <= price
    ensures SqrtPrice(TickAtOrBelow(price, tick)) <= price
    ensures forall s | TickAtOrBelow(price, tick) < s <= tick :: SqrtPrice(s) > price
    decreases tick - MIN_TICK
  {
    hide SqrtPrice;
    SqrtPriceEnds();
    if MIN_TICK < tick && SqrtPrice(tick) > price {
      TickAtOrBelowIs(price, tick - 1);
    }
  }

  /** The greatest tick whose sqrt price does not exceed `price`. */
  ghost function GreatestTick(price: int): (t: int)
    requires MIN_SQRT_PRICE <= price
    ensures ValidTick(t)
  {
    TickAtOrBelow(price, MAX_TICK)
  }

  /** A tick's price is within `price` exactly up to the greatest tick. */
  lemma GreatestTickGalois(price: int, tick: int)
    requires MIN_SQRT_PRICE <= price && ValidTick(tick)
    ensures SqrtPrice(tick) <= price <==> tick <= GreatestTick(price)
  {
    hide SqrtPrice;
    TickAtOrBelowIs(price, MAX_TICK);
    var t := GreatestTick(price);
    if tick < t {
      SqrtPriceIncreasing(tick, t);
    }
  }

  lemma GreatestTickBelowTop(price: int)
    requires MIN_SQRT_PRICE <= price < MAX_SQRT_PRICE
    ensures GreatestTick(price) < MAX_TICK
    ensures SqrtPrice(GreatestTick(price)) <= price < SqrtPrice(GreatestTick(price) + 1)
  {
    hide SqrtPrice;
    SqrtPriceEnds();
    GreatestTickGalois(price, MAX_TICK);
    GreatestTickGalois(price, GreatestTick(price));
    GreatestTickGalois(price, GreatestTick(price) + 1);
  }

  // ----- bitwise or on two's-complement integers of unbounded width -----

  function BitOr(x: int, y: nat): int
    decreases y
  {
    if y == 0 then x
    else 2 * BitOr(x / 2, y / 2) + (if x % 2 == 1 || y % 2 == 1 then 1 else 0)
  }

  /** Setting one bit of a number, negative or not, whose low bits up to it are clear adds it. */
  lemma {:induction false} OrSetsBit(x: int, f: nat, shift: nat)
    requires f <= 1 && x % Pow2(shift + 1) == 0
    ensures BitOr(x, f * Pow2(shift)) == x + f * Pow2(shift)
    decreases shift
  {
    var m := x / Pow2(shift + 1);
    assert x == m * Pow2(shift + 1);
    if f == 1 {
      if shift == 0 {
        assert Pow2(1) == 2 && Pow2(0) == 1;
        assert BitOr(x / 2, 0) == x / 2;
      } else {
        var p: nat := Pow2(shift - 1);
        assert Pow2(shift) == 2 * p && Pow2(shift + 1) == 4 * p;
        MulAssoc(m, 2, 2 * p);
        assert x == 2 * (m * (2 * p));
        MultipleIsDivisible(m, 2 * p);
        assert x / 2 == m * Pow2(shift);
        OrSetsBit(x / 2, 1, shift - 1);
      }
    }
  }

  lemma MultipleIsDivisible(m: int, d: int)
    requires 0 < d
    ensures (m * d) % d == 0
  {
    FloorIs(m * d, d, m);
  }

  // ----- the logarithm of a price -----

  const LOG_SCALE: int := 255_738_958_999_603_826_347_141
  const LOW_ERROR: int := 3_402_992_956_809_132_418_596_140_100_660_247_210
  const HIGH_ERROR: int := 291_339_464_771_989_622_907_027_621_153_398_088_495

  /** Aligns a Q128.128 price so that its top bit is bit 127. */
  function Normalize(price: nat, msb: nat): int {
    if msb >= 128 then price / Pow2(msb - 127) else price * Pow2(127 - msb)
  }

  lemma {:induction false} Exp2OfNat(n: nat)
    ensures Exp2(n) == Pow2(n) as real
    ensures Exp2(0 - n) * Pow2(n) as real == 1.0
  {
    if n > 0 {
      Exp2OfNat(n - 1);
      Exp2Next(n - 1);
      Exp2Next(0 - n);
    }
  }

  /** The aligned mantissa times the power of two it was shifted by is the price, rounded down. */
  lemma NormalizeReal(price: nat, msb: nat)
    requires 0 < price && Pow2(msb) <= price < Pow2(msb + 1)
    ensures Q127 <= Normalize(price, msb) < Q128
    ensures var m := Mantissa(Normalize(price, msb)) * Exp2(msb - 128);
      0.0 < m <= Real128(price) && Real128(price) * (1.0 - 1.0 / Q127 as real) <= m
  {
    hide Exp2, Pow2, Mantissa, Real128;
    Pow2Of128();
    Pow2Next(msb);
    if msb >= 128 {
      var w := msb - 127;
      Pow2Add(127, w);
      Pow2Next(w - 1);
      Exp2OfNat(w - 1);
      NormalizeDown(price, Pow2(w));
      assert w - 1 == msb - 128;
      DownReal(price, price / Pow2(w), Pow2(w - 1), Exp2(msb - 128));
    } else {
      var w := 127 - msb;
      Pow2Add(msb, w);
      Pow2Next(w);
      Exp2OfNat(w + 1);
      NormalizeUp(price, Pow2(msb), Pow2(w));
      assert -(w + 1) == msb - 128;
      UpReal(price, price * Pow2(w), Pow2(w), Exp2(msb - 128));
    }
  }

  lemma Pow2Next(n: nat)
    ensures Pow2(n + 1) == 2 * Pow2(n)
  {}

  lemma NormalizeDown(price: nat, w: nat)
    requires 0 < w && Q127 * w <= price < 2 * (Q127 * w)
    ensures Q127 <= price / w < Q128
  {
    FloorAtLeast(price, w, Q127);
    FloorAtLeast(price, w, Q128);
  }

  lemma NormalizeUp(price: nat, p: nat, w: nat)
    requires p * w == Q127 && p <= price < 2 * p
    ensures Q127 <= price * w < Q128
  {
    MulMonotone(p, price, w);
    MulStrict(price, 2 * p, w) by { assert 0 < w; }
    MulAssoc(2, p, w);
  }

  lemma DownReal(price: nat, r: nat, half: nat, e: real)
    requires 0 < half && r == price / (2 * half) && Q127 <= r && e == half as real
    ensures var m := Mantissa(r) * e;
      0.0 < m <= Real128(price) && Real128(price) * (1.0 - 1.0 / Q127 as real) <= m
  {
    var w := 2 * half;
    FloorIs(price, w, r);
    MulMonotone(Q127, r, w);
    var d := Q128 as real;
    var m := Mantissa(r) * e;
    assert (r * w) as real == r as real * w as real;
    assert m == (r * w) as real / d;
    assert price as real / d - m <= w as real / d;
    var u := 1.0 / Q127 as real;
    assert (Q127 * w) as real == Q127 as real * w as real;
    assert w as real / d == u * ((Q127 * w) as real / d);
    RealScale(u, (Q127 * w) as real / d, Real128(price));
    assert Real128(price) * (1.0 - u) == Real128(price) - u * Real128(price);
  }

  lemma UpReal(price: nat, r: nat, w: nat, e: real)
    requires 0 < price && 0 < w && r == price * w && e * (2 * w) as real == 1.0
    ensures var m := Mantissa(r) * e;
      0.0 < m <= Real128(price) && Real128(price) * (1.0 - 1.0 / Q127 as real) <= m
  {
    assert r as real == price as real * w as real;
    var m := Mantissa(r) * e;
    assert m == price as real * (w as real * e) / Q127 as real;
    assert w as real * e == 0.5;
    assert m == Real128(price);
  }

  /** The fixed-point logarithm the conversion computes: whole part from the top bit, then 64 bits. */
  function Log2Of(price: nat, msb: nat): int
    requires Q127 <= Normalize(price, msb) < Q128
  {
    (msb - 128) * 0x1_0000_0000_0000_0000 + Refine(Normalize(price, msb), 64).bits
  }

  /** It never overstates the true logarithm, and understates it by less than three units. */
  lemma Log2Brackets(price: nat, msb: nat)
    requires 0 < price && Pow2(msb) <= price < Pow2(msb + 1)
    ensures Q127 <= Normalize(price, msb) < Q128
    ensures LogAtLeast(Real128(price), Log2Of(price, msb), 64)
    ensures LogAtMost(Real128(price), Log2Of(price, msb) + 3, 64)
  {
    hide Exp2, Sq, Pow2, Mantissa, Real128, LogAtMost, LogAtLeast, Normalize, Refine;
    NormalizeReal(price, msb);
    var r := Normalize(price, msb);
    var bits := Refine(r, 64).bits;
    RefineLog(r, 64);
    MantissaRange(r);
    var e := msb - 128;
    Exp2Log(e);
    var m := Mantissa(r) * Exp2(e);
    var whole := e * 0x1_0000_0000_0000_0000;
    LogMul(Mantissa(r), Exp2(e), m, bits, whole, 64);
    LogMul(Mantissa(r), Exp2(e), m, bits + 2, whole, 64);
    LogMonotone(m, Real128(price), bits + whole, 64);
    Pow2Of128();
    LogSlack(Real128(price), m, 1.0 / Q127 as real, bits + 2 + whole, 64, 64);
  }

  lemma Exp2Log(e: int)
    ensures LogAtMost(Exp2(e), e * 0x1_0000_0000_0000_0000, 64)
    ensures LogAtLeast(Exp2(e), e * 0x1_0000_0000_0000_0000, 64)
  {
    hide Exp2, Sq, Pow2;
    SqExp2(e, 64);
    Pow2Of64();
  }

  /** The accumulator between rounds: whole part and bits so far, all lower bits clear. */
  function Accumulated(whole: int, bits: nat, left: nat): int {
    whole * 0x1_0000_0000_0000_0000 + bits * Pow2(left)
  }

  lemma AccumulatorClear(whole: int, bits: nat, left: nat)
    requires left <= 64
    ensures Accumulated(whole, bits, left) % Pow2(left) == 0
  {
    hide Pow2;
    Pow2Of64();
    Pow2Add(64 - left, left);
    var p, q: nat := Pow2(left), Pow2(64 - left);
    MulAssoc(whole, q, p);
    assert Accumulated(whole, bits, left) == (whole * q + bits) * p;
    MultipleIsDivisible(whole * q + bits, p);
  }

  /** Or-ing the next bit in keeps the accumulator's form. */
  lemma AccumulateBit(whole: int, bits: nat, shift: nat, f: nat)
    requires shift < 64 && f <= 1
    ensures BitOr(Accumulated(whole, bits, shift + 1), f * Pow2(shift)) == Accumulated(whole, 2 * bits + f, shift)
  {
    hide Pow2, BitOr;
    AccumulatorClear(whole, bits, shift + 1);
    OrSetsBit(Accumulated(whole, bits, shift + 1), f, shift);
    Pow2Next(shift);
    MulAssoc(bits, 2, Pow2(shift));
  }

  /** The 64 rounds, with the accumulator built by shifting and or-ing. */
  method Log2(price: nat, msb: nat) returns (log2: int)
    requires 0 < price && Pow2(msb) <= price < Pow2(msb + 1)
    ensures Q127 <= Normalize(price, msb) < Q128 && log2 == Log2Of(price, msb)
  {
    hide Pow2, Normalize, BitOr, Accumulated, Round;
    NormalizeReal(price, msb);
    var r: nat := Normalize(price, msb);
    ghost var r0 := r;
    var whole := msb - 128;
    log2 := whole * 0x1_0000_0000_0000_0000;
    AccumulatorStart(whole);
    var shift := 63;
    while shift >= 0
      invariant -1 <= shift <= 63
      invariant Refine(r0, 63 - shift).r == r
      invariant log2 == Accumulated(whole, Refine(r0, 63 - shift).bits, shift + 1)
    {
      ghost var s := Refine(r0, 63 - shift);
      RoundIs(s);
      r := r * r / Q127;
      var f := r / Q128;
      log2 := BitOr(log2, f * Pow2(shift));
      AccumulateBit(whole, s.bits, shift, f);
      r := r / Pow2(f);
      shift := shift - 1;
    }
    AccumulatorEnd(whole, Refine(r0, 64).bits);
  }

  lemma RoundIs(s: Refinement)
    requires Q127 <= s.r < Q128
    ensures var square := s.r * s.r / Q127;
      var f := square / Q128;
      0 <= f <= 1 && Round(s) == Refinement(2 * s.bits + f, square / Pow2(f))
  {
    SquareRange(s.r);
  }

  lemma AccumulatorStart(whole: int)
    ensures Accumulated(whole, 0, 64) == whole * 0x1_0000_0000_0000_0000
  {
    hide Pow2;
  }

  lemma AccumulatorEnd(whole: int, bits: nat)
    ensures Accumulated(whole, bits, 0) == whole * 0x1_0000_0000_0000_0000 + bits
  {}

  /** A price in range has a top bit far below the limit of the search. */
  lemma TopBit(price: nat, msb: nat)
    requires 0 < price < Q192
    requires Pow2(msb) <= price < Pow2(msb + 1) <==> price < Pow2(256)
    ensures Pow2(msb) <= price < Pow2(msb + 1)
  {
    hide Pow2;
    Pow2Of128();
  }

  // ----- the two candidate ticks -----

  function TickLow(log2: int): int {
    (log2 * LOG_SCALE - LOW_ERROR) / Q128
  }

  function TickHigh(log2: int): int {
    (log2 * LOG_SCALE + HIGH_ERROR) / Q128
  }

  lemma CandidatesAdjacent(log2: int)
    ensures TickLow(log2) <= TickHigh(log2) <= TickLow(log2) + 1
  {}

  /** The scale and error constants cover the drift of the table over the whole tick range. */
  lemma LowErrorCovers(tick: int, log2: int)
    requires ValidTick(tick) && log2 <= LogCeiling(tick)
    ensures TickLow(log2) < tick
  {}

  lemma HighErrorCovers(tick: int, log2: int)
    requires ValidTick(tick) && LogFloor(tick) <= log2 + 3
    ensures tick <= TickHigh(log2)
  {}

  /** The greatest tick is one of the two candidates, and comparing the higher one's price decides. */
  lemma CandidatesBracket(price: nat, log2: int)
    requires MIN_SQRT_PRICE <= price < MAX_SQRT_PRICE
    requires LogAtLeast(Real128(price * Q32), log2, 64)
    requires LogAtMost(Real128(price * Q32), log2 + 3, 64)
    ensures TickLow(log2) <= GreatestTick(price) <= TickHigh(log2) <= TickLow(log2) + 1
  {
    hide LogAtMost, LogAtLeast, Real128, SqrtPrice, GreatestTick, LogCeiling, LogFloor, TickLow, TickHigh;
    var t := GreatestTick(price);
    GreatestTickBelowTop(price);
    CandidatesAdjacent(log2);
    SqrtPriceEnds();
    SqrtPriceRange(t);
    PositiveReal(SqrtPrice(t) * Q32);
    PositiveReal(price * Q32);
    // price >= SqrtPrice(t): the logarithm is not below the floor of t
    SqrtPriceLog(t);
    RealOrder(SqrtPrice(t) * Q32, price * Q32);
    LogMonotone(Real128(SqrtPrice(t) * Q32), Real128(price * Q32), LogFloor(t), 64);
    LogOrder(Real128(price * Q32), LogFloor(t), log2 + 3, 64);
    HighErrorCovers(t, log2);
    // price < SqrtPrice(t + 1): the logarithm is not above the ceiling of t + 1
    SqrtPriceLog(t + 1);
    RealOrder(price * Q32, SqrtPrice(t + 1) * Q32);
    LogMonotone(Real128(price * Q32), Real128(SqrtPrice(t + 1) * Q32), LogCeiling(t + 1), 64);
    LogOrder(Real128(price * Q32), log2, LogCeiling(t + 1), 64);
    LowErrorCovers(t + 1, log2);
  }

  /** In range the result is the greatest tick at or below the price; out of range it is refused. */
  method GetTickAtSqrtPrice(sqrtPrice: int) returns (r: Option<int>)
    ensures r == if MIN_SQRT_PRICE <= sqrtPrice < MAX_SQRT_PRICE then Some(GreatestTick(sqrtPrice)) else None
  {
    hide Pow2, Refine, Round, LogAtMost, LogAtLeast, Real128, SqrtPrice, GreatestTick, Log2Of, Normalize, TickLow, TickHigh;
    if sqrtPrice < MIN_SQRT_PRICE || sqrtPrice >= MAX_SQRT_PRICE {
      return None;
    }
    var price: nat := sqrtPrice * Q32;
    var top := MostSignificantBit(price);
    var msb := top.value;
    TopBit(price, msb);
    var log2 := Log2(price, msb);
    Log2Brackets(price, msb);
    var tickLow := TickLow(log2);
    var tickHigh := TickHigh(log2);
    CandidatesBracket(sqrtPrice, log2);
    GreatestTickBelowTop(sqrtPrice);
    if tickLow == tickHigh {
      return Some(tickLow);
    }
    GreatestTickGalois(sqrtPrice, tickHigh);
    var high := GetSqrtPriceAtTick(tickHigh);
    r := Some(if high.value <= sqrtPrice then tickHigh else tickLow);
  }
}
