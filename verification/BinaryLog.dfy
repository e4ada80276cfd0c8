/**
 Binary logarithms without a logarithm function. A real x has base-2 logarithm at most e / 2^k
 exactly when x^(2^k) <= 2^e, so bounds on logarithms are bounds on iterated squares. The module
 also holds the shift-and-square refinement of src/protocol/tick-math.ts:106-111 and the proof
 that it brackets the logarithm it approximates.
 */
module BinaryLog {
  import opened Arithmetic

  // ----- powers of two with integer exponents -----

  ghost function Exp2(e: int): (r: real)
    ensures r > 0.0
    decreases Abs(e)
  {
    if e == 0 then 1.0 else if e > 0 then 2.0 * Exp2(e - 1) else Exp2(e + 1) / 2.0
  }

  lemma Exp2Zero()
    ensures Exp2(0) == 1.0
  {}

  lemma Exp2Next(e: int)
    ensures Exp2(e + 1) == 2.0 * Exp2(e)
  {}

  lemma {:induction false} Exp2Add(a: int, b: int)
    ensures Exp2(a + b) == Exp2(a) * Exp2(b)
    decreases Abs(b)
  {
    hide Exp2;
    if b > 0 {
      Exp2Add(a, b - 1);
      Exp2Next(a + b - 1);
      Exp2Next(b - 1);
      assert a + b - 1 + 1 == a + b && a + (b - 1) == a + b - 1;
      RealAssoc(Exp2(a), 2.0, Exp2(b - 1));
    } else if b < 0 {
      Exp2Add(a, b + 1);
      Exp2Next(a + b);
      Exp2Next(b);
      assert a + (b + 1) == a + b + 1;
      RealAssoc(Exp2(a), 2.0, Exp2(b));
    } else {
      Exp2Zero();
    }
  }

  lemma {:induction false} Exp2Monotone(a: int, b: int)
    requires a <= b
    ensures Exp2(a) <= Exp2(b)
    decreases b - a
  {
    if a < b {
      Exp2Monotone(a, b - 1);
      Exp2Next(b - 1);
    }
  }

  lemma Exp2Reflects(a: int, b: int)
    requires Exp2(a) <= Exp2(b)
    ensures a <= b
  {
    if b < a {
      Exp2Monotone(b + 1, a);
      Exp2Next(b);
    }
  }

  // ----- real products -----

  lemma RealAssoc(x: real, y: real, z: real)
    ensures x * (y * z) == (x * y) * z == y * (x * z)
  {}

  lemma RealMonotone(x: real, y: real, u: real, v: real)
    requires 0.0 <= x <= y && 0.0 <= u <= v
    ensures x * u <= y * v
  {
    assert x * u <= y * u;
    assert y * u <= y * v;
  }

  // ----- iterated squares: Sq(x, k) = x^(2^k) -----

  ghost function Sq(x: real, k: nat): real {
    if k == 0 then x else Sq(x, k - 1) * Sq(x, k - 1)
  }

  lemma {:induction false} SqMonotone(x: real, y: real, k: nat)
    requires 0.0 <= x <= y
    ensures 0.0 <= Sq(x, k) <= Sq(y, k)
  {
    if k > 0 {
      SqMonotone(x, y, k - 1);
      RealMonotone(Sq(x, k - 1), Sq(y, k - 1), Sq(x, k - 1), Sq(y, k - 1));
    }
  }

  lemma {:induction false} SqMul(x: real, y: real, k: nat)
    ensures Sq(x * y, k) == Sq(x, k) * Sq(y, k)
  {
    if k > 0 {
      SqMul(x, y, k - 1);
      var a, b := Sq(x, k - 1), Sq(y, k - 1);
      assert (a * b) * (a * b) == (a * a) * (b * b);
    }
  }

  lemma {:induction false} SqSplit(x: real, j: nat, k: nat)
    ensures Sq(Sq(x, j), k) == Sq(x, j + k)
  {
    if k > 0 {
      SqSplit(x, j, k - 1);
      assert j + k - 1 == j + (k - 1);
    }
  }

  lemma {:induction false} SqExp2(e: int, k: nat)
    ensures Sq(Exp2(e), k) == Exp2(e * Pow2(k))
  {
    if k > 0 {
      SqExp2(e, k - 1);
      var m := e * Pow2(k - 1);
      Exp2Add(m, m);
      MulAssoc(e, 2, Pow2(k - 1));
    }
  }

  // ----- logarithm bounds -----

  ghost predicate LogAtMost(x: real, e: int, k: nat) {
    0.0 < x && Sq(x, k) <= Exp2(e)
  }

  ghost predicate LogAtLeast(x: real, e: int, k: nat) {
    0.0 < x && Exp2(e) <= Sq(x, k)
  }

  lemma LogMul(x: real, y: real, p: real, e: int, f: int, k: nat)
    requires 0.0 < x && 0.0 < y && p == x * y
    ensures LogAtMost(x, e, k) && LogAtMost(y, f, k) ==> LogAtMost(p, e + f, k)
    ensures LogAtLeast(x, e, k) && LogAtLeast(y, f, k) ==> LogAtLeast(p, e + f, k)
  {
    hide Sq, Exp2;
    SqMul(x, y, k);
    SqMonotone(0.0, x, k);
    SqMonotone(0.0, y, k);
    SqZero(k);
    Exp2Add(e, f);
    RealStrict(0.0, x, y);
    if LogAtMost(x, e, k) && LogAtMost(y, f, k) {
      RealMonotone(Sq(x, k), Exp2(e), Sq(y, k), Exp2(f));
    }
    if LogAtLeast(x, e, k) && LogAtLeast(y, f, k) {
      RealMonotone(Exp2(e), Sq(x, k), Exp2(f), Sq(y, k));
    }
  }

  lemma {:induction false} SqZero(k: nat)
    ensures Sq(0.0, k) == 0.0
  {
    if k > 0 {
      SqZero(k - 1);
    }
  }

  lemma {:induction false} SqOne(k: nat)
    ensures Sq(1.0, k) == 1.0
  {
    if k > 0 {
      SqOne(k - 1);
    }
  }

  lemma LogMonotone(x: real, y: real, e: int, k: nat)
    requires 0.0 < x <= y
    ensures LogAtMost(y, e, k) ==> LogAtMost(x, e, k)
    ensures LogAtLeast(x, e, k) ==> LogAtLeast(y, e, k)
  {
    SqMonotone(x, y, k);
  }

  lemma LogWeaken(x: real, e: int, f: int, k: nat)
    requires e <= f
    ensures LogAtMost(x, e, k) ==> LogAtMost(x, f, k)
    ensures LogAtLeast(x, f, k) ==> LogAtLeast(x, e, k)
  {
    Exp2Monotone(e, f);
  }

  lemma LogOrder(x: real, e: int, f: int, k: nat)
    requires LogAtLeast(x, e, k) && LogAtMost(x, f, k)
    ensures e <= f
  {
    Exp2Reflects(e, f);
  }

  /** Two positive numbers with product at most (at least) one have opposite logarithms. */
  lemma LogInverse(x: real, y: real, e: int, k: nat)
    requires 0.0 < x && 0.0 < y
    ensures x * y <= 1.0 && LogAtLeast(x, e, k) ==> LogAtMost(y, -e, k)
    ensures x * y >= 1.0 && LogAtMost(x, e, k) ==> LogAtLeast(y, -e, k)
  {
    hide Sq, Exp2;
    Exp2Zero();
    SqMul(x, y, k);
    SqOne(k);
    SqMonotone(0.0, x, k);
    SqMonotone(0.0, y, k);
    SqZero(k);
    Exp2Add(e, -e);
    assert e + -e == 0;
    var a, b := Sq(x, k), Sq(y, k);
    assert b * a == Sq(x * y, k) && Exp2(-e) * Exp2(e) == 1.0;
    if x * y <= 1.0 && LogAtLeast(x, e, k) {
      SqMonotone(x * y, 1.0, k);
      RealDivide(b, a, Exp2(-e), Exp2(e));
    }
    if x * y >= 1.0 && LogAtMost(x, e, k) {
      SqMonotone(1.0, x * y, k);
      RealDivide(Exp2(-e), Exp2(e), b, a);
    }
  }

  lemma RealDivide(x: real, y: real, u: real, v: real)
    requires 0.0 <= x && 0.0 < v <= y && x * y <= u * v
    ensures x <= u
  {
    RealScale(x, v, y);
    if u < x {
      RealStrict(u, x, v);
    }
  }

  // ----- rounding errors -----

  /** Bernoulli: x^(2^j) >= 1 - 2^j d for x = 1 - d. */
  lemma {:induction false} SqNearOne(d: real, j: nat)
    requires 0.0 <= d && (Pow2(j) as real) * d <= 1.0
    ensures Sq(1.0 - d, j) >= 1.0 - (Pow2(j) as real) * d >= 0.0
  {
    if j > 0 {
      var z := (Pow2(j - 1) as real) * d;
      assert (Pow2(j) as real) * d == 2.0 * z;
      assert 0.0 <= z;
      SqNearOne(d, j - 1);
      RealMonotone(1.0 - z, Sq(1.0 - d, j - 1), 1.0 - z, Sq(1.0 - d, j - 1));
      assert (1.0 - z) * (1.0 - z) == 1.0 - 2.0 * z + z * z;
    }
  }

  /** A relative error of at most 2^-(j+1) moves the logarithm by at most 2^(k-j) units. */
  lemma LogNearOne(d: real, j: nat, k: nat)
    requires j <= k && 0.0 <= d && (Pow2(j) as real) * d <= 0.5
    ensures LogAtLeast(1.0 - d, 0 - Pow2(k - j), k)
  {
    SqNearOne(d, j);
    assert Exp2(-1) == 0.5;
    SqMonotone(Exp2(-1), Sq(1.0 - d, j), k - j);
    SqSplit(1.0 - d, j, k - j);
    SqExp2(-1, k - j);
    Pow2AtLeastOne(j, d);
  }

  lemma Pow2AtLeastOne(j: nat, d: real)
    requires 0.0 <= d && (Pow2(j) as real) * d <= 0.5
    ensures d < 1.0
  {
    RealMonotone(1.0, Pow2(j) as real, d, d);
  }

  /** If y is x up to a relative error d, bounds on one carry to the other at a cost of 2^(k-j). */
  lemma LogSlack(x: real, y: real, d: real, e: int, j: nat, k: nat)
    requires j <= k && 0.0 <= d && (Pow2(j) as real) * d <= 0.5
    requires 0.0 < x && 0.0 < y && x * (1.0 - d) <= y
    ensures LogAtMost(y, e, k) ==> LogAtMost(x, e + Pow2(k - j), k)
    ensures LogAtLeast(x, e, k) ==> LogAtLeast(y, e - Pow2(k - j), k)
  {
    hide Sq, Exp2;
    LogNearOne(d, j, k);
    Pow2AtLeastOne(j, d);
    LogFactor(x, 1.0 - d, y, e, Pow2(k - j), k);
  }

  lemma LogFactor(x: real, z: real, y: real, e: int, m: int, k: nat)
    requires 0.0 < x && 0.0 < y && x * z <= y && LogAtLeast(z, 0 - m, k)
    ensures LogAtMost(y, e, k) ==> LogAtMost(x, e + m, k)
    ensures LogAtLeast(x, e, k) ==> LogAtLeast(y, e - m, k)
  {
    hide Sq, Exp2;
    var w := x * z;
    assert 0.0 < w;
    if LogAtLeast(x, e, k) {
      LogMul(x, z, w, e, 0 - m, k);
      assert e + (0 - m) == e - m;
      LogMonotone(w, y, e - m, k);
    }
    if LogAtMost(y, e, k) {
      LogMonotone(w, y, e, k);
      SqMul(x, z, k);
      SqMonotone(0.0, x, k);
      SqZero(k);
      Exp2Add(e + m, 0 - m);
      assert e + m + (0 - m) == e;
      RealDivide(Sq(x, k), Sq(z, k), Exp2(e + m), Exp2(0 - m));
    }
  }

  // ----- the shift-and-square refinement -----

  /** Fraction bits read so far, and the mantissa left, scaled to [2^127, 2^128). */
  datatype Refinement = Refinement(bits: nat, r: nat)

  /** One round: square, take the carry bit above 2^128, renormalise by it. */
  function Round(s: Refinement): (t: Refinement)
    requires Q127 <= s.r < Q128
    ensures Q127 <= t.r < Q128
    ensures t.bits == 2 * s.bits || t.bits == 2 * s.bits + 1
  {
    var square := s.r * s.r / Q127;
    SquareRange(s.r);
    var f := square / Q128;
    Refinement(2 * s.bits + f, square / Pow2(f))
  }

  lemma SquareRange(r: nat)
    requires Q127 <= r < Q128
    ensures Q127 <= r * r / Q127 < 2 * Q128
    ensures r * r / Q127 / Q128 == 0 || r * r / Q127 / Q128 == 1
    ensures Pow2(0) == 1 && Pow2(1) == 2
  {
    MulMonotone(Q127, r, r);
    MulMonotone(r, Q128 - 1, r);
    MulMonotone(r, Q128 - 1, Q128 - 1);
    FloorAtLeast(r * r, Q127, Q127);
    FloorAtLeast(r * r, Q127, 2 * Q128);
  }

  function Refine(r0: nat, n: nat): (s: Refinement)
    requires Q127 <= r0 < Q128
    ensures Q127 <= s.r < Q128
  {
    if n == 0 then Refinement(0, r0) else Round(Refine(r0, n - 1))
  }

  /** The mantissa in [1, 2) that a refinement state stands for. */
  ghost function Mantissa(r: nat): real {
    r as real / Q127 as real
  }

  /** One round squares the mantissa up to a relative error of 2^-127. */
  lemma RoundSquares(s: Refinement)
    requires Q127 <= s.r < Q128
    ensures var t := Round(s);
      var f := t.bits - 2 * s.bits;
      var a, b := Mantissa(s.r), Mantissa(t.r);
      Exp2(f) * b <= a * a && a * a * (1.0 - 1.0 / Q127 as real) <= Exp2(f) * b
  {
    var t := Round(s);
    var r, q := s.r, t.r;
    SquareRange(r);
    var f := t.bits - 2 * s.bits;
    var p: nat := Pow2(f);
    assert Exp2(f) == p as real;
    FloorNested(r * r, Q127, p);
    FloorIs(r * r, p * Q127, q);
    MantissaStep(r, q, p);
  }

  lemma MantissaStep(r: nat, q: nat, p: nat)
    requires Q127 <= q && (p == 1 || p == 2)
    requires q * (p * Q127) <= r * r < q * (p * Q127) + p * Q127
    ensures var a, b := Mantissa(r), Mantissa(q);
      p as real * b <= a * a && a * a * (1.0 - 1.0 / Q127 as real) <= p as real * b
  {
    var d := Q127 as real;
    var rr := (r * r) as real;
    assert rr == r as real * r as real;
    var a, b := Mantissa(r), Mantissa(q);
    assert a * a == rr / (d * d);
    assert p as real * b == (p * q) as real / d == (q * (p * Q127)) as real / (d * d);
    MantissaSlack(r * r, q, p);
  }

  lemma MantissaSlack(rr: nat, q: nat, p: nat)
    requires Q127 <= q && (p == 1 || p == 2)
    requires rr <= q * (p * Q127) + p * Q127
    ensures rr * (Q127 - 1) <= q * (p * Q127) * Q127
  {
    MulMonotone(rr, (q + 1) * (p * Q127), Q127 - 1);
    assert (q + 1) * (p * Q127) * (Q127 - 1) == (p * Q127) * ((q + 1) * (Q127 - 1));
    MulMonotone((q + 1) * (Q127 - 1), q * Q127, p * Q127);
  }

  /** b underestimates a, by a relative error of at most z. */
  ghost predicate Brackets(a: real, b: real, z: real) {
    0.0 < b <= a && a * (1.0 - z) <= b
  }

  ghost function Scaled(s: Refinement): real {
    Exp2(s.bits) * Mantissa(s.r)
  }

  /** Accumulated truncation error of n rounds. */
  ghost function RefineError(n: nat): real {
    (Pow2(n) - 1) as real / Q127 as real
  }

  /**
   After n rounds the mantissa's 2^n-th power is 2^bits times the remaining mantissa, up to the
   truncations of all rounds: the bits never overstate the logarithm.
   */
  lemma {:induction false} RefineBounds(r0: nat, n: nat)
    requires Q127 <= r0 < Q128 && n <= 64
    ensures var s := Refine(r0, n);
      Brackets(Sq(Mantissa(r0), n), Scaled(s), RefineError(n))
  {
    hide Exp2, Round, Mantissa, Brackets, RefineError;
    if n == 0 {
      FirstBracket(r0);
    } else {
      RefineBounds(r0, n - 1);
      var s := Refine(r0, n - 1);
      var t := Round(s);
      RoundSquares(s);
      MantissaRange(s.r);
      MantissaRange(t.r);
      RefineErrorStep(n);
      RefineErrorSmall(n);
      var f := t.bits - 2 * s.bits;
      Exp2Bits(s.bits, f, Mantissa(t.r));
      assert 2 * s.bits + f == t.bits;
      SquaredBounds(Sq(Mantissa(r0), n - 1), Sq(Mantissa(r0), n), Exp2(s.bits), Mantissa(s.r), Scaled(s), RefineError(n - 1),
                    1.0 / Q127 as real, Exp2(f) * Mantissa(t.r), Scaled(t), RefineError(n));
    }
  }

  lemma FirstBracket(r0: nat)
    requires Q127 <= r0 < Q128
    ensures Brackets(Mantissa(r0), Scaled(Refinement(0, r0)), RefineError(0))
  {
    MantissaRange(r0);
  }

  lemma RefineErrorStep(n: nat)
    requires n > 0
    ensures RefineError(n) == 2.0 * RefineError(n - 1) + 1.0 / Q127 as real
    ensures RefineError(n - 1) >= 0.0
  {}

  lemma RefineErrorSmall(n: nat)
    requires n <= 64
    ensures 0.0 <= RefineError(n) <= 0.5
  {
    Pow2Of64();
    Pow2Monotone(n, 64);
  }

  lemma MantissaRange(r: nat)
    requires Q127 <= r < Q128
    ensures 1.0 <= Mantissa(r) <= 2.0
  {}

  lemma Exp2Bits(b: int, f: int, m: real)
    ensures Exp2(b) * Exp2(b) * (Exp2(f) * m) == Exp2(2 * b + f) * m
  {
    hide Exp2;
    Exp2Add(b, b);
    Exp2Add(b + b, f);
    RealAssoc(Exp2(b) * Exp2(b), Exp2(f), m);
  }

  /** Squaring a bracket widens its relative error from z to 2z, plus the error u of the round. */
  lemma SquaredBounds(a: real, aa: real, e: real, m: real, p: real, z: real, u: real, c: real, b: real, w: real)
    requires 0.0 < e && 0.0 < m && 0.0 <= z && 0.0 <= u && 0.0 < c
    requires p == e * m && Brackets(a, p, z)
    requires c <= m * m && m * m * (1.0 - u) <= c
    requires aa == a * a && b == e * e * c && w == 2.0 * z + u <= 1.0
    ensures Brackets(aa, b, w)
  {
    SquaredLower(a, aa, e, m, p, c, b);
    SquaredHigh(a, aa, a * (1.0 - z), e, m, p, z, u, c, b, w);
  }

  lemma SquaredHigh(a: real, aa: real, y: real, e: real, m: real, p: real, z: real, u: real, c: real, b: real, w: real)
    requires 0.0 < a && 0.0 <= z && 0.0 <= u && w == 2.0 * z + u <= 1.0
    requires p == e * m && y == a * (1.0 - z) && y <= p
    requires m * m * (1.0 - u) <= c
    requires aa == a * a && b == e * e * c
    ensures aa * (1.0 - w) <= b
  {
    var v := 1.0 - u;
    var t := y * y * v;
    SquaredError(a, aa, y, z, u, w, t);
    RealScale(a, 0.0, 1.0 - z);
    SquaredUpper(y, e, m, p, v, c, t, b);
  }

  lemma SquaredLower(a: real, aa: real, e: real, m: real, p: real, c: real, b: real)
    requires 0.0 < e && 0.0 < m && 0.0 < c <= m * m && p == e * m && 0.0 < p <= a
    requires aa == a * a && b == e * e * c
    ensures 0.0 < b <= aa
  {
    var ee, mm := e * e, m * m;
    RealStrict(0.0, e, e);
    RealStrict(0.0, c, ee);
    RealScale(ee, c, mm);
    assert ee * mm == p * p;
    RealMonotone(p, a, p, a);
    assert b == ee * c;
  }

  lemma SquaredUpper(y: real, e: real, m: real, p: real, v: real, c: real, t: real, b: real)
    requires 0.0 <= y <= p && p == e * m && 0.0 <= v && m * m * v <= c
    requires t == y * y * v && b == e * e * c
    ensures t <= b
  {
    RealMonotone(y, p, y, p);
    RealMonotone(y * y, p * p, v, v);
    assert (p * p) * v == (e * e) * (m * m * v);
    assert 0.0 <= e * e;
    RealScale(e * e, m * m * v, c);
  }

  lemma SquaredError(a: real, aa: real, y: real, z: real, u: real, w: real, t: real)
    requires 0.0 <= z && 0.0 <= u && w == 2.0 * z + u <= 1.0 && y == a * (1.0 - z)
    requires aa == a * a && t == y * y * (1.0 - u)
    ensures aa * (1.0 - w) <= t
  {
    var x, v := 1.0 - z, 1.0 - u;
    assert x * x == 1.0 - 2.0 * z + z * z;
    RealMonotone(1.0 - 2.0 * z, x * x, v, v);
    RealMonotone(0.0, z, 0.0, u);
    assert (1.0 - 2.0 * z) * v == 1.0 - w + 2.0 * (z * u);
    RealScale(aa, 1.0 - w, x * x * v);
    assert y * y * v == (a * a) * (x * x * v);
  }

  /** With at most 64 rounds the bits are the logarithm's fraction, to within two units. */
  lemma RefineLog(r0: nat, k: nat)
    requires Q127 <= r0 < Q128 && k <= 64
    ensures LogAtLeast(Mantissa(r0), Refine(r0, k).bits, k)
    ensures LogAtMost(Mantissa(r0), Refine(r0, k).bits + 2, k)
  {
    hide Sq, Exp2, Round, Mantissa, Refine, RefineError, Brackets;
    RefineBounds(r0, k);
    var s := Refine(r0, k);
    MantissaRange(r0);
    MantissaRange(s.r);
    Exp2Next(s.bits);
    Exp2Next(s.bits + 1);
    RefineErrorSmall(k);
    HalfBracket(Sq(Mantissa(r0), k), Exp2(s.bits), Mantissa(s.r), Scaled(s), RefineError(k));
  }

  lemma HalfBracket(a: real, e: real, m: real, b: real, z: real)
    requires 0.0 < e && 1.0 <= m <= 2.0 && 0.0 <= z <= 0.5 && b == e * m && Brackets(a, b, z)
    ensures e <= a <= 4.0 * e
  {
    RealDouble(e, m, b);
    RealHalf(a, b, z);
  }

  lemma RealDouble(e: real, m: real, b: real)
    requires 0.0 < e && 1.0 <= m <= 2.0 && b == e * m
    ensures e <= b <= 2.0 * e
  {
    RealScale(e, 1.0, m);
    RealScale(e, m, 2.0);
  }

  lemma RealHalf(a: real, b: real, z: real)
    requires 0.0 < a && z <= 0.5 && a * (1.0 - z) <= b
    ensures a <= 2.0 * b
  {
    RealScale(a, 0.5, 1.0 - z);
  }

  lemma Pow2Of8()
    ensures Pow2(8) == 256
  {
    assert Pow2(4) == 16;
    Pow2Add(4, 4);
  }

  lemma Pow2Of64()
    ensures Pow2(64) == 0x1_0000_0000_0000_0000
    ensures Pow2(32) == 0x1_0000_0000
  {
    hide Pow2;
    Pow2Of8();
    Pow2Add(8, 8);
    Pow2Add(16, 16);
    Pow2Add(32, 32);
  }

  /** The scales of the fixed-point formats are the powers of two they are named after. */
  lemma FixedPointScales()
    ensures Q32 == Pow2(32) && Q96 == Pow2(96) && Q127 == Pow2(127) && Q128 == Pow2(128) && Q192 == Pow2(192)
  {
    assert Pow2(128) == 2 * Pow2(127);
    hide Pow2;
    Pow2Of64();
    Pow2Add(32, 64);
    Pow2Add(64, 64);
    Pow2Add(64, 128);
  }
}
