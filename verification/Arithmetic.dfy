/**
 Exact integer arithmetic shared by the price modules: floor and ceiling quotients,
 powers of two, and the truncating division of JavaScript bigints.
 */
module Arithmetic {

  const Q32: nat := 0x1_0000_0000
  const Q96: nat := 0x1_0000_0000_0000_0000_0000_0000
  const Q127: nat := 0x8000_0000_0000_0000_0000_0000_0000_0000
  const Q128: nat := 0x1_0000_0000_0000_0000_0000_0000_0000_0000
  const Q192: nat := 0x1_0000_0000_0000_0000_0000_0000_0000_0000_0000_0000_0000_0000

  /** Fixed-point one of shares and prices. */
  const WAD: nat := 1_000_000_000_000_000_000

  const MINUTE_MS: nat := 60_000

  datatype Option<+T> = None | Some(value: T)

  function Max(a: int, b: int): int {
    if a < b then b else a
  }

  function Min(a: int, b: int): int {
    if a < b then a else b
  }

  function Pow2(n: nat): (r: nat)
    ensures r > 0
  {
    if n == 0 then 1 else 2 * Pow2(n - 1)
  }

  lemma {:induction false} Pow2Add(m: nat, n: nat)
    ensures Pow2(m + n) == Pow2(m) * Pow2(n)
  {
    if n == 0 {
    } else {
      Pow2Add(m, n - 1);
      assert m + n - 1 == m + (n - 1);
      MulAssoc(Pow2(m), 2, Pow2(n - 1));
    }
  }

  lemma {:induction false} Pow2Monotone(m: nat, n: nat)
    requires m <= n
    ensures Pow2(m) <= Pow2(n)
  {
    if m < n {
      Pow2Monotone(m, n - 1);
    }
  }

  // ----- products -----

  lemma MulAssoc(x: int, y: int, z: int)
    ensures x * (y * z) == (x * y) * z == y * (x * z)
  {}

  lemma MulMonotone(x: int, y: int, z: int)
    requires x <= y && 0 <= z
    ensures x * z <= y * z
  {}

  lemma MulStrict(x: int, y: int, z: int)
    requires x < y && 0 < z
    ensures x * z < y * z
  {}

  lemma SquarePositive(x: int)
    requires x != 0
    ensures x * x > 0
  {}

  lemma MulCancel(x: int, y: int, z: int)
    requires x * z <= y * z && 0 < z
    ensures x <= y
  {
    if y < x {
      MulStrict(y, x, z);
    }
  }

  lemma RealStrict(x: real, y: real, z: real)
    requires 0.0 < z && x < y
    ensures x * z < y * z
  {}

  lemma RealScale(z: real, x: real, y: real)
    requires 0.0 <= z && x <= y
    ensures z * x <= z * y
  {}

  // ----- floor quotients (positive divisor) -----

  /** The quotient is the only integer whose multiple brackets the dividend. */
  lemma FloorIs(x: int, d: int, q: int)
    requires 0 < d
    ensures q * d <= x < q * d + d <==> x / d == q
  {
    var f := x / d;
    assert f * d <= x < f * d + d;
    if q * d <= x < q * d + d {
      if q < f {
        MulMonotone(q + 1, f, d);
      } else if f < q {
        MulMonotone(f + 1, q, d);
      }
    }
  }

  /** Galois connection: a bound on the quotient is a bound on the dividend. */
  lemma FloorAtLeast(x: int, d: int, q: int)
    requires 0 < d
    ensures q <= x / d <==> q * d <= x
  {
    FloorIs(x, d, x / d);
    if q <= x / d {
      MulMonotone(q, x / d, d);
    } else {
      MulMonotone(x / d + 1, q, d);
    }
  }

  lemma FloorMonotone(x: int, y: int, d: int)
    requires x <= y && 0 < d
    ensures x / d <= y / d
  {
    FloorIs(x, d, x / d);
    FloorAtLeast(y, d, x / d);
  }

  /** Flooring loses at most what it may: the quotient of a sum is at least the sum of quotients. */
  lemma FloorSuperadditive(x: int, y: int, d: int)
    requires 0 < d
    ensures x / d + y / d <= (x + y) / d
  {
    FloorIs(x, d, x / d);
    FloorIs(y, d, y / d);
    FloorAtLeast(x + y, d, x / d + y / d);
  }

  lemma FloorNested(x: int, b: int, a: int)
    requires 0 < a && 0 < b
    ensures 0 < a * b && (x / b) / a == x / (a * b)
  {
    var f := (x / b) / a;
    MulStrict(0, a, b);
    FloorAtLeast(x / b, a, f);
    FloorAtLeast(x, b, f * a);
    FloorAtLeast(x / b, a, f + 1);
    FloorAtLeast(x, b, (f + 1) * a);
    MulAssoc(f, a, b);
    MulAssoc(f + 1, a, b);
    assert (f + 1) * (a * b) == f * (a * b) + a * b;
    FloorIs(x, a * b, f);
  }

  // ----- ceiling quotients (positive divisor) -----

  function CeilDiv(x: int, d: int): int
    requires 0 < d
  {
    -((-x) / d)
  }

  /** Galois connection for ceilings. */
  lemma CeilAtMost(x: int, d: int, q: int)
    requires 0 < d
    ensures CeilDiv(x, d) <= q <==> x <= q * d
  {
    FloorAtLeast(-x, d, -q);
  }

  lemma CeilNested(x: int, b: int, a: int)
    requires 0 < a && 0 < b
    ensures 0 < a * b && CeilDiv(CeilDiv(x, b), a) == CeilDiv(x, a * b)
  {
    FloorNested(-x, b, a);
  }

  lemma CeilTight(x: int, d: int)
    requires 0 < d
    ensures x <= CeilDiv(x, d) * d < x + d
  {
    CeilAtMost(x, d, CeilDiv(x, d));
    CeilAtMost(x, d, CeilDiv(x, d) - 1);
  }

  // ----- JavaScript bigint division: truncates toward zero, remainder has the dividend's sign -----

  function TruncDiv(x: int, d: int): int
    requires d != 0
  {
    if (x >= 0) == (d > 0) then Abs(x) / Abs(d) else -(Abs(x) / Abs(d))
  }

  function TruncRem(x: int, d: int): int
    requires d != 0
  {
    x - d * TruncDiv(x, d)
  }

  function Abs(x: int): nat {
    if x < 0 then -x else x
  }

  lemma Signed(d: int, q: int, p: int)
    requires p == q * Abs(d)
    ensures d > 0 ==> d * q == p && d * (-q) == -p
    ensures d < 0 ==> d * q == -p && d * (-q) == p
  {}

  /** For every sign of both: the remainder is smaller than the divisor and never has the other sign than the dividend. */
  lemma TruncatesTowardZero(x: int, d: int)
    requires d != 0
    ensures x == d * TruncDiv(x, d) + TruncRem(x, d) && Abs(TruncRem(x, d)) < Abs(d)
    ensures TruncRem(x, d) == 0 || (TruncRem(x, d) > 0 <==> x > 0)
  {
    var q, p := Abs(x) / Abs(d), Abs(x) / Abs(d) * Abs(d);
    FloorIs(Abs(x), Abs(d), q);
    FloorAtLeast(Abs(x), Abs(d), 0);
    MulMonotone(0, q, Abs(d));
    Signed(d, q, p);
  }

  lemma TruncIsFloor(x: int, d: int)
    requires 0 <= x && 0 < d
    ensures TruncDiv(x, d) == x / d
    ensures TruncRem(x, d) == x % d
  {}

  // ----- rounding helpers of src/protocol/protocol-math.ts -----

  function DivRoundingUp(a: int, denominator: int): int
    requires denominator != 0
  {
    var result := TruncDiv(a, denominator);
    if TruncRem(a, denominator) != 0 then result + 1 else result
  }

  function MulDivRoundingUp(a: int, b: int, denominator: int): int
    requires denominator != 0
  {
    DivRoundingUp(a * b, denominator)
  }

  /** On the domain the contracts use, quotient-plus-one-on-remainder is the exact ceiling. */
  lemma DivRoundingUpIsCeil(a: int, d: int)
    requires 0 <= a && 0 < d
    ensures DivRoundingUp(a, d) == CeilDiv(a, d) >= 0
  {
    TruncIsFloor(a, d);
    var q := a / d;
    FloorIs(a, d, q);
    if a % d == 0 {
      assert -a == (-q) * d;
      FloorIs(-a, d, -q);
    } else {
      assert a == q * d + a % d;
      assert (-(q + 1)) * d == -q * d - d;
      FloorIs(-a, d, -(q + 1));
    }
  }

  lemma MulDivRoundingUpIsCeil(a: int, b: int, d: int)
    requires 0 <= a && 0 <= b && 0 < d
    ensures MulDivRoundingUp(a, b, d) == CeilDiv(a * b, d) >= 0
  {
    MulMonotone(0, a, b);
    DivRoundingUpIsCeil(a * b, d);
  }
}
