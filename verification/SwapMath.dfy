/**
 The exact-output swap step of src/protocol/protocol-math.ts: amounts between two sqrt prices,
 the end price that releases a token amount, and the input-side fee. Each is shown to be the
 one exact rounding of the quantity it stands for.
 */
module SwapMath {
  import opened Arithmetic

  const FEE_DENOMINATOR: int := 1_000_000

  /** ETH between two sqrt prices at a liquidity; a zero price is refused. */
  function Amount0Delta(sqrtA: nat, sqrtB: nat, liquidity: nat, roundUp: bool): Option<int> {
    var low, high := Min(sqrtA, sqrtB), Max(sqrtA, sqrtB);
    if low == 0 then None
    else
      var numerator1, numerator2 := liquidity * Q96, high - low;
      if roundUp then Some(DivRoundingUp(MulDivRoundingUp(numerator1, numerator2, high), low))
      else Some(TruncDiv(TruncDiv(numerator1 * numerator2, high), low))
  }

  /** Tokens between two sqrt prices at a liquidity. */
  function Amount1Delta(sqrtA: nat, sqrtB: nat, liquidity: nat, roundUp: bool): int {
    var numerator := if sqrtA > sqrtB then sqrtA - sqrtB else sqrtB - sqrtA;
    var quotient := TruncDiv(liquidity * numerator, Q96);
    if roundUp && TruncRem(liquidity * numerator, Q96) != 0 then quotient + 1 else quotient
  }

  /** Sqrt price after `amount1Out` tokens leave; refused when the liquidity cannot release them. */
  function NextSqrtFromAmount1Out(sqrtPrice: nat, liquidity: nat, amount1Out: nat): Option<int> {
    if liquidity == 0 then None
    else
      var quotient := DivRoundingUp(amount1Out * Q96, liquidity);
      if sqrtPrice <= quotient then None else Some(sqrtPrice - quotient)
  }

  /** The fee charged on top of an input amount. */
  function FeeOn(amountIn: int, feePips: nat): int
    requires feePips != FEE_DENOMINATOR
  {
    MulDivRoundingUp(amountIn, feePips, FEE_DENOMINATOR - feePips)
  }

  /** Rounding twice, once per divisor, is rounding the exact quotient once. */
  lemma Amount0Exact(sqrtA: nat, sqrtB: nat, liquidity: nat)
    requires 0 < sqrtA && 0 < sqrtB
    ensures var low, high := Min(sqrtA, sqrtB), Max(sqrtA, sqrtB);
      var exact := liquidity * Q96 * (high - low);
      && 0 < low * high
      && Amount0Delta(sqrtA, sqrtB, liquidity, true) == Some(CeilDiv(exact, low * high))
      && Amount0Delta(sqrtA, sqrtB, liquidity, false) == Some(exact / (low * high))
  {
    hide DivRoundingUp, CeilDiv, TruncDiv;
    var low, high := Min(sqrtA, sqrtB), Max(sqrtA, sqrtB);
    var exact := liquidity * Q96 * (high - low);
    MulMonotone(0, liquidity * Q96, high - low);
    MulDivRoundingUpIsCeil(liquidity * Q96, high - low, high);
    DivRoundingUpIsCeil(CeilDiv(exact, high), low);
    CeilNested(exact, high, low);
    TruncIsFloor(exact, high);
    FloorAtLeast(exact, high, 0);
    TruncIsFloor(exact / high, low);
    FloorNested(exact, high, low);
  }

  lemma Amount1Exact(sqrtA: nat, sqrtB: nat, liquidity: nat)
    ensures var width := Abs(sqrtA - sqrtB);
      && Amount1Delta(sqrtA, sqrtB, liquidity, false) == liquidity * width / Q96 >= 0
      && Amount1Delta(sqrtA, sqrtB, liquidity, true) == CeilDiv(liquidity * width, Q96)
  {
    var width := Abs(sqrtA - sqrtB);
    MulMonotone(0, liquidity, width);
    TruncIsFloor(liquidity * width, Q96);
    DivRoundingUpIsCeil(liquidity * width, Q96);
  }

  /**
   The solved end price is the highest price at which at least the requested tokens have been
   released: another price releases them exactly when it is no higher.
   */
  lemma NextSqrtIsHighest(sqrtPrice: nat, liquidity: nat, out: nat, price: nat)
    requires 0 < liquidity && price <= sqrtPrice
    ensures var end := NextSqrtFromAmount1Out(sqrtPrice, liquidity, out);
      && (end.None? ==> (0 < price ==> liquidity * (sqrtPrice - price) < out * Q96))
      && (end.Some? ==> 0 < end.value <= sqrtPrice
                        && (out * Q96 <= liquidity * (sqrtPrice - price) <==> price <= end.value))
  {
    hide DivRoundingUp, CeilDiv;
    DivRoundingUpIsCeil(out * Q96, liquidity);
    CeilAtMost(out * Q96, liquidity, sqrtPrice - price);
  }

  /** The fee is the least integer that is at least feePips millionths of input plus fee. */
  lemma FeeIsLeast(amountIn: nat, feePips: nat, fee: int)
    requires feePips < FEE_DENOMINATOR
    ensures 0 <= FeeOn(amountIn, feePips)
    ensures feePips * (amountIn + fee) <= 1_000_000 * fee <==> FeeOn(amountIn, feePips) <= fee
  {
    hide DivRoundingUp, CeilDiv;
    var rest := FEE_DENOMINATOR - feePips;
    MulDivRoundingUpIsCeil(amountIn, feePips, rest);
    CeilAtMost(amountIn * feePips, rest, fee);
    assert feePips * (amountIn + fee) == amountIn * feePips + feePips * fee;
    assert fee * rest == FEE_DENOMINATOR * fee - feePips * fee;
  }

  lemma FeeMonotone(x: nat, y: nat, feePips: nat)
    requires feePips < FEE_DENOMINATOR && x <= y
    ensures 0 <= FeeOn(x, feePips) <= FeeOn(y, feePips)
  {
    hide FeeOn;
    FeeIsLeast(x, feePips, FeeOn(y, feePips));
    FeeIsLeast(y, feePips, FeeOn(y, feePips));
    MulMonotone(x + FeeOn(y, feePips), y + FeeOn(y, feePips), feePips);
  }
}
