/**
 The quote under the protocol's own template (src/protocol/protocol-constants.ts): the guard at the
 end of the curve is unreachable for every dev buy up to the 10% cap.
 */
module Template {
  import opened Arithmetic
  import opened BinaryLog
  import opened SwapMath
  import opened CurveWalk
  import opened TickTable
  import opened TickLog
  import opened TickMath
  import opened BondingCurve
  import opened LiveStarts
  import opened DevBuyQuote
  import opened QuoteTheorems
  import opened Opening

  const TOTAL_SUPPLY: nat := 1_000_000_000_000_000_000_000_000_000
  const CURVE_SUPPLY: nat := 250_000_000_000_000_000_000_000_000
  const OPENING_FDV: nat := 2_000_000_000_000_000_000
  const CURVE_POSITIONS: nat := 32
  const CURVE_SPAN: nat := 13_862
  const TRADING_FEE: nat := 10_000
  const MAX_DEV_BUY_SHARE: nat := 100_000_000_000_000_000

  function TemplateCurve(opening: int): Curve {
    Curve(opening, opening + CURVE_SPAN, CURVE_POSITIONS, CURVE_SUPPLY)
  }

  /** Prices 434 ticks apart differ by more than one part in 256. */
  lemma RelativeGap(low: int, high: int)
    requires ValidTick(low) && ValidTick(high) && low + 434 <= high
    ensures SqrtPrice(high) < 256 * (SqrtPrice(high) - SqrtPrice(low))
  {
    hide SqrtPrice, LogAtMost, LogAtLeast, Real128, Pow2, LogCeiling, LogFloor;
    var x, y := SqrtPrice(high) * Q32, SqrtPrice(low) * Q32;
    SqrtPriceRange(low);
    SqrtPriceRange(high);
    SqrtPriceLog(low);
    SqrtPriceLog(high);
    PositiveReal(x);
    PositiveReal(y);
    if 256 * (SqrtPrice(high) - SqrtPrice(low)) <= SqrtPrice(high) {
      var d := 1.0 / 256.0;
      RealGap(x, y, d);
      Pow2Of57();
      LogSlack(Real128(x), Real128(y), d, LogCeiling(low), 7, 64);
      LogOrder(Real128(x), LogFloor(high), LogCeiling(low) + 0x200_0000_0000_0000, 64);
      DriftSmall(low, high);
    }
  }

  lemma RealGap(x: nat, y: nat, d: real)
    requires 256 * (x - y) <= x && d == 1.0 / 256.0
    ensures Real128(x) * (1.0 - d) <= Real128(y)
  {
    assert 255.0 * x as real <= 256.0 * y as real;
  }

  lemma Pow2Of57()
    ensures Pow2(57) == 0x200_0000_0000_0000 && Pow2(7) == 128
  {
    Pow2Of8();
    assert Pow2(8) == 2 * Pow2(7);
    hide Pow2;
    Pow2Of64();
    Pow2Add(57, 7);
  }

  lemma DriftSmall(low: int, high: int)
    requires ValidTick(low) && ValidTick(high) && low + 434 <= high
    ensures LogCeiling(low) + 0x200_0000_0000_0000 < LogFloor(high)
  {}

  /** Prices of ticks down to -13862 are at least 2^90. */
  lemma HighPrice(tick: int)
    requires ValidTick(tick) && 0 - CURVE_SPAN <= tick
    ensures 0x400_0000_0000_0000_0000_0000 <= SqrtPrice(tick)
  {
    hide SqrtPrice, LogAtMost, LogAtLeast, Real128, Exp2, LogFloor;
    var x := SqrtPrice(tick) * Q32;
    SqrtPriceRange(tick);
    SqrtPriceLog(tick);
    PositiveReal(x);
    if SqrtPrice(tick) < 0x400_0000_0000_0000_0000_0000 {
      SixtyFourth(x);
      Exp2Log(-6);
      LogMonotone(Real128(x), Exp2(-6), -6 * 0x1_0000_0000_0000_0000, 64);
      LogOrder(Real128(x), LogFloor(tick), -6 * 0x1_0000_0000_0000_0000, 64);
      FloorAboveSix(tick);
    }
  }

  lemma SixtyFourth(x: nat)
    requires x <= 0x400_0000_0000_0000_0000_0000_0000_0000
    ensures Real128(x) <= Exp2(-6)
  {
    Exp2OfNat(6);
    assert Pow2(6) == 64;
  }

  lemma FloorAboveSix(tick: int)
    requires ValidTick(tick) && 0 - CURVE_SPAN <= tick
    ensures -6 * 0x1_0000_0000_0000_0000 < LogFloor(tick)
  {}

  // ----- the template's positions -----

  lemma TemplateStart(opening: int, i: nat)
    requires i < CURVE_POSITIONS
    ensures opening <= PositionStart(TemplateCurve(opening), i) <= opening + CURVE_SPAN - 434
  {
    SpreadUp(CURVE_SPAN, i, CURVE_POSITIONS);
    hide TruncDiv;
    TruncIsFloor(CURVE_SPAN * i, CURVE_POSITIONS);
  }

  /** No position's liquidity reaches 128 bits, and its width is within the table. */
  lemma TemplateWidth(opening: int, i: nat)
    requires ValidCurve(TemplateCurve(opening)) && opening <= 0 && i < CURVE_POSITIONS
    ensures var c := TemplateCurve(opening);
      0x4_0000_0000_0000_0000_0000 < Width(c, i) <= MAX_SQRT_PRICE && Unclamped(c, i)
  {
    hide SqrtPrice, PositionStart;
    var c := TemplateCurve(opening);
    TemplateStart(opening, i);
    var start := PositionStart(c, i);
    StartRange(c, i);
    RelativeGap(-c.far, -start);
    HighPrice(-start);
    SqrtPriceRange(-start);
    SqrtPriceRange(-c.far);
    TemplateAmount(c, i);
    var w := Width(c, i);
    MulMonotone(0x4_0000_0000_0000_0000_0000, w, Q128);
    FloorAtLeast(PositionAmount(c, i) * Q96, w, Q128);
  }

  lemma TemplateAmount(c: Curve, i: nat)
    requires c.positions == CURVE_POSITIONS && c.supply == CURVE_SUPPLY
    ensures PositionAmount(c, i) == 7_812_500_000_000_000_000_000_000
  {}

  lemma TemplateFirstPosition(opening: int)
    requires ValidCurve(TemplateCurve(opening)) && opening <= 0
    ensures 0 < PositionLiquidity(TemplateCurve(opening), 0)
  {
    hide Width, PositionAmount, PositionLiquidity;
    var c := TemplateCurve(opening);
    TemplateWidth(opening, 0);
    TemplateAmount(c, 0);
    LiquidityPositive(c, 0);
  }

  lemma {:induction false} TemplateRoundingLoss(opening: int, i: nat)
    requires ValidCurve(TemplateCurve(opening)) && opening <= 0 && i <= CURVE_POSITIONS
    ensures WidthTokens(TemplateCurve(opening), i) <= (CURVE_POSITIONS - i) * 0x1_0000_0000_0000_0001
    decreases CURVE_POSITIONS - i
  {
    hide Width, CeilDiv;
    if i < CURVE_POSITIONS {
      TemplateWidth(opening, i);
      CeilAtMost(Width(TemplateCurve(opening), i), Q96, 0x1_0000_0000_0000_0001);
      TemplateRoundingLoss(opening, i + 1);
    }
  }

  /** Every share up to the cap is quoted, and the quote stays on the curve. */
  lemma TemplateQuoteExists(opening: int, shareWad: nat)
    requires ValidCurve(TemplateCurve(opening)) && opening <= 0 && shareWad <= MAX_DEV_BUY_SHARE
    ensures var r := QuoteFor(TemplateCurve(opening), TokensOut(TOTAL_SUPPLY, shareWad), TRADING_FEE);
      r.Ok? && opening <= r.value.endLevel <= opening + CURVE_SPAN
  {
    hide SqrtAtLevel, PositionLiquidity, WidthTokens, QuoteFor, Unclamped;
    var c := TemplateCurve(opening);
    forall i: nat | i < c.positions ensures Unclamped(c, i) {
      TemplateWidth(opening, i);
    }
    TemplateFirstPosition(opening);
    TemplateRoundingLoss(opening, 0);
    var tokensOut := TokensOut(TOTAL_SUPPLY, shareWad);
    assert tokensOut <= CURVE_SUPPLY - 32 * 0x1_0000_0000_0000_0001 - 32;
    JoinedSupplyIff(c);
    QuoteExists(c, tokensOut, TRADING_FEE);
    if 0 < tokensOut {
      QuoteEnds(c, tokensOut, TRADING_FEE);
    } else {
      ZeroQuote(c, TRADING_FEE);
    }
  }

  lemma ZeroQuote(c: Curve, feePips: nat)
    requires ValidLevel(c.opening)
    ensures QuoteFor(c, 0, feePips) == Ok(Quote(0, 0, c.opening, SqrtAtLevel(c.opening)))
  {}

  /** The level the template's 2 ETH anchor opens at is at most zero, so the curve fits the table. */
  lemma TemplateOpens(opening: int)
    requires IsOpeningLevel(TOTAL_SUPPLY, OPENING_FDV, opening)
    ensures opening <= 0 && ValidCurve(TemplateCurve(opening))
  {
    hide SqrtPrice;
    SqrtPriceEnds();
    assert FdvAtLevel(TOTAL_SUPPLY, 0) == TOTAL_SUPPLY by {
      assert SqrtAtLevel(0) == Q96;
    }
  }

  /**
   End to end: from the pinned supply of 10^27 and the 2 ETH anchor, on 32 positions over 13862 levels
   that share a quarter of the supply, no dev buy within 10% can fail to be quoted at the 1% fee.
   */
  lemma DevBuyWithinCapIsQuoted(opening: int, shareWad: nat)
    requires IsOpeningLevel(1_000_000_000_000_000_000_000_000_000, 2_000_000_000_000_000_000, opening)
    requires shareWad <= 100_000_000_000_000_000
    ensures var c := Curve(opening, opening + 13_862, 32, 250_000_000_000_000_000_000_000_000);
      QuoteFor(c, TokensOut(1_000_000_000_000_000_000_000_000_000, shareWad), 10_000).Ok?
  {
    hide IsOpeningLevel, QuoteFor;
    TemplateOpens(opening);
    TemplateQuoteExists(opening, shareWad);
  }

  /** At the cap a quote is for exactly a tenth of the supply; on a curve that opens at level zero, for one, there is one. */
  lemma TenPercentQuote()
    ensures var r := QuoteFor(TemplateCurve(0), TokensOut(TOTAL_SUPPLY, MAX_DEV_BUY_SHARE), TRADING_FEE);
      r.Ok? && r.value.tokensOut == 100_000_000_000_000_000_000_000_000
  {
    hide QuoteFor, SqrtAtLevel, OnLevel;
    TemplateQuoteExists(0, MAX_DEV_BUY_SHARE);
    TokensOutIs(TOTAL_SUPPLY, MAX_DEV_BUY_SHARE);
    QuoteCarries(TemplateCurve(0), TokensOut(TOTAL_SUPPLY, MAX_DEV_BUY_SHARE), TRADING_FEE);
  }
}
