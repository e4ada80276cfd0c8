/**
 Logarithms of the tick table. Every sqrt price of the table is sqrt(1.0001)^tick up to a stated
 error, measured in units of 2^-64 of a binary logarithm; this is what the constants of
 getTickAtSqrtPrice have to absorb.
 */
module TickLog {
  import opened Arithmetic
  import opened BinaryLog
  import opened TickTable

  /** log2(sqrt(1.0001)) in units of 2^-64, to the nearest unit. */
  const UNIT: int := 1_330_584_781_654_115

  /** Bound on the error of UNIT as the logarithm of one tick of the table. */
  const DRIFT: int := 4_261_988

  /** Fraction bits after n rounds on the factor of bit 0. */
  function BaseBits(k: nat): nat
    requires k <= 42
  {
    if k == 0 then 0x0
    else if k == 1 then 0x1
    else if k == 2 then 0x3
    else if k == 3 then 0x7
    else if k == 4 then 0xf
    else if k == 5 then 0x1f
    else if k == 6 then 0x3f
    else if k == 7 then 0x7f
    else if k == 8 then 0xff
    else if k == 9 then 0x1ff
    else if k == 10 then 0x3ff
    else if k == 11 then 0x7ff
    else if k == 12 then 0xfff
    else if k == 13 then 0x1fff
    else if k == 14 then 0x3ffe
    else if k == 15 then 0x7ffd
    else if k == 16 then 0xfffb
    else if k == 17 then 0x1_fff6
    else if k == 18 then 0x3_ffed
    else if k == 19 then 0x7_ffda
    else if k == 20 then 0xf_ffb4
    else if k == 21 then 0x1f_ff68
    else if k == 22 then 0x3f_fed1
    else if k == 23 then 0x7f_fda2
    else if k == 24 then 0xff_fb45
    else if k == 25 then 0x1ff_f68b
    else if k == 26 then 0x3ff_ed17
    else if k == 27 then 0x7ff_da2e
    else if k == 28 then 0xfff_b45d
    else if k == 29 then 0x1fff_68ba
    else if k == 30 then 0x3ffe_d175
    else if k == 31 then 0x7ffd_a2eb
    else if k == 32 then 0xfffb_45d7
    else if k == 33 then 0x1_fff6_8bae
    else if k == 34 then 0x3_ffed_175c
    else if k == 35 then 0x7_ffda_2eb8
    else if k == 36 then 0xf_ffb4_5d71
    else if k == 37 then 0x1f_ff68_bae2
    else if k == 38 then 0x3f_fed1_75c5
    else if k == 39 then 0x7f_fda2_eb8b
    else if k == 40 then 0xff_fb45_d716
    else if k == 41 then 0x1ff_f68b_ae2d
    else 0x3ff_ed17_5c5a
  }

  /** Mantissa after n rounds on the factor of bit 0. */
  function BaseMantissa(k: nat): nat
    requires k <= 42
  {
    if k == 0 then 0xfffc_b933_bd6f_ad37_aa2d_162d_1a59_4001
    else if k == 1 then 0xfff9_7272_373d_4132_59a4_6990_580e_2138
    else if k == 2 then 0xfff2_e50f_5f65_6932_ef12_357c_f3c7_fdc8
    else if k == 3 then 0xffe5_caca_7e10_e4e6_1c36_24ea_a094_1cc8
    else if k == 4 then 0xffcb_9843_d60f_6159_c9db_5883_5c92_6633
    else if k == 5 then 0xff97_3b41_fa98_c081_472e_6896_dfb2_549e
    else if k == 6 then 0xff2e_a164_66c9_6a38_43ec_78b3_26b5_281d
    else if k == 7 then 0xfe5d_ee04_6a99_a2a8_11c4_61f1_969c_2fcc
    else if k == 8 then 0xfcbe_86c7_900a_88ae_dcff_c83b_479a_a297
    else if k == 9 then 0xf987_a725_3ac4_1317_6f2b_074c_f781_5c41
    else if k == 10 then 0xf339_2b08_22b7_0005_940c_7a39_8e4b_6ce7
    else if k == 11 then 0xe715_9475_a2c2_9b74_43b2_9c7f_a6e8_8228
    else if k == 12 then 0xd097_f3bd_fd20_22b8_845a_d8f7_92aa_4a43
    else if k == 13 then 0xa9f7_4646_2d87_0fdf_8a65_dc1f_90e0_4b44
    else if k == 14 then 0xe1b0_d342_ada5_4371_2176_7bec_575e_29d5
    else if k == 15 then 0xc6f8_4d7e_5f42_3f66_048c_5415_50be_d49f
    else if k == 16 then 0x9aa5_08b5_b7a8_4e1c_677d_e54f_3e99_17d8
    else if k == 17 then 0xbad5_f1bd_b702_32cd_3386_5244_bdca_7a98
    else if k == 18 then 0x885b_9613_d7e8_7aa4_9810_6fb7_fa5c_983f
    else if k == 19 then 0x9142_e072_3efb_8848_89d1_f447_7156_24fe
    else if k == 20 then 0xa4d9_a773_d613_1691_8f14_0bd9_6e83_6e9e
    else if k == 21 then 0xd44f_2f33_7463_6dfb_6364_b38a_2cf8_5871
    else if k == 22 then 0xb013_3eab_633a_729a_54b0_8476_4f91_856a
    else if k == 23 then 0xf234_ef3c_0a71_1e1e_7ad2_cb08_f35d_c516
    else if k == 24 then 0xe528_1f3f_93b3_4479_f848_7d74_8db6_17af
    else if k == 25 then 0xcd20_ce31_85ed_5617_0e57_e370_6409_846c
    else if k == 26 then 0xa45d_8e6f_82f3_5454_f434_dfa0_4489_9340
    else if k == 27 then 0xd310_015f_5819_9d61_c455_2ceb_7a8d_eb2c
    else if k == 28 then 0xae03_6343_5727_1ed5_8a6c_238d_7fda_68cd
    else if k == 29 then 0xec91_35f6_0914_bfe7_fe56_5145_a828_bc6d
    else if k == 30 then 0xda9c_0ddb_ccd4_578d_2d66_9bf9_e67c_7203
    else if k == 31 then 0xbaae_26bb_3d7b_576c_cd77_5485_eea3_1610
    else if k == 32 then 0x8821_86c0_c1ba_ede8_7162_be14_1896_111c
    else if k == 33 then 0x90c7_4721_a4ed_d5d6_54eb_77fd_b877_97aa
    else if k == 34 then 0xa3c1_964b_073b_5076_dde1_10bd_7708_9588
    else if k == 35 then 0xd180_2f8f_0124_e4ba_e20f_ccf5_e9ee_acc8
    else if k == 36 then 0xab72_8dd7_17b5_34ab_b335_535b_6f7c_0a91
    else if k == 37 then 0xe5a4_797f_f7a7_ad2d_75d5_08c9_0b31_dea7
    else if k == 38 then 0xcdff_ab0a_d6b1_82bd_60b5_e52a_5b21_a084
    else if k == 39 then 0xa5c3_7745_8db7_7c4c_60be_730d_9906_9e19
    else if k == 40 then 0xd6ab_19fd_286c_50d0_33f9_0ffe_2f71_0202
    else if k == 41 then 0xb402_81ce_fa6c_840e_214c_423b_0dba_0af6
    else 0xfd27_0d22_b26d_863e_8f7d_4d17_9d8f_1c06
  }

  ghost function Real128(x: nat): real {
    x as real / Q128 as real
  }

  // ----- the factor of bit 0, by 42 rounds of the refinement -----

  lemma BaseStep(n: nat)
    requires n < 42
    ensures Q127 <= BaseMantissa(n) < Q128
    ensures var square := BaseMantissa(n) * BaseMantissa(n) / Q127;
      var f := square / Q128;
      0 <= f <= 1 && BaseBits(n + 1) == 2 * BaseBits(n) + f
      && BaseMantissa(n + 1) == if f == 0 then square else square / 2
  {}

  lemma {:induction false} BaseRefine(n: nat)
    requires n <= 42
    ensures Q127 <= Factor(0) < Q128
    ensures Refine(Factor(0), n) == Refinement(BaseBits(n), BaseMantissa(n))
  {
    hide BaseBits, BaseMantissa, Factor, Round;
    BaseStart();
    if n > 0 {
      BaseRefine(n - 1);
      BaseRound(n - 1);
    }
  }

  lemma BaseRound(n: nat)
    requires n < 42
    ensures Q127 <= BaseMantissa(n) < Q128
    ensures Round(Refinement(BaseBits(n), BaseMantissa(n))) == Refinement(BaseBits(n + 1), BaseMantissa(n + 1))
  {
    hide BaseBits, BaseMantissa, Pow2;
    BaseStep(n);
    SquareRange(BaseMantissa(n));
  }

  lemma BaseStart()
    ensures Factor(0) == BaseMantissa(0) && BaseBits(0) == 0 && Q127 <= Factor(0) < Q128
  {}

  lemma LogRaise(x: real, e: int, j: nat, k: nat)
    requires j <= k
    ensures LogAtMost(x, e, j) ==> LogAtMost(x, e * Pow2(k - j), k)
    ensures LogAtLeast(x, e, j) ==> LogAtLeast(x, e * Pow2(k - j), k)
  {
    hide Sq, Exp2, Pow2;
    SqSplit(x, j, k - j);
    assert j + (k - j) == k;
    SqExp2(e, k - j);
    if LogAtMost(x, e, j) {
      SqMonotone(0.0, x, j);
      SqZero(j);
      SqMonotone(Sq(x, j), Exp2(e), k - j);
    }
    if LogAtLeast(x, e, j) {
      SqMonotone(Exp2(e), Sq(x, j), k - j);
    }
  }

  lemma LogHalf(r: nat, e: int, k: nat)
    requires r > 0
    ensures LogAtMost(Mantissa(r), e, k) ==> LogAtMost(Real128(r), e - Pow2(k), k)
    ensures LogAtLeast(Mantissa(r), e, k) ==> LogAtLeast(Real128(r), e - Pow2(k), k)
  {
    hide Sq, Exp2, Pow2;
    HalfMantissa(r);
    Exp2MinusOne();
    SqExp2(-1, k);
    var m: int := Pow2(k);
    assert -1 * m == -m && e + -m == e - m;
    LogMul(Mantissa(r), 0.5, Real128(r), e, -m, k);
  }

  lemma HalfMantissa(r: nat)
    ensures Mantissa(r) * 0.5 == Real128(r)
    ensures r > 0 ==> Mantissa(r) > 0.0
  {}

  lemma Exp2MinusOne()
    ensures Exp2(-1) == 0.5
  {}

  lemma BaseLog()
    ensures LogAtMost(Real128(Factor(0)), -UNIT + DRIFT - 1, 64)
    ensures LogAtLeast(Real128(Factor(0)), -UNIT - DRIFT + 1, 64)
  {
    hide Sq, Exp2, Pow2, Refine, Mantissa, Real128, BaseMantissa, LogAtMost, LogAtLeast;
    BaseRefine(42);
    var b := BaseBits(42);
    var x := Real128(Factor(0));
    RefineLog(Factor(0), 42);
    Pow2Of42();
    LogHalf(Factor(0), b, 42);
    LogHalf(Factor(0), b + 2, 42);
    LogRaise(x, b - Pow2(42), 42, 64);
    LogRaise(x, b + 2 - Pow2(42), 42, 64);
    LogWeaken(x, -UNIT - DRIFT + 1, (b - Pow2(42)) * Pow2(22), 64);
    LogWeaken(x, (b + 2 - Pow2(42)) * Pow2(22), -UNIT + DRIFT - 1, 64);
  }

  lemma Pow2Of42()
    ensures Pow2(22) == 0x40_0000 && Pow2(42) == 0x400_0000_0000
    ensures Pow2(34) == 0x4_0000_0000 && Pow2(2) == 4 && Pow2(0) == 1
    ensures Pow2(62) == 0x4000_0000_0000_0000 && Pow2(30) == 0x4000_0000
  {
    Pow2Of8();
    assert Pow2(2) == 4 && Pow2(0) == 1;
    hide Pow2;
    Pow2Add(8, 2);
    Pow2Add(10, 10);
    Pow2Add(20, 2);
    Pow2Add(20, 22);
    Pow2Add(20, 10);
    Pow2Add(22, 8);
    Pow2Add(32, 2);
    Pow2Add(32, 30);
    Pow2Of64();
  }

  // ----- the other factors, each the square of the one before up to rounding -----

  lemma FactorSquares(k: nat)
    requires k < 19
    ensures Factor(k) * Factor(k) * 0x3_ffff_ffff_ffff_ffff <= Factor(k + 1) * Q128 * 0x4_0000_0000_0000_0000
    ensures Factor(k + 1) * Q128 * 0x3_ffff_ffff_ffff_ffff <= Factor(k) * Factor(k) * 0x4_0000_0000_0000_0000
  {}

  lemma RelativeError(p: nat, q: nat)
    requires p * 0x3_ffff_ffff_ffff_ffff <= q * 0x4_0000_0000_0000_0000
    ensures p as real * (1.0 - 1.0 / 0x4_0000_0000_0000_0000 as real) <= q as real
  {
    assert p as real * 0x3_ffff_ffff_ffff_ffff as real <= q as real * 0x4_0000_0000_0000_0000 as real;
  }

  lemma FactorSquaresReal(k: nat)
    requires k < 19
    ensures var d := 1.0 / 0x4_0000_0000_0000_0000 as real;
      var x, y := Real128(Factor(k)), Real128(Factor(k + 1));
      0.0 < x && 0.0 < y && (x * x) * (1.0 - d) <= y && y * (1.0 - d) <= x * x
  {
    hide Factor;
    FactorRange(k);
    FactorRange(k + 1);
    FactorSquares(k);
    var p, q := Factor(k) * Factor(k), Factor(k + 1) * Q128;
    RelativeError(p, q);
    RelativeError(q, p);
    SquareOver128(Factor(k));
    var w := (Q128 * Q128) as real;
    assert Real128(Factor(k + 1)) == q as real / w;
  }

  lemma SquareOver128(x: nat)
    ensures Real128(x) * Real128(x) == (x * x) as real / (Q128 * Q128) as real
  {
    assert (x * x) as real == x as real * x as real;
  }

  lemma {:induction false} FactorLog(k: nat)
    requires k < 20
    ensures LogAtMost(Real128(Factor(k)), 0 - Pow2(k) * UNIT + Pow2(k) * DRIFT - 1, 64)
    ensures LogAtLeast(Real128(Factor(k)), 0 - Pow2(k) * UNIT - Pow2(k) * DRIFT + 1, 64)
  {
    hide Sq, Exp2, LogAtMost, LogAtLeast, Real128, Factor;
    if k == 0 {
      BaseLog();
    } else {
      FactorLog(k - 1);
      var p: int := Pow2(k - 1);
      var hi, lo := 0 - p * UNIT + p * DRIFT - 1, 0 - p * UNIT - p * DRIFT + 1;
      FactorLogStep(k - 1, hi, lo);
      assert 2 * hi + 1 == 0 - Pow2(k) * UNIT + Pow2(k) * DRIFT - 1;
      assert 2 * lo - 1 == 0 - Pow2(k) * UNIT - Pow2(k) * DRIFT + 1;
    }
  }

  lemma FactorLogStep(k: nat, hi: int, lo: int)
    requires k < 19
    requires LogAtMost(Real128(Factor(k)), hi, 64) && LogAtLeast(Real128(Factor(k)), lo, 64)
    ensures LogAtMost(Real128(Factor(k + 1)), 2 * hi + 1, 64)
    ensures LogAtLeast(Real128(Factor(k + 1)), 2 * lo - 1, 64)
  {
    hide Sq, Exp2, LogAtMost, LogAtLeast, Real128, Factor, Pow2;
    FactorSquaresReal(k);
    var d := 1.0 / 0x4_0000_0000_0000_0000 as real;
    var x, y := Real128(Factor(k)), Real128(Factor(k + 1));
    var xx := x * x;
    assert 0.0 < xx by { RealStrict(0.0, x, x); }
    LogMul(x, x, xx, hi, hi, 64);
    LogMul(x, x, xx, lo, lo, 64);
    Pow2Of64();
    Pow2Of42();
    LogSlack(y, xx, d, hi + hi, 64, 64);
    LogSlack(xx, y, d, lo + lo, 64, 64);
  }

  // ----- ratios -----

  lemma ScaleLogUpper(x: nat, k: nat, e: int, f: int)
    requires k < 20 && x > 0 && Scale(x, k) > 0
    requires LogAtMost(Real128(x), e, 64) && LogAtMost(Real128(Factor(k)), f, 64)
    ensures LogAtMost(Real128(Scale(x, k)), e + f, 64)
  {
    hide Sq, Exp2, LogAtMost, LogAtLeast, Factor;
    FactorRange(k);
    var y := Real128(x) * Real128(Factor(k));
    PositiveReal(Factor(k));
    LogMul(Real128(x), Real128(Factor(k)), y, e, f, 64);
    ScaleReal(x, k);
    LogMonotone(Real128(Scale(x, k)), y, e + f, 64);
  }

  /** Scaling truncates the product of the two ratios. */
  lemma ScaleReal(x: nat, k: nat)
    requires k < 20 && x > 0
    ensures var y := Real128(x) * Real128(Factor(k));
      0.0 < y && Real128(Scale(x, k)) <= y < Real128(Scale(x, k)) + 1.0 / Q128 as real
  {
    hide Factor;
    FactorRange(k);
    var c := Factor(k);
    var s := Scale(x, k);
    MulStrict(0, x, c);
    FloorIs(x * c, Q128, s);
    ProductOver128(x, c);
    var w := (Q128 * Q128) as real;
    assert (s * Q128) as real <= (x * c) as real < (s * Q128 + Q128) as real;
    assert Real128(s) == (s * Q128) as real / w;
    assert Real128(s) + 1.0 / Q128 as real == (s * Q128 + Q128) as real / w;
  }

  lemma ProductOver128(x: nat, y: nat)
    ensures Real128(x) * Real128(y) == (x * y) as real / (Q128 * Q128) as real
  {
    assert (x * y) as real == x as real * y as real;
  }

  lemma ScaleLogLower(x: nat, k: nat, e: int, f: int)
    requires k < 20 && x > 0 && Scale(x, k) >= 0x1_0000_0000_0000_0000
    requires LogAtLeast(Real128(x), e, 64) && LogAtLeast(Real128(Factor(k)), f, 64)
    ensures LogAtLeast(Real128(Scale(x, k)), e + f - 4, 64)
  {
    hide Sq, Exp2, LogAtMost, LogAtLeast, Factor, Pow2, Scale, Real128;
    FactorRange(k);
    PositiveReal(x);
    PositiveReal(Factor(k));
    var y := Real128(x) * Real128(Factor(k));
    LogMul(Real128(x), Real128(Factor(k)), y, e, f, 64);
    ScaleReal(x, k);
    var d := 1.0 / 0x8000_0000_0000_0000 as real;
    TruncationError(Scale(x, k), y, d);
    Pow2Of42();
    PositiveReal(Scale(x, k));
    assert 64 - 62 == 2;
    LogSlack(y, Real128(Scale(x, k)), d, e + f, 62, 64);
  }

  lemma PositiveReal(x: nat)
    ensures x > 0 ==> Real128(x) > 0.0
  {}

  lemma TruncationError(s: nat, y: real, d: real)
    requires s >= 0x1_0000_0000_0000_0000 && 0.0 < y && d == 1.0 / 0x8000_0000_0000_0000 as real
    requires Real128(s) <= y < Real128(s) + 1.0 / Q128 as real
    ensures y * (1.0 - d) <= Real128(s)
  {
    assert Real128(s) >= 0x1_0000_0000_0000_0000 as real / Q128 as real;
    RealScale(d, Real128(s), y);
    assert y * (1.0 - d) == y - d * y;
  }

  /** Upper bound on the logarithm of a folded ratio: each tick adds at most DRIFT - UNIT. */
  lemma {:induction false} FoldLogUpper(x: nat, bits: nat, k: nat, e: int)
    requires k <= 20 && bits <= MaxBits(k) && x > 0 && Fold(x, bits, k) > 0
    requires LogAtMost(Real128(x), e, 64)
    ensures LogAtMost(Real128(Fold(x, bits, k)), e + bits * Pow2(k) * (DRIFT - UNIT), 64)
    decreases 20 - k
  {
    hide MaxBits, LogAtMost, Real128, Scale, Fold, Factor, Pow2;
    TableEnds();
    FoldUnfold(x, bits, k);
    if k < 20 {
      MaxPathStep(k);
      BitSplit(bits, Pow2(k), DRIFT - UNIT);
      if bits % 2 == 1 {
        FoldShrinks(Scale(x, k), bits / 2, k + 1);
        FactorLogWeak(k);
        ScaleLogUpper(x, k, e, Pow2(k) * (DRIFT - UNIT));
        FoldLogUpper(Scale(x, k), bits / 2, k + 1, e + Pow2(k) * (DRIFT - UNIT));
      } else {
        FoldLogUpper(x, bits / 2, k + 1, e);
      }
    }
  }

  lemma FoldUnfold(x: nat, bits: nat, k: nat)
    requires k <= 20
    ensures k == 20 ==> Fold(x, bits, k) == x
    ensures k < 20 ==> Fold(x, bits, k) == Fold(if bits % 2 == 1 then Scale(x, k) else x, bits / 2, k + 1)
    ensures Pow2(k + 1) == 2 * Pow2(k)
  {
    hide Scale;
  }

  lemma FactorLogWeak(k: nat)
    requires k < 20
    ensures LogAtMost(Real128(Factor(k)), Pow2(k) * (DRIFT - UNIT), 64)
    ensures LogAtLeast(Real128(Factor(k)), 0 - Pow2(k) * (DRIFT + UNIT), 64)
  {
    hide LogAtMost, LogAtLeast, Real128, Factor;
    FactorLog(k);
    var p: int := Pow2(k);
    LogWeaken(Real128(Factor(k)), 0 - p * UNIT + p * DRIFT - 1, p * (DRIFT - UNIT), 64);
    LogWeaken(Real128(Factor(k)), 0 - p * (DRIFT + UNIT), 0 - p * UNIT - p * DRIFT + 1, 64);
  }

  lemma BitSplit(bits: nat, p: int, u: int)
    ensures bits * p * u == (bits % 2) * (p * u) + (bits / 2) * (2 * p) * u
  {
    var b, c := bits / 2, bits % 2;
    assert bits == 2 * b + c;
    assert (2 * b + c) * p * u == c * (p * u) + b * (2 * p) * u;
  }

  lemma {:induction false} FoldLogLower(x: nat, bits: nat, k: nat, e: int)
    requires k <= 20 && bits <= MaxBits(k) && x > 0 && Fold(x, bits, k) >= 0x1_0000_0000_0000_0000
    requires LogAtLeast(Real128(x), e, 64)
    ensures LogAtLeast(Real128(Fold(x, bits, k)), e - bits * Pow2(k) * (DRIFT + UNIT) - 4 * (20 - k), 64)
    decreases 20 - k
  {
    hide MaxBits, LogAtLeast, Real128, Scale, Fold, Factor, Pow2;
    TableEnds();
    FoldUnfold(x, bits, k);
    if k < 20 {
      MaxPathStep(k);
      BitSplit(bits, Pow2(k), DRIFT + UNIT);
      if bits % 2 == 1 {
        FoldShrinks(Scale(x, k), bits / 2, k + 1);
        FactorLogWeak(k);
        ScaleLogLower(x, k, e, 0 - Pow2(k) * (DRIFT + UNIT));
        FoldLogLower(Scale(x, k), bits / 2, k + 1, e - Pow2(k) * (DRIFT + UNIT) - 4);
      } else {
        FoldLogLower(x, bits / 2, k + 1, e - 4) by { LogWeaken(Real128(x), e - 4, e, 64); }
      }
    }
  }

  lemma RatioLog(a: nat)
    requires a <= MAX_TICK
    ensures LogAtMost(Real128(Ratio(a)), a * (DRIFT - UNIT), 64)
    ensures LogAtLeast(Real128(Ratio(a)), 0 - a * (DRIFT + UNIT) - 80, 64)
  {
    hide LogAtMost, LogAtLeast, Fold, Real128, Pow2;
    RatioRange(a);
    TableEnds();
    LogOfOne();
    Pow2Of42();
    FoldLogUpper(Q128, a, 0, 0);
    FoldLogLower(Q128, a, 0, 0);
    assert a * 1 * (DRIFT - UNIT) == a * (DRIFT - UNIT);
    assert a * 1 * (DRIFT + UNIT) == a * (DRIFT + UNIT);
  }

  lemma LogOfOne()
    ensures LogAtMost(Real128(Q128), 0, 64) && LogAtLeast(Real128(Q128), 0, 64)
  {
    hide Sq;
    assert Real128(Q128) == 1.0;
    SqOne(64);
  }

  // ----- sqrt prices -----

  /** The Q128.128 price a tick has before it is rounded up to the Q64.96 grid. */
  function FinePrice(tick: int): (q: nat)
    requires ValidTick(tick)
    ensures q >= 0x1_0000_0000_0000_0000
  {
    RatioRange(Abs(tick));
    if tick > 0 then
      FloorAtLeast(MAX_UINT256, Ratio(tick), Q128 - 1);
      MulMonotone(Ratio(tick), Q128, Q128 - 1);
      MAX_UINT256 / Ratio(tick)
    else Ratio(-tick)
  }

  /** Error bounds of a tick's price against UNIT per tick. */
  function LogCeiling(tick: int): int {
    tick * UNIT + Abs(tick) * DRIFT + 0x4_0000_0000 + 80
  }

  function LogFloor(tick: int): int {
    tick * UNIT - Abs(tick) * DRIFT - 81
  }

  lemma FinePriceLog(tick: int)
    requires ValidTick(tick)
    ensures LogAtMost(Real128(FinePrice(tick)), LogCeiling(tick) - 0x4_0000_0000, 64)
    ensures LogAtLeast(Real128(FinePrice(tick)), LogFloor(tick), 64)
  {
    hide LogAtMost, LogAtLeast, Ratio, Real128;
    var a := Abs(tick);
    RatioLog(a);
    RatioRange(a);
    if tick > 0 {
      var hi, lo := a * (DRIFT - UNIT), 0 - a * (DRIFT + UNIT) - 80;
      InverseLog(Ratio(tick), hi, lo);
      LogWeaken(Real128(FinePrice(tick)), -lo, LogCeiling(tick) - 0x4_0000_0000, 64);
      LogWeaken(Real128(FinePrice(tick)), LogFloor(tick), -hi - 1, 64);
    } else {
      LogWeaken(Real128(Ratio(a)), a * (DRIFT - UNIT), LogCeiling(tick) - 0x4_0000_0000, 64);
      LogWeaken(Real128(Ratio(a)), LogFloor(tick), 0 - a * (DRIFT + UNIT) - 80, 64);
    }
  }

  lemma InverseLog(r: nat, hi: int, lo: int)
    requires 0 < r <= Q128 && LogAtMost(Real128(r), hi, 64) && LogAtLeast(Real128(r), lo, 64)
    ensures LogAtMost(Real128(MAX_UINT256 / r), -lo, 64)
    ensures LogAtLeast(Real128(MAX_UINT256 / r), -hi - 1, 64)
  {
    hide LogAtMost, LogAtLeast, Pow2, Real128;
    var q := MAX_UINT256 / r;
    InverseProducts(r, q);
    LogInverse(Real128(r), Real128(q), lo, 64);
    LogInverse(Real128(r), Real128(q + 1), hi, 64);
    var d := 1.0 / 0x4_0000_0000_0000_0000 as real;
    LastPlaceError(q, d);
    Pow2Of64();
    Pow2Of42();
    LogSlack(Real128(q + 1), Real128(q), d, -hi, 64, 64);
  }

  lemma InverseProducts(r: nat, q: nat)
    requires 0 < r <= Q128 && q == MAX_UINT256 / r
    ensures q >= Q128 - 1 && Real128(r) > 0.0 && Real128(q) > 0.0 && Real128(q + 1) > 0.0
    ensures Real128(r) * Real128(q) <= 1.0 <= Real128(r) * Real128(q + 1)
  {
    FloorIs(MAX_UINT256, r, q);
    FloorAtLeast(MAX_UINT256, r, Q128 - 1);
    MulMonotone(r, Q128, Q128 - 1);
    ProductOver128(r, q);
    ProductOver128(r, q + 1);
    assert (r * q) as real <= (Q128 * Q128) as real <= (r * (q + 1)) as real;
  }

  lemma LastPlaceError(q: nat, d: real)
    requires q >= Q128 - 1 && d == 1.0 / 0x4_0000_0000_0000_0000 as real
    ensures Real128(q + 1) * (1.0 - d) <= Real128(q)
  {
    var w := Q128 as real;
    assert Real128(q + 1) == Real128(q) + 1.0 / w;
    assert Real128(q + 1) >= 1.0;
    RealScale(d, 1.0, Real128(q + 1));
  }

  lemma GridError(q: nat, g: nat, d: real)
    requires q <= g <= q + Q32 && q >= 0x1_0000_0000_0000_0000 && d == 1.0 / 0x8000_0000 as real
    ensures Real128(g) * (1.0 - d) <= Real128(q)
  {
    var w := Q128 as real;
    assert Real128(g) - Real128(q) <= Q32 as real / w;
    assert Real128(g) >= 0x1_0000_0000_0000_0000 as real / w;
    RealScale(d, 0x1_0000_0000_0000_0000 as real / w, Real128(g));
  }

  /** Every sqrt price of the table is UNIT per tick, within DRIFT per tick and a constant. */
  lemma SqrtPriceLog(tick: int)
    requires ValidTick(tick)
    ensures LogAtMost(Real128(SqrtPrice(tick) * Q32), LogCeiling(tick), 64)
    ensures LogAtLeast(Real128(SqrtPrice(tick) * Q32), LogFloor(tick), 64)
  {
    hide LogAtMost, LogAtLeast, Ratio, Real128, Pow2, LogCeiling, LogFloor;
    FinePriceLog(tick);
    var q, g := FinePrice(tick), SqrtPrice(tick) * Q32;
    FloorIs(q + Q32 - 1, Q32, SqrtPrice(tick));
    PositiveReal(q);
    PositiveReal(g);
    RealOrder(q, g);
    LogMonotone(Real128(q), Real128(g), LogFloor(tick), 64);
    var d := 1.0 / 0x8000_0000 as real;
    GridError(q, g, d);
    Pow2Of42();
    assert 64 - 30 == 34;
    LogSlack(Real128(g), Real128(q), d, LogCeiling(tick) - 0x4_0000_0000, 30, 64);
  }

  lemma RealOrder(x: nat, y: nat)
    ensures x <= y ==> Real128(x) <= Real128(y)
  {}
}
