/**
 The Q128.128 ratio table of src/protocol/tick-math.ts and the sqrt price it yields
 at every tick, with the proof that the price is strictly increasing in the tick.
 */
module TickTable {
  import opened Arithmetic

  const MIN_TICK: int := -887_272
  const MAX_TICK: int := 887_272
  const MIN_SQRT_PRICE: nat := 4_295_128_739
  const MAX_SQRT_PRICE: nat := 1_461_446_703_485_210_103_287_273_052_203_988_822_378_723_970_342
  const MAX_UINT256: nat := Q128 * Q128 - 1

  /** Table factor of bit k of the tick magnitude, about sqrt(1.0001)^(-2^k) in Q128. */
  function Factor(k: nat): nat
    requires k < 20
  {
    if k == 0 then 0xfffc_b933_bd6f_ad37_aa2d_162d_1a59_4001
    else if k == 1 then 0xfff9_7272_373d_4132_59a4_6990_580e_213a
    else if k == 2 then 0xfff2_e50f_5f65_6932_ef12_357c_f3c7_fdcc
    else if k == 3 then 0xffe5_caca_7e10_e4e6_1c36_24ea_a094_1cd0
    else if k == 4 then 0xffcb_9843_d60f_6159_c9db_5883_5c92_6644
    else if k == 5 then 0xff97_3b41_fa98_c081_472e_6896_dfb2_54c0
    else if k == 6 then 0xff2e_a164_66c9_6a38_43ec_78b3_26b5_2861
    else if k == 7 then 0xfe5d_ee04_6a99_a2a8_11c4_61f1_969c_3053
    else if k == 8 then 0xfcbe_86c7_900a_88ae_dcff_c83b_479a_a3a4
    else if k == 9 then 0xf987_a725_3ac4_1317_6f2b_074c_f781_5e54
    else if k == 10 then 0xf339_2b08_22b7_0005_940c_7a39_8e4b_70f3
    else if k == 11 then 0xe715_9475_a2c2_9b74_43b2_9c7f_a6e8_89d9
    else if k == 12 then 0xd097_f3bd_fd20_22b8_845a_d8f7_92aa_5825
    else if k == 13 then 0xa9f7_4646_2d87_0fdf_8a65_dc1f_90e0_61e5
    else if k == 14 then 0x70d8_69a1_56d2_a1b8_90bb_3df6_2baf_32f7
    else if k == 15 then 0x31be_135f_97d0_8fd9_8123_1505_542f_cfa6
    else if k == 16 then 0x9aa_508b_5b7a_84e1_c677_de54_f3e9_9bc9
    else if k == 17 then 0x5d_6af8_dedb_8119_6699_c329_225e_e604
    else if k == 18 then 0x2216_e584_f5fa_1ea9_2604_1bed_fe98
    else 0x48a_1703_91f7_dc42_444e_8fa2
  }

  /** Ratio after the k low bits, all set: the truncated product of factors 0..k-1. */
  function LowOnes(k: nat): nat
    requires k <= 20
  {
    if k == 0 then 0x1_0000_0000_0000_0000_0000_0000_0000_0000
    else if k == 1 then 0xfffc_b933_bd6f_ad37_aa2d_162d_1a59_4001
    else if k == 2 then 0xfff6_2bbb_6d45_8ec3_c792_1063_91dc_463e
    else if k == 3 then 0xffe9_114b_9cf2_8d39_4c32_03db_d44e_b085
    else if k == 4 then 0xffce_de6f_1d8b_e90b_88f3_5042_4e84_e5b7
    else if k == 5 then 0xff9a_80c1_ada7_480b_1daa_871d_7c4d_9b36
    else if k == 6 then 0xff31_e58d_5a53_c84f_c142_023e_c1b1_dfd7
    else if k == 7 then 0xfe61_2f81_83b1_ea21_b72f_b71b_0354_2ae4
    else if k == 8 then 0xfcc1_c2f3_8053_6bc6_7ee1_ff56_4d10_80b2
    else if k == 9 then 0xf98a_d8c8_d7ec_c0a3_f8a4_2c97_24cf_fb6a
    else if k == 10 then 0xf33c_4801_89b4_1523_5ad1_1942_7d89_a1f6
    else if k == 11 then 0xe718_89a8_5903_fd03_cb7c_c40b_df37_1a9c
    else if k == 12 then 0xd09a_9f3e_93db_5812_d482_0c2f_c67a_3e3a
    else if k == 13 then 0xa9f9_7334_5b9e_647c_4163_af91_d00b_255f
    else if k == 14 then 0x70d9_db64_85f0_4ddd_567e_07c7_b89f_8e7c
    else if k == 15 then 0x31be_b65d_91af_63ae_717a_760b_e3b3_74dc
    else if k == 16 then 0x9aa_7036_fd23_5542_9c40_30b0_32e1_cf71
    else if k == 17 then 0x5d_6c2a_f97a_aa8d_e0e5_a6bf_23f5_e547
    else if k == 18 then 0x2217_5538_8a66_58e1_20f4_a3c5_03cf
    else if k == 19 then 0x48a_25e3_6942_a4fc_0c1f_899f
    else 0x14_9b78_73d8_4d48
  }

  /** A gap of Margin(k) before bit k still leaves Margin(20) = 2^32 + 2 after bit 19. */
  function Margin(k: nat): nat
    requires k <= 20
  {
    if k == 0 then 0xc6c_3b30_d426_6ae7_ac87_58db_d477
    else if k == 1 then 0xc6c_127c_a0ea_8160_9620_7e6c_e063
    else if k == 2 then 0xc6b_c115_ca8c_0702_32f2_8b0e_cb87
    else if k == 3 then 0xc6b_1e4e_5e04_aa14_dfe7_241c_00f1
    else if k == 4 then 0xc69_d8d8_844e_0a53_d55b_bdb9_30d1
    else if k == 5 then 0xc67_4e50_c250_2f95_d198_350f_bbbe
    else if k == 6 then 0xc62_3ad0_a49c_4521_3a6c_76d6_a17c
    else if k == 7 then 0xc58_1a0b_07ca_4fa9_ce37_5a69_f340
    else if k == 8 then 0xc43_f152_8677_1c3b_9d7c_c328_69d7
    else if k == 9 then 0xc1c_026f_77a5_8eac_d478_9c32_e191
    else if k == 10 then 0xbcd_a90b_bc92_d023_f135_8231_d32c
    else if k == 11 then 0xb36_da3c_b308_59c4_abca_1cf6_6d29
    else if k == 12 then 0xa1f_70ed_89e5_4a69_941b_f910_684a
    else if k == 13 then 0x83f_8def_f790_d3e0_7854_9a81_d8c4
    else if k == 14 then 0x579_ec49_009e_6be4_ddc0_84bf_2654
    else if k == 15 then 0x269_f881_c350_d6e3_826e_1cc2_819a
    else if k == 16 then 0x78_1366_0ae4_c1d1_3643_bfc6_c3eb
    else if k == 17 then 0x4_8891_3f92_9ae5_4f04_4bba_761c
    else if k == 18 then 0x1a7_81b8_7b9b_a21d_9284_3b35
    else if k == 19 then 0x38_651b_5945_2186_c5c0
    else 0x1_0000_0002
  }

  /** The largest tick magnitude shifted right by k bits. */
  function MaxBits(k: nat): nat
    requires k <= 20
  {
    if k == 0 then 0xd_89e8
    else if k == 1 then 0x6_c4f4
    else if k == 2 then 0x3_627a
    else if k == 3 then 0x1_b13d
    else if k == 4 then 0xd89e
    else if k == 5 then 0x6c4f
    else if k == 6 then 0x3627
    else if k == 7 then 0x1b13
    else if k == 8 then 0xd89
    else if k == 9 then 0x6c4
    else if k == 10 then 0x362
    else if k == 11 then 0x1b1
    else if k == 12 then 0xd8
    else if k == 13 then 0x6c
    else if k == 14 then 0x36
    else if k == 15 then 0x1b
    else if k == 16 then 0xd
    else if k == 17 then 0x6
    else if k == 18 then 0x3
    else if k == 19 then 0x1
    else 0x0
  }

  /** Ratio of the largest magnitude after its k low bits. */
  function MaxPath(k: nat): nat
    requires k <= 20
  {
    if k == 0 then 0x1_0000_0000_0000_0000_0000_0000_0000_0000
    else if k == 1 then 0x1_0000_0000_0000_0000_0000_0000_0000_0000
    else if k == 2 then 0x1_0000_0000_0000_0000_0000_0000_0000_0000
    else if k == 3 then 0x1_0000_0000_0000_0000_0000_0000_0000_0000
    else if k == 4 then 0xffe5_caca_7e10_e4e6_1c36_24ea_a094_1cd0
    else if k == 5 then 0xffe5_caca_7e10_e4e6_1c36_24ea_a094_1cd0
    else if k == 6 then 0xff7d_10c6_3a97_7157_da41_40de_b6f3_1a7b
    else if k == 7 then 0xfeac_1d40_52f7_7148_18b4_90c1_138e_a058
    else if k == 8 then 0xfd0c_3654_da9e_0337_41d1_a9f9_3707_f6f6
    else if k == 9 then 0xf9d4_59c5_817d_bafa_9e37_6ae8_4dcf_eb8b
    else if k == 10 then 0xf9d4_59c5_817d_bafa_9e37_6ae8_4dcf_eb8b
    else if k == 11 then 0xf9d4_59c5_817d_bafa_9e37_6ae8_4dcf_eb8b
    else if k == 12 then 0xe183_ac4e_25d5_9499_6624_2a64_e9c8_0e2f
    else if k == 13 then 0xe183_ac4e_25d5_9499_6624_2a64_e9c8_0e2f
    else if k == 14 then 0xe183_ac4e_25d5_9499_6624_2a64_e9c8_0e2f
    else if k == 15 then 0xe183_ac4e_25d5_9499_6624_2a64_e9c8_0e2f
    else if k == 16 then 0x2bd1_a4c5_d2a1_181a_ca1e_f15e_64c2_e3cf
    else if k == 17 then 0x1a7_85cb_bdc0_5048_3e3b_e581_2760_be73
    else if k == 18 then 0x1a7_85cb_bdc0_5048_3e3b_e581_2760_be73
    else if k == 19 then 0x38_65a6_455d_07d2_bc87_c595_6d2e
    else 0x1_0002_76a2_21a1_7501
  }

  predicate ValidTick(tick: int) {
    MIN_TICK <= tick <= MAX_TICK
  }

  /** One table step: multiply by the factor of bit k and drop 128 bits. */
  function Scale(price: nat, k: nat): nat
    requires k < 20
  {
    price * Factor(k) / Q128
  }

  /** Applies the factors of bits k..19; `bits` holds the tick shifted right by k. */
  function Fold(price: nat, bits: nat, k: nat): nat
    requires k <= 20
    decreases 20 - k
  {
    if k == 20 then price
    else Fold(if bits % 2 == 1 then Scale(price, k) else price, bits / 2, k + 1)
  }

  /** The Q128.128 ratio of a tick's magnitude before the final inversion and rounding. */
  function Ratio(magnitude: nat): nat {
    Fold(Q128, magnitude, 0)
  }

  /** Sqrt price (Q64.96) at a tick; defined on the valid ticks, outside of which the source throws. */
  function SqrtPrice(tick: int): (p: nat)
    requires ValidTick(tick)
  {
    var ratio := Ratio(Abs(tick));
    RatioRange(Abs(tick));
    ((if tick > 0 then MAX_UINT256 / ratio else ratio) + (Q32 - 1)) / Q32
  }

  // ----- facts read off the constants -----

  lemma FactorRange(k: nat)
    requires k < 20
    ensures 0 < Factor(k) < Q128
  {}

  lemma LowOnesStep(k: nat)
    requires k < 20
    ensures LowOnes(k + 1) == Scale(LowOnes(k), k)
  {}

  /** A margin survives one scaling, and covers the drop from bits 0..k-1 all set to bit k alone. */
  lemma MarginStep(k: nat)
    requires k < 20
    ensures Scale(Margin(k), k) >= Margin(k + 1)
    ensures Margin(k) >= Margin(k + 1)
    ensures LowOnes(k) >= Factor(k) + Margin(k + 1)
  {}

  lemma TableEnds()
    ensures LowOnes(0) == Q128 && Margin(20) == Q32 + 2
    ensures MaxBits(0) == MAX_TICK && MaxBits(20) == 0
    ensures MaxPath(0) == Q128 && MaxPath(20) == 0x1_0002_76a2_21a1_7501
  {}

  // ----- scaling is monotone and keeps gaps -----

  lemma ScaleShrinks(price: nat, k: nat)
    requires k < 20
    ensures Scale(price, k) <= price
  {
    hide Factor, LowOnes, Margin, MaxBits, MaxPath;
    FactorRange(k);
    MulMonotone(Factor(k), Q128, price);
    FloorMonotone(price * Factor(k), price * Q128, Q128);
    FloorIs(price * Q128, Q128, price);
  }

  lemma ScaleKeepsGap(x: nat, y: nat, k: nat)
    requires k < 20 && y + Margin(k) <= x
    ensures Scale(y, k) + Margin(k + 1) <= Scale(x, k)
  {
    hide Factor, LowOnes, Margin, MaxBits, MaxPath;
    MarginStep(k);
    var c := Factor(k);
    FloorSuperadditive(y * c, Margin(k) * c, Q128);
    MulMonotone(y + Margin(k), x, c);
    FloorMonotone(y * c + Margin(k) * c, x * c, Q128);
  }

  lemma {:induction false} FoldKeepsGap(x: nat, y: nat, bits: nat, k: nat)
    requires k <= 20 && y + Margin(k) <= x
    ensures Fold(y, bits, k) + Margin(20) <= Fold(x, bits, k)
    decreases 20 - k
  {
    hide Factor, LowOnes, Margin, MaxBits, MaxPath;
    if k < 20 {
      ScaleKeepsGap(x, y, k);
      MarginStep(k);
      if bits % 2 == 1 {
        FoldKeepsGap(Scale(x, k), Scale(y, k), bits / 2, k + 1);
      } else {
        FoldKeepsGap(x, y, bits / 2, k + 1);
      }
    }
  }

  lemma {:induction false} FoldShrinks(x: nat, bits: nat, k: nat)
    requires k <= 20
    ensures Fold(x, bits, k) <= x
    decreases 20 - k
  {
    hide Factor, LowOnes, Margin, MaxBits, MaxPath;
    if k < 20 {
      ScaleShrinks(x, k);
      FoldShrinks(if bits % 2 == 1 then Scale(x, k) else x, bits / 2, k + 1);
    }
  }

  /**
   Adding one to a magnitude whose k low bits are all set. The carry clears those bits, so the
   comparison is between the product of factors 0..k-1 and the first factor the carry reaches.
   */
  lemma {:induction false} CarryKeepsGap(bits: nat, k: nat)
    requires k <= 20 && bits < MaxBits(k)
    ensures Fold(Q128, bits + 1, k) + Margin(20) <= Fold(LowOnes(k), bits, k)
    decreases 20 - k
  {
    hide Factor, LowOnes, Margin, MaxBits, MaxPath;
    TableEnds();
    MarginStep(k);
    MaxPathStep(k);
    if bits % 2 == 0 {
      assert (bits + 1) / 2 == bits / 2;
      FloorIs(Q128 * Factor(k), Q128, Factor(k));
      assert Scale(Q128, k) == Factor(k);
      FoldKeepsGap(LowOnes(k), Factor(k), bits / 2, k + 1);
    } else {
      assert (bits + 1) / 2 == bits / 2 + 1;
      LowOnesStep(k);
      CarryKeepsGap(bits / 2, k + 1);
    }
  }

  /** Consecutive ratios fall by more than one unit of the 2^32 grid they are rounded to. */
  lemma RatioGap(a: nat)
    requires a < MAX_TICK
    ensures Ratio(a + 1) + Q32 + 2 <= Ratio(a)
  {
    hide Factor, LowOnes, Margin, MaxBits, MaxPath;
    TableEnds();
    CarryKeepsGap(a, 0);
  }

  lemma {:induction false} RatioDecreasing(a: nat, b: nat)
    requires a <= b <= MAX_TICK
    ensures Ratio(b) <= Ratio(a)
  {
    hide Ratio;
    if a < b {
      RatioDecreasing(a, b - 1);
      RatioGap(b - 1);
    }
  }

  lemma MaxPathStep(k: nat)
    requires k < 20
    ensures MaxBits(k + 1) == MaxBits(k) / 2
    ensures MaxPath(k + 1) == if MaxBits(k) % 2 == 1 then Scale(MaxPath(k), k) else MaxPath(k)
  {}

  lemma {:induction false} MaxPathFold(k: nat)
    requires k <= 20
    ensures Fold(MaxPath(k), MaxBits(k), k) == MaxPath(20)
    decreases 20 - k
  {
    hide Factor, LowOnes, Margin, MaxBits, MaxPath;
    if k < 20 {
      MaxPathStep(k);
      MaxPathFold(k + 1);
    }
  }

  lemma LowestRatio()
    ensures Ratio(MAX_TICK) == 0x1_0002_76a2_21a1_7501
  {
    hide Factor, LowOnes, Margin, MaxBits, MaxPath;
    TableEnds();
    MaxPathFold(0);
  }

  lemma RatioRange(a: nat)
    requires a <= MAX_TICK
    ensures 0x1_0000_0000_0000_0000 < Ratio(a) <= Q128
  {
    hide Factor, LowOnes, Margin, MaxBits, MaxPath;
    LowestRatio();
    RatioDecreasing(a, MAX_TICK);
    FoldShrinks(Q128, a, 0);
  }

  // ----- the price grid -----

  /** The inverted ratio of a positive tick also grows by more than one grid unit per tick. */
  lemma InverseGap(p: nat, q: nat)
    requires 0 < q && q + Q32 + 2 <= p <= Q128
    ensures MAX_UINT256 / p + Q32 + 1 <= MAX_UINT256 / q
  {
    var m := MAX_UINT256;
    var f := m / p;
    FloorIs(m, p, f);
    var g := Q32 + 1;
    // f * p <= m, and q <= p - g - 1, so (f + g) * q <= m
    MulMonotone(q, p - g - 1, f + g);
    assert (f + g) * (p - g - 1) == f * p - f * (g + 1) + g * (p - g - 1);
    InverseSlack(f, p);
    FloorAtLeast(m, q, f + g);
  }

  lemma InverseSlack(f: nat, p: nat)
    requires Q32 + 2 < p <= Q128 && f == MAX_UINT256 / p
    ensures (Q32 + 1) * (p - Q32 - 2) <= f * (Q32 + 2)
  {
    FloorAtLeast(MAX_UINT256, p, Q128 - 1);
    MulMonotone(p, Q128, Q128 - 1);
    assert f >= Q128 - 1;
  }

  lemma GridStep(x: nat, y: nat)
    requires x + Q32 <= y
    ensures (x + Q32 - 1) / Q32 < (y + Q32 - 1) / Q32
  {
    FloorSuperadditive(x + Q32 - 1, Q32, Q32);
    FloorMonotone(x + Q32 - 1 + Q32, y + Q32 - 1, Q32);
  }

  lemma PositiveStep(a: nat)
    requires a < MAX_TICK
    ensures Ratio(a) > 0 && Ratio(a + 1) > 0
    ensures MAX_UINT256 / Ratio(a) + Q32 + 1 <= MAX_UINT256 / Ratio(a + 1)
  {
    hide Factor, LowOnes, Margin, MaxBits, MaxPath;
    RatioRange(a + 1);
    RatioRange(a);
    RatioGap(a);
    InverseGap(Ratio(a), Ratio(a + 1));
  }

  lemma NextTickIsDearer(tick: int)
    requires MIN_TICK <= tick < MAX_TICK
    ensures SqrtPrice(tick) < SqrtPrice(tick + 1)
  {
    hide Ratio;
    if tick < 0 {
      RatioGap(-tick - 1);
      GridStep(Ratio(-tick), Ratio(-tick - 1));
    } else {
      PositiveStep(tick);
      RatioZero();
      GridStep(if tick == 0 then Ratio(0) else MAX_UINT256 / Ratio(tick), MAX_UINT256 / Ratio(tick + 1));
    }
  }

  lemma {:induction false} FoldZero(x: nat, k: nat)
    requires k <= 20
    ensures Fold(x, 0, k) == x
    decreases 20 - k
  {
    hide Factor;
    if k < 20 {
      FoldZero(x, k + 1);
    }
  }

  /** One tick above par. */
  lemma SqrtPriceAtOne()
    ensures SqrtPrice(1) == 79_232_123_823_359_799_118_286_999_568
  {
    hide Ratio;
    RatioOne();
  }

  lemma RatioOne()
    ensures Ratio(1) == 0xfffc_b933_bd6f_ad37_aa2d_162d_1a59_4001
  {
    LowOnesStep(0);
    TableEnds();
    OneBit(Q128, 0);
    FoldZero(Scale(Q128, 0), 1);
  }

  lemma OneBit(x: nat, k: nat)
    requires k < 20
    ensures Fold(x, 1, k) == Fold(Scale(x, k), 0, k + 1)
  {
    hide Scale;
  }

  lemma RatioZero()
    ensures Ratio(0) == Q128
  {
    FoldZero(Q128, 0);
  }

  /** Every higher tick has a strictly higher sqrt price. */
  lemma {:induction false} SqrtPriceIncreasing(low: int, high: int)
    requires MIN_TICK <= low < high <= MAX_TICK
    ensures SqrtPrice(low) < SqrtPrice(high)
    decreases high - low
  {
    hide Factor, LowOnes, Margin, MaxBits, MaxPath;
    NextTickIsDearer(high - 1);
    if low < high - 1 {
      SqrtPriceIncreasing(low, high - 1);
    }
  }

  /** The table ends at the published price bounds. */
  lemma SqrtPriceEnds()
    ensures SqrtPrice(MIN_TICK) == MIN_SQRT_PRICE
    ensures SqrtPrice(MAX_TICK) == MAX_SQRT_PRICE
    ensures SqrtPrice(0) == Q96
  {
    hide Ratio;
    LowestRatio();
    RatioZero();
  }

  lemma SqrtPriceRange(tick: int)
    requires ValidTick(tick)
    ensures MIN_SQRT_PRICE <= SqrtPrice(tick) <= MAX_SQRT_PRICE
  {
    hide Factor, LowOnes, Margin, MaxBits, MaxPath;
    SqrtPriceEnds();
    if MIN_TICK < tick {
      SqrtPriceIncreasing(MIN_TICK, tick);
    }
    if tick < MAX_TICK {
      SqrtPriceIncreasing(tick, MAX_TICK);
    }
  }
}
