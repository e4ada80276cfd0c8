/**
 What the twenty constants of src/protocol/tick-math.ts:60-81 are: constant k is the nearest integer to
 2^128 times 1.0001^(-2^k / 2), down to its last digit. The powers are enclosed between two 256-bit
 fractions that are squared from one constant to the next.
 */
module TickConstants {
  import opened Arithmetic
  import opened BinaryLog
  import opened TickTable

  const Q256: nat := Q128 * Q128

  /** One over 1.0001. */
  const STEP: real := 10000.0 / 10001.0

  /** 1.0001^(-2^k) from below, in units of 2^-256. */
  function PowerLow(k: nat): nat
    requires k < 20
  {
    if k == 0 then 0xfff9_7272_373d_4132_59a4_6990_580e_2139_b8e3_eb6b_6eb5_7c60_c221_885b_8954_8c60
    else if k == 1 then 0xfff2_e50f_5f65_6932_ef12_357c_f3c7_fdcb_98a5_078d_a53e_fa26_beae_7803_446f_0f0f
    else if k == 2 then 0xffe5_caca_7e10_e4e6_1c36_24ea_a094_1ccf_f04a_8a21_2009_f027_f9bc_0aa9_0ef3_7331
    else if k == 3 then 0xffcb_9843_d60f_6159_c9db_5883_5c92_6643_ad7c_09ed_8821_ecfd_3542_ca2e_646b_1ab2
    else if k == 4 then 0xff97_3b41_fa98_c081_472e_6896_dfb2_54bf_81ef_047c_569d_b3b2_81e4_2e93_fd42_ce7a
    else if k == 5 then 0xff2e_a164_66c9_6a38_43ec_78b3_26b5_2860_97e9_315c_35bf_fb5c_6ae7_9a39_71d4_b9e1
    else if k == 6 then 0xfe5d_ee04_6a99_a2a8_11c4_61f1_969c_3052_f544_235f_4d64_fdc8_7985_3b3c_af63_cf8f
    else if k == 7 then 0xfcbe_86c7_900a_88ae_dcff_c83b_479a_a3a3_dc26_8667_328f_4b9a_0cf2_6b80_2567_4f6c
    else if k == 8 then 0xf987_a725_3ac4_1317_6f2b_074c_f781_5e53_facb_f190_6fa6_5ab8_4404_323c_f11c_e741
    else if k == 9 then 0xf339_2b08_22b7_0005_940c_7a39_8e4b_70f2_ca02_c578_b1d4_2159_9c54_537e_8f67_70c3
    else if k == 10 then 0xe715_9475_a2c2_9b74_43b2_9c7f_a6e8_89d8_9a78_8532_63da_3b31_83b9_d1cf_5c6c_dfdb
    else if k == 11 then 0xd097_f3bd_fd20_22b8_845a_d8f7_92aa_5825_6a3d_f3fc_12a5_c155_c2a4_a16f_d5e0_19c1
    else if k == 12 then 0xa9f7_4646_2d87_0fdf_8a65_dc1f_90e0_61e4_fa16_0424_952d_52a6_6c57_f61f_b9cd_a982
    else if k == 13 then 0x70d8_69a1_56d2_a1b8_90bb_3df6_2baf_32f6_c497_44d5_020b_5c91_44ef_b8f7_3f24_e934
    else if k == 14 then 0x31be_135f_97d0_8fd9_8123_1505_542f_cfa5_86c1_e84c_fea4_ad05_aaae_cca6_3fba_c1ea
    else if k == 15 then 0x9aa_508b_5b7a_84e1_c677_de54_f3e9_9bc8_fdac_1d58_0d2e_a031_ae1e_60fc_4955_04da
    else if k == 16 then 0x5d_6af8_dedb_8119_6699_c329_225e_e604_4e0e_6dc9_1bb2_843f_8e3a_b8d4_dc78_9da3
    else if k == 17 then 0x2216_e584_f5fa_1ea9_2604_1bed_fe97_b74d_cb4f_f36b_9c96_f9ed_b4e1_a5f5_70e4
    else if k == 18 then 0x48a_1703_91f7_dc42_444e_8fa2_3b8a_d7d6_6987_e9cb_4878_0204_79ce_c6fe
    else 0x14_9b34_ee7a_c262_d231_e281_7b2d_d1cd_029c_84a8_0f8f_fee2
  }

  /** 1.0001^(-2^k) from above, in units of 2^-256. */
  function PowerHigh(k: nat): nat
    requires k < 20
  {
    if k == 0 then 0xfff9_7272_373d_4132_59a4_6990_580e_2139_b8e3_eb6b_6eb5_7c60_c221_885b_8954_8c61
    else if k == 1 then 0xfff2_e50f_5f65_6932_ef12_357c_f3c7_fdcb_98a5_078d_a53e_fa26_beae_7803_446f_0f12
    else if k == 2 then 0xffe5_caca_7e10_e4e6_1c36_24ea_a094_1ccf_f04a_8a21_2009_f027_f9bc_0aa9_0ef3_7338
    else if k == 3 then 0xffcb_9843_d60f_6159_c9db_5883_5c92_6643_ad7c_09ed_8821_ecfd_3542_ca2e_646b_1ac1
    else if k == 4 then 0xff97_3b41_fa98_c081_472e_6896_dfb2_54bf_81ef_047c_569d_b3b2_81e4_2e93_fd42_ce99
    else if k == 5 then 0xff2e_a164_66c9_6a38_43ec_78b3_26b5_2860_97e9_315c_35bf_fb5c_6ae7_9a39_71d4_ba20
    else if k == 6 then 0xfe5d_ee04_6a99_a2a8_11c4_61f1_969c_3052_f544_235f_4d64_fdc8_7985_3b3c_af63_d00d
    else if k == 7 then 0xfcbe_86c7_900a_88ae_dcff_c83b_479a_a3a3_dc26_8667_328f_4b9a_0cf2_6b80_2567_5068
    else if k == 8 then 0xf987_a725_3ac4_1317_6f2b_074c_f781_5e53_facb_f190_6fa6_5ab8_4404_323c_f11c_e933
    else if k == 9 then 0xf339_2b08_22b7_0005_940c_7a39_8e4b_70f2_ca02_c578_b1d4_2159_9c54_537e_8f67_748f
    else if k == 10 then 0xe715_9475_a2c2_9b74_43b2_9c7f_a6e8_89d8_9a78_8532_63da_3b31_83b9_d1cf_5c6c_e713
    else if k == 11 then 0xd097_f3bd_fd20_22b8_845a_d8f7_92aa_5825_6a3d_f3fc_12a5_c155_c2a4_a16f_d5e0_26ca
    else if k == 12 then 0xa9f7_4646_2d87_0fdf_8a65_dc1f_90e0_61e4_fa16_0424_952d_52a6_6c57_f61f_b9cd_bec1
    else if k == 13 then 0x70d8_69a1_56d2_a1b8_90bb_3df6_2baf_32f6_c497_44d5_020b_5c91_44ef_b8f7_3f25_056c
    else if k == 14 then 0x31be_135f_97d0_8fd9_8123_1505_542f_cfa5_86c1_e84c_fea4_ad05_aaae_cca6_3fba_dacb
    else if k == 15 then 0x9aa_508b_5b7a_84e1_c677_de54_f3e9_9bc8_fdac_1d58_0d2e_a031_ae1e_60fc_4955_0e86
    else if k == 16 then 0x5d_6af8_dedb_8119_6699_c329_225e_e604_4e0e_6dc9_1bb2_843f_8e3a_b8d4_dc78_9e5f
    else if k == 17 then 0x2216_e584_f5fa_1ea9_2604_1bed_fe97_b74d_cb4f_f36b_9c96_f9ed_b4e1_a5f5_70e5
    else if k == 18 then 0x48a_1703_91f7_dc42_444e_8fa2_3b8a_d7d6_6987_e9cb_4878_0204_79ce_c6ff
    else 0x14_9b34_ee7a_c262_d231_e281_7b2d_d1cd_029c_84a8_0f8f_fee3
  }

  lemma PowerSteps(k: nat)
    requires k < 19
    ensures PowerLow(k + 1) * Q256 <= PowerLow(k) * PowerLow(k)
    ensures PowerHigh(k) * PowerHigh(k) <= PowerHigh(k + 1) * Q256
  {}

  lemma PowerStart()
    ensures PowerLow(0) * 10001 <= 10000 * Q256 <= PowerHigh(0) * 10001
  {}

  /** The square of 2^128 times the root is between the squares half a unit below and above the constant. */
  lemma FactorHalfUnit(k: nat)
    requires k < 20
    ensures (2 * Factor(k) - 1) * (2 * Factor(k) - 1) < 4 * PowerLow(k)
    ensures 4 * PowerHigh(k) < (2 * Factor(k) + 1) * (2 * Factor(k) + 1)
  {}

  /** x is between two fractions of 2^256. */
  ghost predicate Enclosed(x: real, low: nat, high: nat) {
    low as real <= x * Q256 as real <= high as real
  }

  lemma SquareEnclosed(x: real, low: nat, high: nat, low': nat, high': nat)
    requires 0.0 <= x && Enclosed(x, low, high)
    requires low' * Q256 <= low * low && high * high <= high' * Q256
    ensures Enclosed(x * x, low', high')
  {
    AsReal(low', Q256);
    AsReal(high', Q256);
    AsReal(low, low);
    AsReal(high, high);
    SquareScaled(x, Q256 as real, low as real, high as real, low' as real, high' as real);
  }

  lemma AsReal(a: nat, b: nat)
    ensures (a * b) as real == a as real * b as real
  {}

  lemma SquareScaled(x: real, q: real, low: real, high: real, low': real, high': real)
    requires 0.0 <= low <= x * q <= high && 0.0 < q
    requires low' * q <= low * low && high * high <= high' * q
    ensures low' <= x * x * q <= high'
  {
    EncloseProduct(x * q, low, high);
    RegroupSquare(x, q);
    CancelScale(low', x * x * q, q);
    CancelScale(x * x * q, high', q);
  }

  lemma RegroupSquare(x: real, q: real)
    ensures (x * q) * (x * q) == (x * x * q) * q
  {}

  lemma EncloseProduct(y: real, low: real, high: real)
    requires 0.0 <= low <= y <= high
    ensures low * low <= y * y <= high * high
  {
    RealMonotone(low, y, low, y);
    RealMonotone(y, high, y, high);
  }

  lemma CancelScale(x: real, y: real, q: real)
    requires 0.0 < q
    ensures x * q <= y * q ==> x <= y
  {
    if y < x {
      RealStrict(y, x, q);
    }
  }

  lemma {:induction false} PowerEnclosed(k: nat)
    requires k < 20
    ensures 0.0 <= Sq(STEP, k) && Enclosed(Sq(STEP, k), PowerLow(k), PowerHigh(k))
  {
    hide PowerLow, PowerHigh;
    if k == 0 {
      PowerStart();
      StartEnclosed(PowerLow(0), PowerHigh(0));
    } else {
      PowerEnclosed(k - 1);
      PowerSteps(k - 1);
      SquareEnclosed(Sq(STEP, k - 1), PowerLow(k - 1), PowerHigh(k - 1), PowerLow(k), PowerHigh(k));
    }
  }

  lemma StartEnclosed(low: nat, high: nat)
    requires low * 10001 <= 10000 * Q256 <= high * 10001
    ensures Enclosed(STEP, low, high)
  {
    var q := Q256 as real;
    assert STEP * q * 10001.0 == 10000.0 * q;
    assert (low * 10001) as real == low as real * 10001.0 && (high * 10001) as real == high as real * 10001.0;
  }

  /** Constant k is within half a unit of 2^128 times the root of 1.0001^(-2^k): the nearest integer. */
  lemma FactorIsNearest(k: nat)
    requires k < 20
    ensures var square := 4.0 * Q256 as real * Sq(10000.0 / 10001.0, k);
      ((2 * Factor(k) - 1) * (2 * Factor(k) - 1)) as real < square < ((2 * Factor(k) + 1) * (2 * Factor(k) + 1)) as real
  {
    hide PowerLow, PowerHigh, Factor, Sq;
    PowerEnclosed(k);
    FactorHalfUnit(k);
  }
}
