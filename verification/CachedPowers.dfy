/**
 * Powers of ten as 64-bit significands with binary exponents. Every row of the table is right to
 * half a unit, and the lookup finds the row whose exponent lies in the window that is asked for.
 */
module CachedPowers {
  import opened Powers
  import opened DigitText
  import opened DigitCount
  import opened FallbackFormat
  import opened Limbs

  /** The number f * 2^e. */
  datatype Fp = Fp(f: nat, e: int)

  /** The cached powers 10^-348, 10^-340, ..., 10^340. */
  function Row(i: nat): Fp
    requires i < 87
  {
    if i < 11 then
      if i == 0 then Fp(0xFA8F_D5A0_081C_0288, -1220) else if i == 1 then Fp(0xBAAE_E17F_A23E_BF76, -1193)
      else if i == 2 then Fp(0x8B16_FB20_3055_AC76, -1166) else if i == 3 then Fp(0xCF42_894A_5DCE_35EA, -1140)
      else if i == 4 then Fp(0x9A6B_B0AA_5565_3B2D, -1113) else if i == 5 then Fp(0xE61A_CF03_3D1A_45DF, -1087)
      else if i == 6 then Fp(0xAB70_FE17_C79A_C6CA, -1060) else if i == 7 then Fp(0xFF77_B1FC_BEBC_DC4F, -1034)
      else if i == 8 then Fp(0xBE56_91EF_416B_D60C, -1007) else if i == 9 then Fp(0x8DD0_1FAD_907F_FC3C, -980)
      else Fp(0xD351_5C28_3155_9A83, -954)
    else if i < 22 then
      if i == 11 then Fp(0x9D71_AC8F_ADA6_C9B5, -927) else if i == 12 then Fp(0xEA9C_2277_23EE_8BCB, -901)
      else if i == 13 then Fp(0xAECC_4991_4078_536D, -874) else if i == 14 then Fp(0x823C_1279_5DB6_CE57, -847)
      else if i == 15 then Fp(0xC210_9436_4DFB_5637, -821) else if i == 16 then Fp(0x9096_EA6F_3848_984F, -794)
      else if i == 17 then Fp(0xD774_85CB_2582_3AC7, -768) else if i == 18 then Fp(0xA086_CFCD_97BF_97F4, -741)
      else if i == 19 then Fp(0xEF34_0A98_172A_ACE5, -715) else if i == 20 then Fp(0xB238_67FB_2A35_B28E, -688)
      else Fp(0x84C8_D4DF_D2C6_3F3B, -661)
    else if i < 33 then
      if i == 22 then Fp(0xC5DD_4427_1AD3_CDBA, -635) else if i == 23 then Fp(0x936B_9FCE_BB25_C996, -608)
      else if i == 24 then Fp(0xDBAC_6C24_7D62_A584, -582) else if i == 25 then Fp(0xA3AB_6658_0D5F_DAF6, -555)
      else if i == 26 then Fp(0xF3E2_F893_DEC3_F126, -529) else if i == 27 then Fp(0xB5B5_ADA8_AAFF_80B8, -502)
      else if i == 28 then Fp(0x8762_5F05_6C7C_4A8B, -475) else if i == 29 then Fp(0xC9BC_FF60_34C1_3053, -449)
      else if i == 30 then Fp(0x964E_858C_91BA_2655, -422) else if i == 31 then Fp(0xDFF9_7724_7029_7EBD, -396)
      else Fp(0xA6DF_BD9F_B8E5_B88F, -369)
    else if i < 44 then
      if i == 33 then Fp(0xF8A9_5FCF_8874_7D94, -343) else if i == 34 then Fp(0xB944_7093_8FA8_9BCF, -316)
      else if i == 35 then Fp(0x8A08_F0F8_BF0F_156B, -289) else if i == 36 then Fp(0xCDB0_2555_6531_31B6, -263)
      else if i == 37 then Fp(0x993F_E2C6_D07B_7FAC, -236) else if i == 38 then Fp(0xE45C_10C4_2A2B_3B06, -210)
      else if i == 39 then Fp(0xAA24_2499_6973_92D3, -183) else if i == 40 then Fp(0xFD87_B5F2_8300_CA0E, -157)
      else if i == 41 then Fp(0xBCE5_0864_9211_1AEB, -130) else if i == 42 then Fp(0x8CBC_CC09_6F50_88CC, -103)
      else Fp(0xD1B7_1758_E219_652C, -77)
    else if i < 55 then
      if i == 44 then Fp(0x9C40_0000_0000_0000, -50) else if i == 45 then Fp(0xE8D4_A510_0000_0000, -24)
      else if i == 46 then Fp(0xAD78_EBC5_AC62_0000, 3) else if i == 47 then Fp(0x813F_3978_F894_0984, 30)
      else if i == 48 then Fp(0xC097_CE7B_C907_15B3, 56) else if i == 49 then Fp(0x8F7E_32CE_7BEA_5C70, 83)
      else if i == 50 then Fp(0xD5D2_38A4_ABE9_8068, 109) else if i == 51 then Fp(0x9F4F_2726_179A_2245, 136)
      else if i == 52 then Fp(0xED63_A231_D4C4_FB27, 162) else if i == 53 then Fp(0xB0DE_6538_8CC8_ADA8, 189)
      else Fp(0x83C7_088E_1AAB_65DB, 216)
    else if i < 66 then
      if i == 55 then Fp(0xC45D_1DF9_4271_1D9A, 242) else if i == 56 then Fp(0x924D_692C_A61B_E758, 269)
      else if i == 57 then Fp(0xDA01_EE64_1A70_8DEA, 295) else if i == 58 then Fp(0xA26D_A399_9AEF_774A, 322)
      else if i == 59 then Fp(0xF209_787B_B47D_6B85, 348) else if i == 60 then Fp(0xB454_E4A1_79DD_1877, 375)
      else if i == 61 then Fp(0x865B_8692_5B9B_C5C2, 402) else if i == 62 then Fp(0xC835_53C5_C896_5D3D, 428)
      else if i == 63 then Fp(0x952A_B45C_FA97_A0B3, 455) else if i == 64 then Fp(0xDE46_9FBD_99A0_5FE3, 481)
      else Fp(0xA59B_C234_DB39_8C25, 508)
    else if i < 77 then
      if i == 66 then Fp(0xF6C6_9A72_A398_9F5C, 534) else if i == 67 then Fp(0xB7DC_BF53_54E9_BECE, 561)
      else if i == 68 then Fp(0x88FC_F317_F222_41E2, 588) else if i == 69 then Fp(0xCC20_CE9B_D35C_78A5, 614)
      else if i == 70 then Fp(0x9816_5AF3_7B21_53DF, 641) else if i == 71 then Fp(0xE2A0_B5DC_971F_303A, 667)
      else if i == 72 then Fp(0xA8D9_D153_5CE3_B396, 694) else if i == 73 then Fp(0xFB9B_7CD9_A4A7_443C, 720)
      else if i == 74 then Fp(0xBB76_4C4C_A7A4_4410, 747) else if i == 75 then Fp(0x8BAB_8EEF_B640_9C1A, 774)
      else Fp(0xD01F_EF10_A657_842C, 800)
    else
      if i == 77 then Fp(0x9B10_A4E5_E991_3129, 827) else if i == 78 then Fp(0xE710_9BFB_A19C_0C9D, 853)
      else if i == 79 then Fp(0xAC28_20D9_623B_F429, 880) else if i == 80 then Fp(0x8044_4B5E_7AA7_CF85, 907)
      else if i == 81 then Fp(0xBF21_E440_03AC_DD2D, 933) else if i == 82 then Fp(0x8E67_9C2F_5E44_FF8F, 960)
      else if i == 83 then Fp(0xD433_179D_9C8C_B841, 986) else if i == 84 then Fp(0x9E19_DB92_B4E3_1BA9, 1013)
      else if i == 85 then Fp(0xEB96_BF6E_BADF_77D9, 1039) else Fp(0xAF87_023B_9BF0_EE6B, 1066)
  }

  const FIRST_DEC_EXP := -348
  const DEC_EXP_STEP := 8

  function DecExp(i: int): int {
    FIRST_DEC_EXP + i * DEC_EXP_STEP
  }

  // ----- every row is right to half a unit -----

  /** n rows from row i, the values of which are ten / two. */
  predicate Rising(i: nat, n: nat, ten: nat, two: nat)
    requires i + n <= 87
    decreases n
  {
    n == 0 || (
      && Nearest(Row(i).f, ten, two)
      && (n > 1 ==> Row(i + 1).e == Row(i).e + 26 || Row(i + 1).e == Row(i).e + 27)
      && Rising(i + 1, n - 1, ten * 100000000,
                if n > 1 && Row(i + 1).e == Row(i).e + 27 then two * 0x800_0000 else two * 0x400_0000))
  }

  /** n rows down from row i, the values of which are two / ten. */
  predicate Falling(i: int, n: nat, ten: nat, two: nat)
    requires n <= i + 1 <= 87
    decreases n
  {
    n == 0 || (
      && Nearest(Row(i).f, two, ten)
      && (n > 1 ==> Row(i - 1).e == Row(i).e - 26 || Row(i - 1).e == Row(i).e - 27)
      && Falling(i - 1, n - 1, ten * 100000000,
                 if n > 1 && Row(i - 1).e == Row(i).e - 27 then two * 0x800_0000 else two * 0x400_0000))
  }

  lemma {:induction false} RisingRow(i: nat, n: nat, j: nat)
    requires i <= j < i + n <= 87 && DecExp(i) >= 0 && Row(i).e >= 0
    requires Rising(i, n, Pow(10, DecExp(i)), Pow(2, Row(i).e))
    ensures Row(j).e >= 0 && Nearest(Row(j).f, Pow(10, DecExp(j)), Pow(2, Row(j).e))
    decreases n
  {
    hide Row, Pow, Nearest;
    if i < j {
      EightMore(DecExp(i));
      BinarySteps(Row(i).e);
      RisingRow(i + 1, n - 1, j);
    }
  }

  lemma {:induction false} FallingRow(i: int, n: nat, j: int)
    requires i - n < j <= i < 87 && n <= i + 1 && DecExp(i) <= 0 && Row(i).e <= 0
    requires Falling(i, n, Pow(10, -DecExp(i)), Pow(2, -Row(i).e))
    ensures Row(j).e <= 0 && Nearest(Row(j).f, Pow(2, -Row(j).e), Pow(10, -DecExp(j)))
    decreases n
  {
    hide Row, Pow, Nearest;
    if j < i {
      EightMore(-DecExp(i));
      BinarySteps(-Row(i).e);
      FallingRow(i - 1, n - 1, j);
    }
  }

  lemma EightMore(k: nat)
    ensures Pow(10, k + 8) == Pow(10, k) * 100000000
  {
    TenPowers();
    hide Pow;
    PowAdd(10, k, 8);
  }

  lemma BinarySteps(e: nat)
    ensures Pow(2, e + 26) == Pow(2, e) * 0x400_0000 && Pow(2, e + 27) == Pow(2, e) * 0x800_0000
  {
    TwoPowers();
    EightPowers();
    hide Pow;
    PowAdd(2, e, 26);
    PowAdd(2, e, 27);
  }

  // The rows are checked eight at a time, from powers that are built up in the same steps.

  const TEN_64: nat := 10000000000000000000000000000000000000000000000000000000000000000
  const TWO_212: nat := 0x100000000000000000000000000000000000000000000000000000

  lemma StartPowers()
    ensures Pow(10, 4) == 10000 && Pow(10, 28) == 10000000000000000000000000000 && Pow(10, 64) == TEN_64
    ensures Pow(2, 30) == 0x4000_0000 && Pow(2, 77) == 0x2000_0000_0000_0000_0000
  {
    SmallPowers();
    TenPowers();
    TwoPowers();
    EightPowers();
    hide Pow;
    PowAdd(10, 8, 20);
    PowAdd(10, 16, 16);
    PowAdd(10, 32, 32);
    PowAdd(2, 27, 3);
    PowAdd(2, 64, 13);
  }

  lemma WidePower()
    ensures Pow(2, 212) == TWO_212
  {
    TwoPowers();
    hide Pow;
    PowAdd(2, 53, 53);
    PowAdd(2, 106, 106);
  }

  lemma NextStart(k: nat, e: nat)
    ensures Pow(10, k + 64) == TEN_64 * Pow(10, k)
    ensures Pow(2, e + 212) == TWO_212 * Pow(2, e) && Pow(2, e + 213) == 2 * (TWO_212 * Pow(2, e))
  {
    StartPowers();
    WidePower();
    assert Pow(2, e + 213) == 2 * Pow(2, e + 212);
    hide Pow;
    PowAdd(10, k, 64);
    PowAdd(2, e, 212);
  }

  lemma RisingStarts()
    ensures Pow(10, 92) == TEN_64 * Pow(10, 28) && Pow(2, 242) == TWO_212 * Pow(2, 30)
    ensures Pow(10, 156) == TEN_64 * Pow(10, 92) && Pow(2, 455) == 2 * (TWO_212 * Pow(2, 242))
    ensures Pow(10, 220) == TEN_64 * Pow(10, 156) && Pow(2, 667) == TWO_212 * Pow(2, 455)
    ensures Pow(10, 284) == TEN_64 * Pow(10, 220) && Pow(2, 880) == 2 * (TWO_212 * Pow(2, 667))
  {
    hide Pow, TEN_64, TWO_212;
    NextStart(28, 30);
    NextStart(92, 242);
    NextStart(156, 455);
    NextStart(220, 667);
  }

  lemma FallingStarts()
    ensures Pow(10, 68) == TEN_64 * Pow(10, 4) && Pow(2, 289) == TWO_212 * Pow(2, 77)
    ensures Pow(10, 132) == TEN_64 * Pow(10, 68) && Pow(2, 502) == 2 * (TWO_212 * Pow(2, 289))
    ensures Pow(10, 196) == TEN_64 * Pow(10, 132) && Pow(2, 715) == 2 * (TWO_212 * Pow(2, 502))
    ensures Pow(10, 260) == TEN_64 * Pow(10, 196) && Pow(2, 927) == TWO_212 * Pow(2, 715)
    ensures Pow(10, 324) == TEN_64 * Pow(10, 260) && Pow(2, 1140) == 2 * (TWO_212 * Pow(2, 927))
  {
    hide Pow, TEN_64, TWO_212;
    NextStart(4, 77);
    NextStart(68, 289);
    NextStart(132, 502);
    NextStart(196, 715);
    NextStart(260, 927);
  }

  lemma Rows47()
    ensures Row(47).e == 30 && Rising(47, 8, Pow(10, 28), Pow(2, 30))
  {
    StartPowers();
    RisingStarts();
    hide Pow;
  }

  lemma Rows55()
    ensures Row(55).e == 242 && Rising(55, 8, Pow(10, 92), Pow(2, 242))
  {
    StartPowers();
    RisingStarts();
    hide Pow;
  }

  lemma Rows63()
    ensures Row(63).e == 455 && Rising(63, 8, Pow(10, 156), Pow(2, 455))
  {
    StartPowers();
    RisingStarts();
    hide Pow;
  }

  lemma Rows71()
    ensures Row(71).e == 667 && Rising(71, 8, Pow(10, 220), Pow(2, 667))
  {
    StartPowers();
    RisingStarts();
    hide Pow;
  }

  lemma Rows79()
    ensures Row(79).e == 880 && Rising(79, 8, Pow(10, 284), Pow(2, 880))
  {
    StartPowers();
    RisingStarts();
    hide Pow;
  }

  lemma Rows43()
    ensures Row(43).e == -77 && Falling(43, 8, Pow(10, 4), Pow(2, 77))
  {
    StartPowers();
    FallingStarts();
    hide Pow;
  }

  lemma Rows35()
    ensures Row(35).e == -289 && Falling(35, 8, Pow(10, 68), Pow(2, 289))
  {
    StartPowers();
    FallingStarts();
    hide Pow;
  }

  lemma Rows27()
    ensures Row(27).e == -502 && Falling(27, 8, Pow(10, 132), Pow(2, 502))
  {
    StartPowers();
    FallingStarts();
    hide Pow;
  }

  lemma Rows19()
    ensures Row(19).e == -715 && Falling(19, 8, Pow(10, 196), Pow(2, 715))
  {
    StartPowers();
    FallingStarts();
    hide Pow;
  }

  lemma Rows11()
    ensures Row(11).e == -927 && Falling(11, 8, Pow(10, 260), Pow(2, 927))
  {
    StartPowers();
    FallingStarts();
    hide Pow;
  }

  lemma Rows3()
    ensures Row(3).e == -1140 && Falling(3, 4, Pow(10, 324), Pow(2, 1140))
  {
    StartPowers();
    FallingStarts();
    hide Pow;
  }

  lemma UpperRow(j: nat)
    requires 47 <= j < 87
    ensures Row(j).e >= 0 && Nearest(Row(j).f, Pow(10, DecExp(j)), Pow(2, Row(j).e))
  {
    hide Row, Pow, Nearest, Rising;
    if j < 55 {
      Rows47();
      RisingRow(47, 8, j);
    } else if j < 63 {
      Rows55();
      RisingRow(55, 8, j);
    } else if j < 71 {
      Rows63();
      RisingRow(63, 8, j);
    } else if j < 79 {
      Rows71();
      RisingRow(71, 8, j);
    } else {
      Rows79();
      RisingRow(79, 8, j);
    }
  }

  lemma LowerRow(j: nat)
    requires j < 44
    ensures Row(j).e <= 0 && Nearest(Row(j).f, Pow(2, -Row(j).e), Pow(10, -DecExp(j)))
  {
    hide Row, Pow, Nearest, Falling;
    if j > 35 {
      Rows43();
      FallingRow(43, 8, j);
    } else if j > 27 {
      Rows35();
      FallingRow(35, 8, j);
    } else if j > 19 {
      Rows27();
      FallingRow(27, 8, j);
    } else if j > 11 {
      Rows19();
      FallingRow(19, 8, j);
    } else if j > 3 {
      Rows11();
      FallingRow(11, 8, j);
    } else {
      Rows3();
      FallingRow(3, 4, j);
    }
  }

  /** The three rows between are exact. */
  lemma MiddleRow(j: nat)
    requires 44 <= j < 47
    ensures if j == 46 then Row(j).e == 3 && Row(j).f * Pow(2, 3) == Pow(10, 20)
            else Row(j).e < 0 && Row(j).f == Pow(2, -Row(j).e) * Pow(10, DecExp(j))
  {
    MiddlePowers();
    hide Pow;
  }

  lemma MiddlePowers()
    ensures Pow(10, 4) == 10000 && Pow(10, 12) == 1000000000000 && Pow(10, 20) == 100000000000000000000
    ensures Pow(2, 3) == 8 && Pow(2, 24) == 0x100_0000 && Pow(2, 50) == 0x4_0000_0000_0000
  {
    SmallPowers();
    TenPowers();
    TwoPowers();
    EightPowers();
    assert Pow(2, 50) == 2 * Pow(2, 49);
  }

  lemma ExactIsNearest(q: int, d: nat)
    ensures Nearest(q, q * d, d)
  {
  }

  /** Powers of two and ten stand on either side of the fraction, according to their signs. */
  lemma SmallFraction(e: int, k: int)
    requires e <= 0 && k <= 0
    ensures Over(1, -e, -k) == Pow(2, -e) && Under(-e, -k) == Pow(10, -k)
  {
    UnitPowers();
    hide Pow;
  }

  lemma LargeFraction(e: int, k: int)
    requires e >= 0 && k >= 0
    ensures Over(1, -e, -k) == Pow(10, k) && Under(-e, -k) == Pow(2, e)
  {
    UnitPowers();
    hide Pow;
  }

  lemma WholeFraction(e: int, k: int)
    requires e <= 0 && k >= 0
    ensures Over(1, -e, -k) == Pow(2, -e) * Pow(10, k) && Under(-e, -k) == 1
  {
    UnitPowers();
    hide Pow;
  }

  /** Every row is right to half a unit of its significand. */
  lemma RowIsNearest(i: nat)
    requires i < 87
    ensures Nearest(Row(i).f, Over(1, -Row(i).e, -DecExp(i)), Under(-Row(i).e, -DecExp(i)))
  {
    hide Row, Pow, Over, Under, Nearest;
    var c, e, k := Row(i).f, Row(i).e, DecExp(i);
    if i < 44 {
      LowerRow(i);
      SmallFraction(e, k);
    } else if i >= 47 {
      UpperRow(i);
      LargeFraction(e, k);
    } else {
      MiddleRow(i);
      if i == 46 {
        LargeFraction(e, k);
        ExactIsNearest(c, Pow(2, 3));
      } else {
        WholeFraction(e, k);
        ExactIsNearest(c, 1);
      }
    }
  }

  /** Every significand fills 64 bits. */
  lemma RowFills(i: nat)
    requires i < 87
    ensures 0x8000_0000_0000_0000 <= Row(i).f < 0x1_0000_0000_0000_0000
  {
  }

  // ----- the lookup -----

  const LOG10_2_SIGNIFICAND := 0x4D10_4D42_7DE7_FBCC

  /** Division as the original has it, towards zero. */
  function Truncated(n: int, d: nat): int
    requires d > 0
  {
    if n < 0 then -(-n / d) else n / d
  }

  /** Where the lookup keeps to its window: always from -1221 on, and below only by luck. */
  predicate InWindow(minExponent: int) {
    minExponent >= -1221 || -1248 <= minExponent <= -1243
  }

  /** The decimal exponent that is estimated for m, and the row it leads to. */
  lemma RowCovers(m: int, estimate: int, i: nat)
    requires 0x1_0000_0000 * estimate <= (m + 63) * 0x4D10_4D42 + 0xFFFF_FFFF < 0x1_0000_0000 * (estimate + 1)
    requires i < 87 && i == Truncated(estimate + 347, 8) + 1
    ensures m <= Row(i).e <= m + 28 <==> InWindow(m)
  {
  }

  /**
   * The cached power for a wanted binary exponent, and its decimal exponent. The wanted exponents
   * are those for which the table has a row; the window that is promised for the exponent of the
   * power is met for all of them from -1221 on and for hardly any below.
   */
  method GetCachedPower(minExponent: int) returns (power: Fp, exp10: int)
    requires -1268 <= minExponent <= 1066
    ensures -348 <= exp10 <= 340
    ensures minExponent <= power.e <= minExponent + 28 <==> InWindow(minExponent)
    ensures 0x8000_0000_0000_0000 <= power.f < 0x1_0000_0000_0000_0000
    ensures Nearest(power.f, Over(1, -power.e, -exp10), Under(-power.e, -exp10))
  {
    hide Row, Nearest, Over, Under, InWindow;
    var significand := LOG10_2_SIGNIFICAND / 0x1_0000_0000;
    var index := ((minExponent + 63) * significand + 0xFFFF_FFFF) / 0x1_0000_0000;
    ghost var estimate := index;
    index := Truncated(index - FIRST_DEC_EXP - 1, DEC_EXP_STEP) + 1;
    exp10 := FIRST_DEC_EXP + index * DEC_EXP_STEP;
    power := Row(index);
    RowCovers(minExponent, estimate, index);
    RowIsNearest(index);
    RowFills(index);
  }

  /** One further on either side there is no such row. */
  lemma TableEnds()
    ensures Truncated(((1067 + 63) * 0x4D10_4D42 + 0xFFFF_FFFF) / 0x1_0000_0000 + 347, 8) + 1 == 87
    ensures Truncated(((-1269 + 63) * 0x4D10_4D42 + 0xFFFF_FFFF) / 0x1_0000_0000 + 347, 8) + 1 == -1
  {
  }

  // ----- normalization -----

  const IMPLICIT_BIT := 0x10_0000_0000_0000

  /** The significand of a double moved up until it fills 64 bits. */
  method Normalize(value: Fp) returns (r: Fp)
    requires 0 < value.f < 2 * IMPLICIT_BIT
    ensures 0x8000_0000_0000_0000 <= r.f < 0x1_0000_0000_0000_0000
    ensures value.e - 63 <= r.e <= value.e - 11 && r.f == value.f * Pow(2, value.e - r.e)
  {
    hide Pow;
    UnitPowers();
    var f, e := value.f, value.e;
    while f / IMPLICIT_BIT % 2 == 0
      invariant 0 < f < 2 * IMPLICIT_BIT && e <= value.e
      invariant f == value.f * Pow(2, value.e - e)
      decreases 2 * IMPLICIT_BIT - f
    {
      BitClear(f);
      MulDouble(value.f, value.e - e);
      f := Wrap64(f * 2);
      e := e - 1;
    }
    var offset := 64 - 52 - 1;
    BitClear(f);
    ShiftBound(value.f, value.e - e, f);
    Eleven(value.f, value.e - e);
    r := Fp(Wrap64(f * 0x800), e - offset);
  }

  lemma BitClear(f: nat)
    requires f < 2 * IMPLICIT_BIT
    ensures f / IMPLICIT_BIT % 2 == 0 <==> f < IMPLICIT_BIT
  {
    if f < IMPLICIT_BIT {
      DivUnique(f, IMPLICIT_BIT, 0, f);
    } else {
      DivUnique(f, IMPLICIT_BIT, 1, f - IMPLICIT_BIT);
    }
  }

  lemma MulDouble(f: nat, n: nat)
    ensures f * Pow(2, n + 1) == f * Pow(2, n) * 2
  {
    assert Pow(2, n + 1) == 2 * Pow(2, n);
  }

  lemma Eleven(f: nat, n: nat)
    ensures f * Pow(2, n + 11) == f * Pow(2, n) * 0x800
  {
    PowAdd(2, n, 11);
    assert Pow(2, 11) == 0x800;
    hide Pow;
    MulAssoc(f, Pow(2, n), 0x800);
  }

  lemma ShiftBound(f: nat, n: nat, shifted: nat)
    requires f > 0 && shifted == f * Pow(2, n) < 2 * IMPLICIT_BIT
    ensures n <= 52
  {
    TwoPowers();
    hide Pow;
    MulLowerBound(f, Pow(2, n));
    if n > 52 {
      PowMonotone(2, 53, n);
    }
  }
}
