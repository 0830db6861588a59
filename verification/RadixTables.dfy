/** The constant tables of dtoa.c that belong to a radix, and what has to hold of them. */
module RadixTables {
  import opened RadixPowers
  import opened RadixLogs

  const BUFFER_LIMBS: nat := 52

  ///// Printing

  /** With so many digits the nearest number is read as the double. */
  const DTOA_MAX_DIGITS: seq<nat> := [
    54, 35, 28, 24, 22, 20, 19, 18, 17, 17, 16, 16, 15, 15, 15, 14, 14, 14, 14, 14, 13, 13, 13, 13, 13, 13, 13, 12,
    12, 12, 12, 12, 12, 12, 12]

  function MostDigits(radix: nat): nat
    requires 2 <= radix <= 36
  {
    DTOA_MAX_DIGITS[radix - 2]
  }

  const SCALE: nat := 0x100_0000

  /** The scale over log2(radix), rounded, for a radix that is not a power of two. */
  const LOG_FACTORS: seq<nat> := [
    0x000000, 0xa1849d, 0x000000, 0x6e40d2, 0x6308c9, 0x5b3065, 0x000000, 0x50c24e, 0x4d104d, 0x4a0027, 0x4768ce,
    0x452e54, 0x433d00, 0x418677, 0x000000, 0x3ea16b, 0x3d645a, 0x3c43c2, 0x3b3b9a, 0x3a4899, 0x39680b, 0x3897b3,
    0x37d5af, 0x372069, 0x367686, 0x35d6df, 0x354072, 0x34b261, 0x342bea, 0x33ac62, 0x000000, 0x32bfd9, 0x3251dd,
    0x31e8d6, 0x318465]

  function LogFactor(radix: nat): nat
    requires 2 <= radix <= 36
  {
    LOG_FACTORS[radix - 2]
  }

  ///// Reading

  /** How many significant digits are used; the others count as zero, or, in a radix that is a power of two, decide
      ties. */
  const ATOD_MAX_DIGITS: seq<nat> := [
    64, 80, 32, 55, 49, 45, 21, 40, 38, 37, 35, 34, 33, 32, 16, 31, 30, 30, 29, 29, 28, 28, 27, 27, 27, 26, 26, 26,
    26, 25, 12, 25, 25, 24, 24]

  /** radix^MAX_EXPONENT is at least 2^1024, radix^MIN_EXPONENT at most 2^-1075. */
  const MAX_EXPONENT: seq<nat> := [
    1024, 647, 512, 442, 397, 365, 342, 324, 309, 297, 286, 277, 269, 263, 256, 251, 246, 242, 237, 234, 230, 227,
    224, 221, 218, 216, 214, 211, 209, 207, 205, 203, 202, 200, 199]

  const MIN_EXPONENT: seq<int> := [
    -1075, -679, -538, -463, -416, -383, -359, -340, -324, -311, -300, -291, -283, -276, -269, -263, -258, -254,
    -249, -245, -242, -238, -235, -232, -229, -227, -224, -222, -220, -217, -215, -214, -212, -210, -208]

  function MaxDigits(radix: nat): (n: nat)
    requires 2 <= radix <= 36
    ensures 0 < n <= 5 * DigitsPerLimb(radix)
  {
    ATOD_MAX_DIGITS[radix - 2]
  }

  function MaxExponent(radix: nat): (n: nat)
    requires 2 <= radix <= 36
    ensures n > 0
  {
    MAX_EXPONENT[radix - 2]
  }

  function MinExponent(radix: nat): (n: int)
    requires 2 <= radix <= 36
    ensures n < 0
  {
    MIN_EXPONENT[radix - 2]
  }

  ///// Row by row

  /** A number of this many limbs is divided by, or multiplied with, at most. */
  const MOST_LIMBS: nat := 43

  /** The entries for a radix that is not a power of two, fractions around its logarithm, its twos, and the digits per
      limb of its odd part. */
  datatype Row = Row(factor: nat, most: nat, used: nat, high: nat, low: int, x: Ratios, twos: nat, perLimb: nat)

  /** What is needed of them. */
  predicate Fits(r: Row) {
    var m, p, x, d := r.factor, r.most, r.x, r.perLimb;
    m > 0 && 1074 * (m * x.b - x.a * SCALE) < SCALE && 1074 * (x.c * SCALE - m * x.d) < SCALE &&
    0 < p <= 54 && x.b * p <= 63 * x.a && x.d * (p - 1) >= 53 * x.c && p * SCALE <= 64 * m &&
    m * r.twos <= SCALE && d * (SCALE - m * r.twos) <= 32 * m &&
    p * SCALE + 1074 * m <= MOST_LIMBS * d * SCALE && SCALE + 1023 * m <= MOST_LIMBS * d * SCALE &&
    x.d * r.high >= 1024 * x.c && x.d * (0 - r.low) >= 1075 * x.c &&
    r.high <= MOST_LIMBS * d && r.used - r.low <= MOST_LIMBS * d + 1
  }

  /** The row of a radix that is an odd number times a power of two. */
  function RowWith(radix: nat, odd: nat, k: nat): Row
    requires 2 <= radix <= 36 && 3 <= odd <= 35
  {
    Row(LogFactor(radix), MostDigits(radix), MaxDigits(radix), MaxExponent(radix), MinExponent(radix), LogsWith(odd, k),
      k, DIGITS_PER_LIMB[odd - 2])
  }

  function RowOf(radix: nat): Row
    requires 2 <= radix <= 36 && OddPart(radix) > 1
  {
    Row(LogFactor(radix), MostDigits(radix), MaxDigits(radix), MaxExponent(radix), MinExponent(radix), LogsOf(radix),
      TwoShift(radix), DIGITS_PER_LIMB[OddPart(radix) - 2])
  }

  lemma RowFromParts(radix: nat, odd: nat, k: nat)
    requires 2 <= radix <= 36 && 3 <= odd <= 35 && odd == OddPart(radix) && k == TwoShift(radix)
    ensures RowOf(radix) == RowWith(radix, odd, k)
  {
    hide OddPart, TwoShift, LogFactor, MostDigits, MaxDigits, MaxExponent, MinExponent, LogsWith;
  }

  lemma {:induction false} PartsAre(radix: nat, odd: nat, k: nat)
    requires odd % 2 == 1 && k <= 3 && radix == odd * [1, 2, 4, 8][k]
    ensures OddPart(radix) == odd && TwoShift(radix) == k
  {
    if k > 0 {
      PartsAre(radix / 2, odd, k - 1);
    }
  }

  lemma Row3() ensures RowWith(3, 3, 0) == Row(0xa1849d, 35, 80, 647, -679, Ratios(971, 1539, 665, 1054), 0, 20) {}
  lemma Fit3() ensures Fits(Row(0xa1849d, 35, 80, 647, -679, Ratios(971, 1539, 665, 1054), 0, 20)) {}
  lemma Row5() ensures RowWith(5, 5, 0) == Row(0x6e40d2, 24, 55, 442, -463, Ratios(497, 1154, 146, 339), 0, 13) {}
  lemma Fit5() ensures Fits(Row(0x6e40d2, 24, 55, 442, -463, Ratios(497, 1154, 146, 339), 0, 13)) {}
  lemma Row6() ensures RowWith(6, 3, 1) == Row(0x6308c9, 22, 49, 397, -416, Ratios(971, 2510, 665, 1719), 1, 20) {}
  lemma Fit6() ensures Fits(Row(0x6308c9, 22, 49, 397, -416, Ratios(971, 2510, 665, 1719), 1, 20)) {}
  lemma Row7() ensures RowWith(7, 7, 0) == Row(0x5b3065, 20, 45, 365, -383, Ratios(462, 1297, 109, 306), 0, 11) {}
  lemma Fit7() ensures Fits(Row(0x5b3065, 20, 45, 365, -383, Ratios(462, 1297, 109, 306), 0, 11)) {}
  lemma Row9() ensures RowWith(9, 9, 0) == Row(0x50c24e, 18, 40, 324, -340, Ratios(153, 485, 512, 1623), 0, 10) {}
  lemma Fit9() ensures Fits(Row(0x50c24e, 18, 40, 324, -340, Ratios(153, 485, 512, 1623), 0, 10)) {}
  lemma Row10() ensures RowWith(10, 5, 1) == Row(0x4d104d, 17, 38, 309, -324, Ratios(497, 1651, 146, 485), 1, 13) {}
  lemma Fit10() ensures Fits(Row(0x4d104d, 17, 38, 309, -324, Ratios(497, 1651, 146, 485), 1, 13)) {}
  lemma Row11() ensures RowWith(11, 11, 0) == Row(0x4a0027, 17, 37, 297, -311, Ratios(37, 128, 875, 3027), 0, 9) {}
  lemma Fit11() ensures Fits(Row(0x4a0027, 17, 37, 297, -311, Ratios(37, 128, 875, 3027), 0, 9)) {}
  lemma Row12() ensures RowWith(12, 3, 2) == Row(0x4768ce, 16, 35, 286, -300, Ratios(971, 3481, 665, 2384), 2, 20) {}
  lemma Fit12() ensures Fits(Row(0x4768ce, 16, 35, 286, -300, Ratios(971, 3481, 665, 2384), 2, 20)) {}
  lemma Row13() ensures RowWith(13, 13, 0) == Row(0x452e54, 16, 34, 277, -291, Ratios(227, 840, 1145, 4237), 0, 8) {}
  lemma Fit13() ensures Fits(Row(0x452e54, 16, 34, 277, -291, Ratios(227, 840, 1145, 4237), 0, 8)) {}
  lemma Row14() ensures RowWith(14, 7, 1) == Row(0x433d00, 15, 33, 269, -283, Ratios(462, 1759, 109, 415), 1, 11) {}
  lemma Fit14() ensures Fits(Row(0x433d00, 15, 33, 269, -283, Ratios(462, 1759, 109, 415), 1, 11)) {}
  lemma Row15() ensures RowWith(15, 15, 0) == Row(0x418677, 15, 32, 263, -276, Ratios(290, 1133, 247, 965), 0, 8) {}
  lemma Fit15() ensures Fits(Row(0x418677, 15, 32, 263, -276, Ratios(290, 1133, 247, 965), 0, 8)) {}
  lemma Row17() ensures RowWith(17, 17, 0) == Row(0x3ea16b, 14, 31, 251, -263, Ratios(80, 327, 263, 1075), 0, 7) {}
  lemma Fit17() ensures Fits(Row(0x3ea16b, 14, 31, 251, -263, Ratios(80, 327, 263, 1075), 0, 7)) {}
  lemma Row18() ensures RowWith(18, 9, 1) == Row(0x3d645a, 14, 30, 246, -258, Ratios(153, 638, 512, 2135), 1, 10) {}
  lemma Fit18() ensures Fits(Row(0x3d645a, 14, 30, 246, -258, Ratios(153, 638, 512, 2135), 1, 10)) {}
  lemma Row19() ensures RowWith(19, 19, 0) == Row(0x3c43c2, 14, 30, 242, -254, Ratios(121, 514, 722, 3067), 0, 7) {}
  lemma Fit19() ensures Fits(Row(0x3c43c2, 14, 30, 242, -254, Ratios(121, 514, 722, 3067), 0, 7)) {}
  lemma Row20() ensures RowWith(20, 5, 2) == Row(0x3b3b9a, 14, 29, 237, -249, Ratios(497, 2148, 146, 631), 2, 13) {}
  lemma Fit20() ensures Fits(Row(0x3b3b9a, 14, 29, 237, -249, Ratios(497, 2148, 146, 631), 2, 13)) {}
  lemma Row21() ensures RowWith(21, 21, 0) == Row(0x3a4899, 14, 29, 234, -245, Ratios(469, 2060, 130, 571), 0, 7) {}
  lemma Fit21() ensures Fits(Row(0x3a4899, 14, 29, 234, -245, Ratios(469, 2060, 130, 571), 0, 7)) {}
  lemma Row22() ensures RowWith(22, 11, 1) == Row(0x39680b, 13, 28, 230, -242, Ratios(37, 165, 875, 3902), 1, 9) {}
  lemma Fit22() ensures Fits(Row(0x39680b, 13, 28, 230, -242, Ratios(37, 165, 875, 3902), 1, 9)) {}
  lemma Row23() ensures RowWith(23, 23, 0) == Row(0x3897b3, 13, 28, 227, -238, Ratios(785, 3551, 191, 864), 0, 7) {}
  lemma Fit23() ensures Fits(Row(0x3897b3, 13, 28, 227, -238, Ratios(785, 3551, 191, 864), 0, 7)) {}
  lemma Row24() ensures RowWith(24, 3, 3) == Row(0x37d5af, 13, 27, 224, -235, Ratios(971, 4452, 665, 3049), 3, 20) {}
  lemma Fit24() ensures Fits(Row(0x37d5af, 13, 27, 224, -235, Ratios(971, 4452, 665, 3049), 3, 20)) {}
  lemma Row25() ensures RowWith(25, 25, 0) == Row(0x372069, 13, 27, 221, -232, Ratios(497, 2308, 73, 339), 0, 6) {}
  lemma Fit25() ensures Fits(Row(0x372069, 13, 27, 221, -232, Ratios(497, 2308, 73, 339), 0, 6)) {}
  lemma Row26() ensures RowWith(26, 13, 1) == Row(0x367686, 13, 27, 218, -229, Ratios(227, 1067, 1145, 5382), 1, 8) {}
  lemma Fit26() ensures Fits(Row(0x367686, 13, 27, 218, -229, Ratios(227, 1067, 1145, 5382), 1, 8)) {}
  lemma Row27() ensures RowWith(27, 27, 0) == Row(0x35d6df, 13, 26, 216, -227, Ratios(102, 485, 461, 2192), 0, 6) {}
  lemma Fit27() ensures Fits(Row(0x35d6df, 13, 26, 216, -227, Ratios(102, 485, 461, 2192), 0, 6)) {}
  lemma Row28() ensures RowWith(28, 7, 2) == Row(0x354072, 13, 26, 214, -224, Ratios(462, 2221, 109, 524), 2, 11) {}
  lemma Fit28() ensures Fits(Row(0x354072, 13, 26, 214, -224, Ratios(462, 2221, 109, 524), 2, 11)) {}
  lemma Row29() ensures RowWith(29, 29, 0) == Row(0x34b261, 12, 26, 211, -222, Ratios(169, 821, 345, 1676), 0, 6) {}
  lemma Fit29() ensures Fits(Row(0x34b261, 12, 26, 211, -222, Ratios(169, 821, 345, 1676), 0, 6)) {}
  lemma Row30() ensures RowWith(30, 15, 1) == Row(0x342bea, 12, 26, 209, -220, Ratios(290, 1423, 247, 1212), 1, 8) {}
  lemma Fit30() ensures Fits(Row(0x342bea, 12, 26, 209, -220, Ratios(290, 1423, 247, 1212), 1, 8)) {}
  lemma Row31() ensures RowWith(31, 31, 0) == Row(0x33ac62, 12, 25, 207, -217, Ratios(131, 649, 1288, 6381), 0, 6) {}
  lemma Fit31() ensures Fits(Row(0x33ac62, 12, 25, 207, -217, Ratios(131, 649, 1288, 6381), 0, 6)) {}
  lemma Row33() ensures RowWith(33, 33, 0) == Row(0x32bfd9, 12, 25, 203, -214, Ratios(45, 227, 383, 1932), 0, 6) {}
  lemma Fit33() ensures Fits(Row(0x32bfd9, 12, 25, 203, -214, Ratios(45, 227, 383, 1932), 0, 6)) {}
  lemma Row34() ensures RowWith(34, 17, 1) == Row(0x3251dd, 12, 25, 202, -212, Ratios(80, 407, 263, 1338), 1, 7) {}
  lemma Fit34() ensures Fits(Row(0x3251dd, 12, 25, 202, -212, Ratios(80, 407, 263, 1338), 1, 7)) {}
  lemma Row35() ensures RowWith(35, 35, 0) == Row(0x31e8d6, 12, 24, 200, -210, Ratios(116, 595, 147, 754), 0, 6) {}
  lemma Fit35() ensures Fits(Row(0x31e8d6, 12, 24, 200, -210, Ratios(116, 595, 147, 754), 0, 6)) {}
  lemma Row36() ensures RowWith(36, 9, 2) == Row(0x318465, 12, 24, 199, -208, Ratios(153, 791, 512, 2647), 2, 10) {}
  lemma Fit36() ensures Fits(Row(0x318465, 12, 24, 199, -208, Ratios(153, 791, 512, 2647), 2, 10)) {}

  lemma RowsOk(radix: nat)
    requires 2 <= radix <= 36 && OddPart(radix) > 1
    ensures Fits(RowOf(radix))
  {
    hide Fits;
    assert RadixBits(radix) == 0 by {
      RadixParts(radix);
    }
    if radix <= 14 {
      LowRows(radix);
    } else if radix <= 25 {
      MiddleRows(radix);
    } else {
      HighRows(radix);
    }
  }

  lemma LowRows(radix: nat)
    requires 3 <= radix <= 14 && RadixBits(radix) == 0 && OddPart(radix) > 1
    ensures Fits(RowOf(radix))
  {
    hide Fits, RowOf, RowWith, OddPart, TwoShift;
    RowFromParts(radix, OddPart(radix), TwoShift(radix));
    if radix == 3 {
      PartsAre(3, 3, 0);
      Row3();
      Fit3();
    } else if radix == 5 {
      PartsAre(5, 5, 0);
      Row5();
      Fit5();
    } else if radix == 6 {
      PartsAre(6, 3, 1);
      Row6();
      Fit6();
    } else if radix == 7 {
      PartsAre(7, 7, 0);
      Row7();
      Fit7();
    } else if radix == 9 {
      PartsAre(9, 9, 0);
      Row9();
      Fit9();
    } else if radix == 10 {
      PartsAre(10, 5, 1);
      Row10();
      Fit10();
    } else if radix == 11 {
      PartsAre(11, 11, 0);
      Row11();
      Fit11();
    } else if radix == 12 {
      PartsAre(12, 3, 2);
      Row12();
      Fit12();
    } else if radix == 13 {
      PartsAre(13, 13, 0);
      Row13();
      Fit13();
    } else {
      PartsAre(14, 7, 1);
      Row14();
      Fit14();
    }
  }

  lemma MiddleRows(radix: nat)
    requires 15 <= radix <= 25 && RadixBits(radix) == 0 && OddPart(radix) > 1
    ensures Fits(RowOf(radix))
  {
    hide Fits, RowOf, RowWith, OddPart, TwoShift;
    RowFromParts(radix, OddPart(radix), TwoShift(radix));
    if radix == 15 {
      PartsAre(15, 15, 0);
      Row15();
      Fit15();
    } else if radix == 17 {
      PartsAre(17, 17, 0);
      Row17();
      Fit17();
    } else if radix == 18 {
      PartsAre(18, 9, 1);
      Row18();
      Fit18();
    } else if radix == 19 {
      PartsAre(19, 19, 0);
      Row19();
      Fit19();
    } else if radix == 20 {
      PartsAre(20, 5, 2);
      Row20();
      Fit20();
    } else if radix == 21 {
      PartsAre(21, 21, 0);
      Row21();
      Fit21();
    } else if radix == 22 {
      PartsAre(22, 11, 1);
      Row22();
      Fit22();
    } else if radix == 23 {
      PartsAre(23, 23, 0);
      Row23();
      Fit23();
    } else if radix == 24 {
      PartsAre(24, 3, 3);
      Row24();
      Fit24();
    } else {
      PartsAre(25, 25, 0);
      Row25();
      Fit25();
    }
  }

  lemma HighRows(radix: nat)
    requires 26 <= radix <= 36 && RadixBits(radix) == 0 && OddPart(radix) > 1
    ensures Fits(RowOf(radix))
  {
    hide Fits, RowOf, RowWith, OddPart, TwoShift;
    RowFromParts(radix, OddPart(radix), TwoShift(radix));
    if radix == 26 {
      PartsAre(26, 13, 1);
      Row26();
      Fit26();
    } else if radix == 27 {
      PartsAre(27, 27, 0);
      Row27();
      Fit27();
    } else if radix == 28 {
      PartsAre(28, 7, 2);
      Row28();
      Fit28();
    } else if radix == 29 {
      PartsAre(29, 29, 0);
      Row29();
      Fit29();
    } else if radix == 30 {
      PartsAre(30, 15, 1);
      Row30();
      Fit30();
    } else if radix == 31 {
      PartsAre(31, 31, 0);
      Row31();
      Fit31();
    } else if radix == 33 {
      PartsAre(33, 33, 0);
      Row33();
      Fit33();
    } else if radix == 34 {
      PartsAre(34, 17, 1);
      Row34();
      Fit34();
    } else if radix == 35 {
      PartsAre(35, 35, 0);
      Row35();
      Fit35();
    } else {
      PartsAre(36, 9, 2);
      Row36();
      Fit36();
    }
  }

  lemma BinaryRow(radix: nat)
    requires 2 <= radix <= 36 && RadixBits(radix) > 0
    ensures 0 < MostDigits(radix) <= 54 && 53 <= RadixBits(radix) * (MostDigits(radix) - 1)
    ensures RadixBits(radix) * MostDigits(radix) <= 60
  {
  }
}
