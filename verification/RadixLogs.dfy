/** The radices from 2 to 36 against powers of two: close fractions around their logarithms. */
module RadixLogs {
  import opened Powers
  import opened RadixCertificates

  ///// The odd part of a radix

  function TwoShift(n: nat): (k: nat)
    requires n > 0
  {
    if n % 2 == 1 then 0 else TwoShift(n / 2) + 1
  }

  function OddPart(n: nat): (k: nat)
    requires n > 0
    ensures k % 2 == 1 && k <= n
  {
    if n % 2 == 1 then n else OddPart(n / 2)
  }

  lemma {:induction false} PartsOfRadix(n: nat)
    requires n > 0
    ensures n == OddPart(n) * Pow2(TwoShift(n))
  {
    if n % 2 == 1 {
      PowSmall(2);
    } else {
      PartsOfRadix(n / 2);
      MulAssoc(2, OddPart(n / 2), Pow2(TwoShift(n / 2)));
      MulAssoc(OddPart(n / 2), 2, Pow2(TwoShift(n / 2)));
    }
  }

  /** How many bits a digit has in a radix that is a power of two; zero for another radix. */
  function RadixBits(radix: nat): (b: nat)
    requires 2 <= radix <= 36
    ensures b > 0 ==> radix == Pow2(b) && b <= 5
  {
    assert Pow2(1) == 2 && Pow2(2) == 4 && Pow2(3) == 8 && Pow2(4) == 16 && Pow2(5) == 32;
    if radix == 2 then 1 else if radix == 4 then 2 else if radix == 8 then 3 else if radix == 16 then 4
    else if radix == 32 then 5 else 0
  }

  /** A radix is a power of two when its odd part is one. */
  lemma RadixParts(radix: nat)
    requires 2 <= radix <= 36
    ensures radix == OddPart(radix) * Pow2(TwoShift(radix)) && 1 <= OddPart(radix) <= 35
    ensures OddPart(radix) == 1 <==> RadixBits(radix) > 0
    ensures RadixBits(radix) > 0 ==> TwoShift(radix) == RadixBits(radix)
  {
    PartsOfRadix(radix);
    if OddPart(radix) == 1 {
      var k := TwoShift(radix);
      assert Pow2(6) == 64;
      if k >= 6 {
        PowMono(2, 6, k);
        assert false;
      }
      PowersUpTo32(k);
    } else if RadixBits(radix) > 0 {
      NotOddTimesTwos(OddPart(radix), TwoShift(radix), RadixBits(radix));
    }
  }

  lemma PowersUpTo32(k: nat)
    requires k <= 5
    ensures Pow2(k) == [1, 2, 4, 8, 16, 32][k]
  {
    assert Pow2(1) == 2 && Pow2(2) == 4 && Pow2(3) == 8 && Pow2(4) == 16 && Pow2(5) == 32;
  }

  /** A power of two has no odd factor. */
  lemma {:induction false} NotOddTimesTwos(odd: nat, k: nat, b: nat)
    requires odd % 2 == 1 && odd * Pow2(k) == Pow2(b)
    ensures odd == 1
  {
    if k == 0 {
      PowSmall(2);
    } else {
      MulAssoc(odd, 2, Pow2(k - 1));
      MulAssoc(2, odd, Pow2(k - 1));
      if b > 0 {
        NotOddTimesTwos(odd, k - 1, b - 1);
      } else {
        PowPos(2, k - 1);
        MulMono(1, odd, Pow2(k));
      }
    }
  }

  ///// Two fractions around each logarithm

  /** radix^a < 2^b and radix^c > 2^d, so that a / b < log 2 / log radix < c / d. */
  datatype Ratios = Ratios(a: nat, b: nat, c: nat, d: nat)

  /** For the odd numbers from 3 to 35. */
  const LOGS: seq<Ratios> := [
    Ratios(971, 1539, 665, 1054), Ratios(497, 1154, 146, 339), Ratios(462, 1297, 109, 306),
    Ratios(153, 485, 512, 1623), Ratios(37, 128, 875, 3027), Ratios(227, 840, 1145, 4237),
    Ratios(290, 1133, 247, 965), Ratios(80, 327, 263, 1075), Ratios(121, 514, 722, 3067),
    Ratios(469, 2060, 130, 571), Ratios(785, 3551, 191, 864), Ratios(497, 2308, 73, 339),
    Ratios(102, 485, 461, 2192), Ratios(169, 821, 345, 1676), Ratios(131, 649, 1288, 6381),
    Ratios(45, 227, 383, 1932), Ratios(116, 595, 147, 754)]

  function OddLogs(odd: nat): Ratios
    requires 3 <= odd <= 35
  {
    LOGS[(odd - 3) / 2]
  }

  /** A factor of two adds one to the logarithm. */
  function LogsWith(odd: nat, k: nat): Ratios
    requires 3 <= odd <= 35
  {
    var x := OddLogs(odd);
    Ratios(x.a, x.b + x.a * k, x.c, x.d + x.c * k)
  }

  function LogsOf(radix: nat): Ratios
    requires 2 <= radix <= 36 && OddPart(radix) > 1
  {
    LogsWith(OddPart(radix), TwoShift(radix))
  }

  ghost predicate LogsFit(odd: nat)
    requires 3 <= odd <= 35
  {
    var x := OddLogs(odd);
    Pow(odd, x.a) < Pow2(x.b) && Pow(odd, x.c) > Pow2(x.d)
  }

  lemma Logs3()
    ensures LogsFit(3)
  {
    hide AtMostBits, AtLeastBits, LessThanBits, MoreThanBits, Pow, FastPow;
    Under3();
    Below3();
    UnderMeans(3, 88, 2850, 128, 11, 3, 1539);
    Over3();
    Above3();
    OverMeans(3, 83, 192151, 114, 8, 1, 1054);
  }

  lemma Logs5()
    ensures LogsFit(5)
  {
    hide AtMostBits, AtLeastBits, LessThanBits, MoreThanBits, Pow, FastPow;
    Under5();
    Below5();
    UnderMeans(5, 55, 3341, 116, 9, 2, 1154);
    Over5();
    Above5();
    OverMeans(5, 29, 10339, 54, 5, 1, 339);
  }

  lemma Logs7()
    ensures LogsFit(7)
  {
    hide AtMostBits, AtLeastBits, LessThanBits, MoreThanBits, Pow, FastPow;
    Under7();
    Below7();
    UnderMeans(7, 46, 9017, 116, 10, 2, 1297);
    Over7();
    Above7();
    OverMeans(7, 21, 3968, 47, 5, 4, 306);
  }

  lemma Logs9()
    ensures LogsFit(9)
  {
    hide AtMostBits, AtLeastBits, LessThanBits, MoreThanBits, Pow, FastPow;
    Under9();
    Below9();
    UnderMeans(9, 25, 9730, 66, 6, 3, 485);
    Over9();
    Above9();
    OverMeans(9, 51, 12999, 148, 10, 2, 1623);
  }

  lemma Logs11()
    ensures LogsFit(11)
  {
    hide AtMostBits, AtLeastBits, LessThanBits, MoreThanBits, Pow, FastPow;
    Under11();
    Below11();
    UnderMeans(11, 12, 2923, 30, 3, 1, 128);
    Over11();
    Above11();
    OverMeans(11, 58, 3207, 189, 15, 5, 3027);
  }

  lemma Logs13()
    ensures LogsFit(13)
  {
    hide AtMostBits, AtLeastBits, LessThanBits, MoreThanBits, Pow, FastPow;
    Under13();
    Below13();
    UnderMeans(13, 32, 43662, 103, 7, 3, 840);
    Over13();
    Above13();
    OverMeans(13, 67, 3900, 236, 17, 6, 4237);
  }

  lemma Logs15()
    ensures LogsFit(15)
  {
    hide AtMostBits, AtLeastBits, LessThanBits, MoreThanBits, Pow, FastPow;
    Under15();
    Below15();
    UnderMeans(15, 32, 8310, 112, 9, 2, 1133);
    Over15();
    Above15();
    OverMeans(15, 27, 2868, 94, 9, 4, 965);
  }

  lemma Logs17()
    ensures LogsFit(17)
  {
    hide AtMostBits, AtLeastBits, LessThanBits, MoreThanBits, Pow, FastPow;
    Under17();
    Below17();
    UnderMeans(17, 16, 2702, 54, 5, 0, 327);
    Over17();
    Above17();
    OverMeans(17, 29, 2970, 107, 9, 2, 1075);
  }

  lemma Logs19()
    ensures LogsFit(19)
  {
    hide AtMostBits, AtLeastBits, LessThanBits, MoreThanBits, Pow, FastPow;
    Under19();
    Below19();
    UnderMeans(19, 20, 3980, 73, 6, 1, 514);
    Over19();
    Above19();
    OverMeans(19, 45, 2283, 180, 16, 2, 3067);
  }

  lemma Logs21()
    ensures LogsFit(21)
  {
    hide AtMostBits, AtLeastBits, LessThanBits, MoreThanBits, Pow, FastPow;
    Under21();
    Below21();
    UnderMeans(21, 36, 2231, 147, 13, 1, 2060);
    Over21();
    Above21();
    OverMeans(21, 21, 9665, 79, 6, 4, 571);
  }

  lemma Logs23()
    ensures LogsFit(23)
  {
    hide AtMostBits, AtLeastBits, LessThanBits, MoreThanBits, Pow, FastPow;
    Under23();
    Below23();
    UnderMeans(23, 49, 3224, 210, 16, 1, 3551);
    Over23();
    Above23();
    OverMeans(23, 27, 36011, 107, 7, 2, 864);
  }

  lemma Logs25()
    ensures LogsFit(25)
  {
    hide AtMostBits, AtLeastBits, LessThanBits, MoreThanBits, Pow, FastPow;
    Under25();
    Below25();
    UnderMeans(25, 38, 2830, 165, 13, 3, 2308);
    Over25();
    Above25();
    OverMeans(25, 12, 3388, 44, 6, 1, 339);
  }

  lemma Logs27()
    ensures LogsFit(27)
  {
    hide AtMostBits, AtLeastBits, LessThanBits, MoreThanBits, Pow, FastPow;
    Under27();
    Below27();
    UnderMeans(27, 17, 3649, 69, 6, 0, 485);
    Over27();
    Above27();
    OverMeans(27, 35, 2742, 155, 13, 6, 2192);
  }

  lemma Logs29()
    ensures LogsFit(29)
  {
    hide AtMostBits, AtLeastBits, LessThanBits, MoreThanBits, Pow, FastPow;
    Under29();
    Below29();
    UnderMeans(29, 21, 8293, 89, 8, 1, 821);
    Over29();
    Above29();
    OverMeans(29, 31, 3098, 139, 11, 4, 1676);
  }

  lemma Logs31()
    ensures LogsFit(31)
  {
    hide AtMostBits, AtLeastBits, LessThanBits, MoreThanBits, Pow, FastPow;
    Under31();
    Below31();
    UnderMeans(31, 18, 2313, 78, 7, 5, 649);
    Over31();
    Above31();
    OverMeans(31, 61, 2362, 291, 21, 7, 6381);
  }

  lemma Logs33()
    ensures LogsFit(33)
  {
    hide AtMostBits, AtLeastBits, LessThanBits, MoreThanBits, Pow, FastPow;
    Under33();
    Below33();
    UnderMeans(33, 11, 2873, 44, 4, 1, 227);
    Over33();
    Above33();
    OverMeans(33, 34, 2915, 160, 11, 9, 1932);
  }

  lemma Logs35()
    ensures LogsFit(35)
  {
    hide AtMostBits, AtLeastBits, LessThanBits, MoreThanBits, Pow, FastPow;
    Under35();
    Below35();
    UnderMeans(35, 19, 2811, 86, 6, 2, 595);
    Over35();
    Above35();
    OverMeans(35, 18, 2569, 81, 8, 3, 754);
  }

  lemma OddLogsHold(odd: nat)
    requires 3 <= odd <= 35 && odd % 2 == 1
    ensures LogsFit(odd)
  {
    hide LogsFit;
    if odd == 3 {
      Logs3();
    } else if odd == 5 {
      Logs5();
    } else if odd == 7 {
      Logs7();
    } else if odd == 9 {
      Logs9();
    } else if odd == 11 {
      Logs11();
    } else if odd == 13 {
      Logs13();
    } else if odd == 15 {
      Logs15();
    } else if odd == 17 {
      Logs17();
    } else if odd == 19 {
      Logs19();
    } else if odd == 21 {
      Logs21();
    } else if odd == 23 {
      Logs23();
    } else if odd == 25 {
      Logs25();
    } else if odd == 27 {
      Logs27();
    } else if odd == 29 {
      Logs29();
    } else if odd == 31 {
      Logs31();
    } else if odd == 33 {
      Logs33();
    } else {
      Logs35();
    }
  }

  lemma LogsHold(radix: nat)
    requires 2 <= radix <= 36 && OddPart(radix) > 1
    ensures var x := LogsOf(radix); Pow(radix, x.a) < Pow2(x.b) && Pow(radix, x.c) > Pow2(x.d)
  {
    hide Pow, OddLogs;
    var odd, k := OddPart(radix), TwoShift(radix);
    var x := OddLogs(odd);
    OddLogsHold(odd);
    PartsOfRadix(radix);
    ShiftedPower(radix, odd, k, x.a, x.b);
    ShiftedPower(radix, odd, k, x.c, x.d);
  }

  lemma ShiftedPower(radix: nat, odd: nat, k: nat, a: nat, b: nat)
    requires radix == odd * Pow2(k)
    ensures Pow(odd, a) < Pow2(b) ==> Pow(radix, a) < Pow2(b + a * k)
    ensures Pow(odd, a) > Pow2(b) ==> Pow(radix, a) > Pow2(b + a * k)
  {
    hide Pow;
    PowOfProduct(odd, Pow2(k), a);
    PowOfPow(2, k, a);
    assert k * a == a * k;
    PowAdd(2, b, a * k);
    PowPos(2, a * k);
    if Pow(odd, a) < Pow2(b) {
      MulStrict(Pow(odd, a), Pow2(b), Pow2(a * k));
    } else if Pow(odd, a) > Pow2(b) {
      MulStrict(Pow2(b), Pow(odd, a), Pow2(a * k));
    }
  }

  ///// Comparing any two powers

  lemma {:induction false} PowBaseStrict(a: nat, b: nat, n: nat)
    requires a < b && n > 0
    ensures Pow(a, n) < Pow(b, n)
  {
    if n == 1 {
      PowSmall(a);
      PowSmall(b);
    } else {
      PowBaseStrict(a, b, n - 1);
      MulMono(a, b, Pow(a, n - 1));
      MulStrict(Pow(a, n - 1), Pow(b, n - 1), b);
    }
  }

  /** r^a < 2^b decides r^j < 2^k when j / k is at most a / b. */
  lemma BelowByRatio(r: nat, a: nat, b: nat, j: nat, k: nat)
    requires r > 0 && Pow(r, a) < Pow2(b) && b * j <= a * k && k > 0
    ensures Pow(r, j) < Pow2(k)
  {
    hide Pow;
    assert j * b == b * j && k * b == b * k;
    PowOfPow(r, j, b);
    PowOfPow(r, a, k);
    PowOfPow(2, b, k);
    PowOfPow(2, k, b);
    PowMono(r, j * b, a * k);
    PowBaseStrict(Pow(r, a), Pow2(b), k);
    if Pow(r, j) >= Pow2(k) {
      PowBaseMono(Pow2(k), Pow(r, j), b);
    }
  }

  /** r^c > 2^d decides r^j > 2^k when j / k is at least c / d. */
  lemma AboveByRatio(r: nat, c: nat, d: nat, j: nat, k: nat)
    requires r > 0 && Pow(r, c) > Pow2(d) && d * j >= c * k && k > 0
    ensures Pow(r, j) > Pow2(k)
  {
    hide Pow;
    assert j * d == d * j && k * d == d * k;
    PowOfPow(r, j, d);
    PowOfPow(r, c, k);
    PowOfPow(2, d, k);
    PowOfPow(2, k, d);
    PowMono(r, c * k, j * d);
    PowBaseStrict(Pow2(d), Pow(r, c), k);
    if Pow(r, j) <= Pow2(k) {
      PowBaseMono(Pow(r, j), Pow2(k), d);
    }
  }

  lemma PowerBelow(radix: nat, j: nat, k: nat)
    requires 2 <= radix <= 36 && OddPart(radix) > 1 && LogsOf(radix).b * j <= LogsOf(radix).a * k && k > 0
    ensures Pow(radix, j) < Pow2(k)
  {
    hide Pow, LogsOf;
    LogsHold(radix);
    BelowByRatio(radix, LogsOf(radix).a, LogsOf(radix).b, j, k);
  }

  lemma PowerAbove(radix: nat, j: nat, k: nat)
    requires 2 <= radix <= 36 && OddPart(radix) > 1 && LogsOf(radix).d * j >= LogsOf(radix).c * k && k > 0
    ensures Pow(radix, j) > Pow2(k)
  {
    hide Pow, LogsOf;
    LogsHold(radix);
    AboveByRatio(radix, LogsOf(radix).c, LogsOf(radix).d, j, k);
  }
}
