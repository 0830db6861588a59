/** Comparisons of large powers of odd numbers with powers of two, by way of their high bits. */
module RadixCertificates {
  import opened Powers

  ///// Powers that are computed

  function Square(x: nat): nat {
    x * x
  }

  function FastPow(b: nat, n: nat): nat
    decreases n
  {
    if n == 0 then 1
    else if n % 2 == 1 then b * Square(FastPow(b, n / 2))
    else Square(FastPow(b, n / 2))
  }

  lemma {:induction false} FastIsPow(b: nat, n: nat)
    ensures FastPow(b, n) == Pow(b, n)
    decreases n
  {
    if n > 0 {
      FastIsPow(b, n / 2);
      PowAdd(b, n / 2, n / 2);
      if n % 2 == 1 {
        assert Pow(b, n) == b * Pow(b, n / 2 + n / 2);
      }
    }
  }

  /** r^k <= c * 2^s, with a short factor c that stands for the high bits of the power. */
  predicate AtMostBits(r: nat, k: nat, c: nat, s: nat) {
    FastPow(r, k) <= c * FastPow(2, s)
  }

  predicate AtLeastBits(r: nat, k: nat, c: nat, s: nat) {
    FastPow(r, k) >= c * FastPow(2, s)
  }

  /** c^n * r^j < 2^b */
  predicate LessThanBits(c: nat, n: nat, r: nat, j: nat, b: nat) {
    FastPow(c, n) * FastPow(r, j) < FastPow(2, b)
  }

  predicate MoreThanBits(c: nat, n: nat, r: nat, j: nat, b: nat) {
    FastPow(c, n) * FastPow(r, j) > FastPow(2, b)
  }

  lemma UnderMeans(r: nat, k: nat, c: nat, s: nat, n: nat, j: nat, b: nat)
    requires AtMostBits(r, k, c, s) && s * n <= b && LessThanBits(c, n, r, j, b - s * n)
    ensures Pow(r, k * n + j) < Pow2(b)
  {
    hide Pow, FastPow;
    FastPowsAre(r, k, c, s, n, j, b);
    PowBaseMono(Pow(r, k), c * Pow2(s), n);
    PowerInSteps(r, k, c, s, n, j, b);
    var x, y, z := Pow(c, n) * Pow(r, j), Pow2(b - s * n), Pow2(s * n);
    PowPos(2, s * n);
    MulMono(Pow(Pow(r, k), n), Pow(c * Pow2(s), n), Pow(r, j));
    MulStrict(x, y, z);
  }

  lemma OverMeans(r: nat, k: nat, c: nat, s: nat, n: nat, j: nat, b: nat)
    requires AtLeastBits(r, k, c, s) && s * n <= b && MoreThanBits(c, n, r, j, b - s * n)
    ensures Pow(r, k * n + j) > Pow2(b)
  {
    hide Pow, FastPow;
    FastPowsAre(r, k, c, s, n, j, b);
    PowBaseMono(c * Pow2(s), Pow(r, k), n);
    PowerInSteps(r, k, c, s, n, j, b);
    var x, y, z := Pow(c, n) * Pow(r, j), Pow2(b - s * n), Pow2(s * n);
    PowPos(2, s * n);
    MulMono(Pow(c * Pow2(s), n), Pow(Pow(r, k), n), Pow(r, j));
    MulStrict(y, x, z);
  }

  lemma FastPowsAre(r: nat, k: nat, c: nat, s: nat, n: nat, j: nat, b: nat)
    requires s * n <= b
    ensures FastPow(r, k) == Pow(r, k) && FastPow(2, s) == Pow2(s) && FastPow(c, n) == Pow(c, n)
    ensures FastPow(r, j) == Pow(r, j) && FastPow(2, b - s * n) == Pow2(b - s * n)
  {
    FastIsPow(r, k);
    FastIsPow(2, s);
    FastIsPow(c, n);
    FastIsPow(r, j);
    FastIsPow(2, b - s * n);
  }

  lemma PowerInSteps(r: nat, k: nat, c: nat, s: nat, n: nat, j: nat, b: nat)
    requires s * n <= b
    ensures Pow(r, k * n + j) == Pow(Pow(r, k), n) * Pow(r, j)
    ensures Pow(c * Pow2(s), n) * Pow(r, j) == (Pow(c, n) * Pow(r, j)) * Pow2(s * n)
    ensures Pow2(b) == Pow2(b - s * n) * Pow2(s * n)
  {
    hide Pow;
    PowAdd(r, k * n, j);
    PowOfPow(r, k, n);
    PowOfProduct(c, Pow2(s), n);
    PowOfPow(2, s, n);
    PowAdd(2, b - s * n, s * n);
    MulAssoc(Pow(c, n), Pow2(s * n), Pow(r, j));
    MulAssoc(Pow(c, n), Pow(r, j), Pow2(s * n));
    assert Pow2(s * n) * Pow(r, j) == Pow(r, j) * Pow2(s * n);
  }

  lemma Under3() ensures AtMostBits(3, 88, 2850, 128) {}
  lemma Below3() ensures LessThanBits(2850, 11, 3, 3, 131) {}
  lemma Over3() ensures AtLeastBits(3, 83, 192151, 114) {}
  lemma Above3() ensures MoreThanBits(192151, 8, 3, 1, 142) {}
  lemma Under5() ensures AtMostBits(5, 55, 3341, 116) {}
  lemma Below5() ensures LessThanBits(3341, 9, 5, 2, 110) {}
  lemma Over5() ensures AtLeastBits(5, 29, 10339, 54) {}
  lemma Above5() ensures MoreThanBits(10339, 5, 5, 1, 69) {}
  lemma Under7() ensures AtMostBits(7, 46, 9017, 116) {}
  lemma Below7() ensures LessThanBits(9017, 10, 7, 2, 137) {}
  lemma Over7() ensures AtLeastBits(7, 21, 3968, 47) {}
  lemma Above7() ensures MoreThanBits(3968, 5, 7, 4, 71) {}
  lemma Under9() ensures AtMostBits(9, 25, 9730, 66) {}
  lemma Below9() ensures LessThanBits(9730, 6, 9, 3, 89) {}
  lemma Over9() ensures AtLeastBits(9, 51, 12999, 148) {}
  lemma Above9() ensures MoreThanBits(12999, 10, 9, 2, 143) {}
  lemma Under11() ensures AtMostBits(11, 12, 2923, 30) {}
  lemma Below11() ensures LessThanBits(2923, 3, 11, 1, 38) {}
  lemma Over11() ensures AtLeastBits(11, 58, 3207, 189) {}
  lemma Above11() ensures MoreThanBits(3207, 15, 11, 5, 192) {}
  lemma Under13() ensures AtMostBits(13, 32, 43662, 103) {}
  lemma Below13() ensures LessThanBits(43662, 7, 13, 3, 119) {}
  lemma Over13() ensures AtLeastBits(13, 67, 3900, 236) {}
  lemma Above13() ensures MoreThanBits(3900, 17, 13, 6, 225) {}
  lemma Under15() ensures AtMostBits(15, 32, 8310, 112) {}
  lemma Below15() ensures LessThanBits(8310, 9, 15, 2, 125) {}
  lemma Over15() ensures AtLeastBits(15, 27, 2868, 94) {}
  lemma Above15() ensures MoreThanBits(2868, 9, 15, 4, 119) {}
  lemma Under17() ensures AtMostBits(17, 16, 2702, 54) {}
  lemma Below17() ensures LessThanBits(2702, 5, 17, 0, 57) {}
  lemma Over17() ensures AtLeastBits(17, 29, 2970, 107) {}
  lemma Above17() ensures MoreThanBits(2970, 9, 17, 2, 112) {}
  lemma Under19() ensures AtMostBits(19, 20, 3980, 73) {}
  lemma Below19() ensures LessThanBits(3980, 6, 19, 1, 76) {}
  lemma Over19() ensures AtLeastBits(19, 45, 2283, 180) {}
  lemma Above19() ensures MoreThanBits(2283, 16, 19, 2, 187) {}
  lemma Under21() ensures AtMostBits(21, 36, 2231, 147) {}
  lemma Below21() ensures LessThanBits(2231, 13, 21, 1, 149) {}
  lemma Over21() ensures AtLeastBits(21, 21, 9665, 79) {}
  lemma Above21() ensures MoreThanBits(9665, 6, 21, 4, 97) {}
  lemma Under23() ensures AtMostBits(23, 49, 3224, 210) {}
  lemma Below23() ensures LessThanBits(3224, 16, 23, 1, 191) {}
  lemma Over23() ensures AtLeastBits(23, 27, 36011, 107) {}
  lemma Above23() ensures MoreThanBits(36011, 7, 23, 2, 115) {}
  lemma Under25() ensures AtMostBits(25, 38, 2830, 165) {}
  lemma Below25() ensures LessThanBits(2830, 13, 25, 3, 163) {}
  lemma Over25() ensures AtLeastBits(25, 12, 3388, 44) {}
  lemma Above25() ensures MoreThanBits(3388, 6, 25, 1, 75) {}
  lemma Under27() ensures AtMostBits(27, 17, 3649, 69) {}
  lemma Below27() ensures LessThanBits(3649, 6, 27, 0, 71) {}
  lemma Over27() ensures AtLeastBits(27, 35, 2742, 155) {}
  lemma Above27() ensures MoreThanBits(2742, 13, 27, 6, 177) {}
  lemma Under29() ensures AtMostBits(29, 21, 8293, 89) {}
  lemma Below29() ensures LessThanBits(8293, 8, 29, 1, 109) {}
  lemma Over29() ensures AtLeastBits(29, 31, 3098, 139) {}
  lemma Above29() ensures MoreThanBits(3098, 11, 29, 4, 147) {}
  lemma Under31() ensures AtMostBits(31, 18, 2313, 78) {}
  lemma Below31() ensures LessThanBits(2313, 7, 31, 5, 103) {}
  lemma Over31() ensures AtLeastBits(31, 61, 2362, 291) {}
  lemma Above31() ensures MoreThanBits(2362, 21, 31, 7, 270) {}
  lemma Under33() ensures AtMostBits(33, 11, 2873, 44) {}
  lemma Below33() ensures LessThanBits(2873, 4, 33, 1, 51) {}
  lemma Over33() ensures AtLeastBits(33, 34, 2915, 160) {}
  lemma Above33() ensures MoreThanBits(2915, 11, 33, 9, 172) {}
  lemma Under35() ensures AtMostBits(35, 19, 2811, 86) {}
  lemma Below35() ensures LessThanBits(2811, 6, 35, 2, 79) {}
  lemma Over35() ensures AtLeastBits(35, 18, 2569, 81) {}
  lemma Above35() ensures MoreThanBits(2569, 8, 35, 3, 106) {}
}
