/** Non-negative binary64 numbers (IEEE 754, section 3.4) by their bits, and rounding to the nearest of them. */
module Doubles {
  import opened Powers
  import opened Rounding

  const TWO52: nat := 0x10_0000_0000_0000
  const TWO53: nat := 0x20_0000_0000_0000
  const INFINITY: nat := 2047 * TWO52

  /** The number with bits `b`, times 2^1074. Infinity counts as 2^1024, as it does for rounding. */
  ghost function Units(b: nat): nat {
    if b < TWO52 then b else (TWO52 + b % TWO52) * Pow2(b / TWO52 - 1)
  }

  ghost function Distance(x: int, y: int): nat {
    if x < y then y - x else x - y
  }

  /** How far the double `b` is from n / d, in units of 2^-1074 / d. */
  ghost function Off(n: nat, d: nat, b: nat): nat {
    Distance(n * Pow2(1074), Units(b) * d)
  }

  /** `b` is closer to n / d than `c`, or as close and even. */
  ghost predicate Closer(n: nat, d: nat, b: nat, c: nat) {
    Off(n, d, b) < Off(n, d, c) || (Off(n, d, b) == Off(n, d, c) && b % 2 == 0)
  }

  /** Round to nearest, ties to even (section 4.3.1 of IEEE 754), over all doubles. */
  ghost predicate IsNearest(n: nat, d: nat, b: nat) {
    b <= INFINITY && forall c: nat :: c <= INFINITY && c != b ==> Closer(n, d, b, c)
  }

  lemma TwoPowers()
    ensures Pow2(52) == TWO52 && Pow2(53) == TWO53
  {
    assert Pow2(13) == 8192;
    PowAdd(2, 13, 13);
    PowAdd(2, 26, 26);
  }

  ///// A double as a significand and a shift

  ghost predicate Parts(b: nat, u: nat, k: nat) {
    b == u * TWO52 + k && k <= TWO53 && (u > 0 ==> k >= TWO52)
  }

  lemma UnitsOfParts(b: nat, u: nat, k: nat)
    requires Parts(b, u, k)
    ensures Units(b) == k * Pow2(u)
  {
    PowSmall(2);
    if k < TWO52 {
    } else if k < TWO53 {
      DivModIs(b, TWO52, u + 1, k - TWO52);
    } else {
      DivModIs(b, TWO52, u + 2, 0);
      PowAdd(2, 1, u);
      MulAssoc(TWO52, 2, Pow2(u));
    }
  }

  lemma PartsOf(b: nat) returns (u: nat, k: nat)
    ensures Parts(b, u, k) && k < TWO53
  {
    if b < TWO52 {
      u, k := 0, b;
    } else {
      DivModOf(b, TWO52);
      u, k := b / TWO52 - 1, TWO52 + b % TWO52;
    }
  }

  lemma UnitsStep(b: nat)
    ensures Units(b) < Units(b + 1)
  {
    var u, k := PartsOf(b);
    UnitsOfParts(b, u, k);
    UnitsOfParts(b + 1, u, k + 1);
    PowPos(2, u);
    MulStrict(k, k + 1, Pow2(u));
  }

  /** Some numbers whose bits are known: 1, 10, the smallest, and where infinity is. */
  lemma Landmarks()
    ensures Off(1, 1, 0x3FF0_0000_0000_0000) == 0 && Off(10, 1, 0x4024_0000_0000_0000) == 0
    ensures Units(1) == 1 && INFINITY == 0x7FF0_0000_0000_0000 && Units(INFINITY) == Pow2(2098)
  {
    hide Pow;
    TwoPowers();
    UnitsOfParts(0x3FF0_0000_0000_0000, 1022, TWO52);
    UnitsOfParts(0x4024_0000_0000_0000, 1025, 0x14_0000_0000_0000);
    UnitsOfParts(INFINITY, 2046, TWO52);
    PowAdd(2, 52, 1022);
    PowAdd(2, 52, 2046);
    PowAdd(2, 49, 1025);
    PowAdd(2, 3, 49);
    PowEight();
  }

  lemma PowEight()
    ensures Pow2(3) == 8
  {
  }

  /** Larger bits, larger number. */
  lemma {:induction false} UnitsMono(b: nat, c: nat)
    requires b < c
    ensures Units(b) < Units(c)
    decreases c
  {
    UnitsStep(c - 1);
    if b < c - 1 {
      UnitsMono(b, c - 1);
    }
  }

  lemma OffIs(n: nat, d: nat, b: nat)
    ensures Off(n, d, b) == Distance(n * Pow2(1074), Units(b) * d)
  {
  }

  /** There is only one nearest double. */
  lemma NearestOnly(n: nat, d: nat, b: nat, c: nat)
    requires d > 0 && IsNearest(n, d, b) && IsNearest(n, d, c)
    ensures b == c
  {
    hide Units, Pow, Off;
    if b < c {
      NotBoth(n, d, b, c);
    } else if c < b {
      NotBoth(n, d, c, b);
    }
  }

  /** Of two doubles as close as each other and even, the one between them is closer. */
  lemma NotBoth(n: nat, d: nat, b: nat, c: nat)
    requires d > 0 && b < c <= INFINITY && Closer(n, d, b, c) && Closer(n, d, c, b)
    ensures !Closer(n, d, b, b + 1)
  {
    hide Units, Pow, Off;
    var mid := b + 1;
    UnitsMono(b, mid);
    UnitsMono(mid, c);
    OffIs(n, d, b);
    OffIs(n, d, mid);
    OffIs(n, d, c);
    MulStrict(Units(b), Units(mid), d);
    MulStrict(Units(mid), Units(c), d);
  }

  /** A double is the nearest to its own value. */
  lemma NearestToItself(b: nat)
    requires b <= INFINITY
    ensures IsNearest(Units(b), Pow2(1074), b)
  {
    hide Units, Pow, Off;
    var n, d := Units(b), Pow2(1074);
    PowPos(2, 1074);
    OffIs(n, d, b);
    forall c: nat | c <= INFINITY && c != b
      ensures Closer(n, d, b, c)
    {
      OffIs(n, d, c);
      if b < c {
        UnitsMono(b, c);
        MulStrict(Units(b), Units(c), d);
      } else {
        UnitsMono(c, b);
        MulStrict(Units(c), Units(b), d);
      }
    }
  }

  ///// Rounding to a significand

  /** `k` is n / d rounded to a multiple of 2^(u - 1074), which are the doubles around n / d. */
  ghost predicate RoundedTo(n: nat, d: nat, u: nat, k: nat) {
    d > 0 && d * Pow2(u) > 0 && n * Pow2(1074) < TWO53 * (d * Pow2(u)) &&
    (u > 0 ==> TWO52 * (d * Pow2(u)) <= n * Pow2(1074)) &&
    k == Rounded(n * Pow2(1074), d * Pow2(u), Nearest)
  }

  /** The rounded significand is a significand, or the next power of two. */
  lemma RoundedFits(n: nat, d: nat, u: nat, k: nat)
    requires RoundedTo(n, d, u, k)
    ensures k <= TWO53 && (u > 0 ==> k >= TWO52) && Parts(u * TWO52 + k, u, k)
  {
    hide Pow, Rounded;
    var p := d * Pow2(u);
    RoundedMono(n * Pow2(1074), TWO53 * p, p, Nearest);
    RoundedExact(TWO53, p, Nearest);
    if u > 0 {
      RoundedMono(TWO52 * p, n * Pow2(1074), p, Nearest);
      RoundedExact(TWO52, p, Nearest);
    }
  }

  /** No double of any exponent is closer than the rounded one. */
  lemma RoundedIsCloser(n: nat, d: nat, u: nat, k: nat, c: nat)
    requires RoundedTo(n, d, u, k) && c != u * TWO52 + k
    ensures Closer(n, d, u * TWO52 + k, c)
  {
    hide Pow, Rounded, Units, Off;
    var uc, kc := PartsOf(c);
    RoundedFits(n, d, u, k);
    if uc >= u {
      CloserThanMultiple(n, d, u, k, c, uc, kc);
    } else {
      CloserThanSmaller(n, d, u, k, c, uc, kc);
    }
  }

  lemma OffOfParts(n: nat, d: nat, u: nat, k: nat)
    requires Parts(u * TWO52 + k, u, k)
    ensures Off(n, d, u * TWO52 + k) == Distance(n * Pow2(1074), k * (d * Pow2(u)))
  {
    hide Pow, Units;
    var b := u * TWO52 + k;
    UnitsOfParts(b, u, k);
    OffIs(n, d, b);
    MulAssoc(k, Pow2(u), d);
    assert Pow2(u) * d == d * Pow2(u);
  }

  /** A double with at least the same shift is a multiple of the same power. */
  lemma CloserThanMultiple(n: nat, d: nat, u: nat, k: nat, c: nat, uc: nat, kc: nat)
    requires RoundedTo(n, d, u, k) && Parts(u * TWO52 + k, u, k) && Parts(c, uc, kc) && uc >= u && c != u * TWO52 + k
    ensures Closer(n, d, u * TWO52 + k, c)
  {
    hide Pow, Rounded, Units, Off, RoundedTo, Parts, Closer;
    var j := kc * Pow2(uc - u);
    UnitsOfParts(c, uc, kc);
    UnitsOfParts(u * TWO52 + k, u, k);
    MultipleOf(d, u, uc, kc);
    if j == k {
      SameUnits(u * TWO52 + k, c);
    }
    OffOfParts(n, d, u, k);
    OffIs(n, d, c);
    CloserByMultiples(n, d, u, k, c, j);
  }

  lemma CloserByMultiples(n: nat, d: nat, u: nat, k: nat, c: nat, j: nat)
    requires RoundedTo(n, d, u, k) && j != k
    requires Off(n, d, u * TWO52 + k) == Distance(n * Pow2(1074), k * (d * Pow2(u)))
    requires Off(n, d, c) == Distance(n * Pow2(1074), j * (d * Pow2(u)))
    ensures Closer(n, d, u * TWO52 + k, c)
  {
    hide Pow, Rounded, Units, Off;
    NearerThan(n * Pow2(1074), d * Pow2(u), k, j);
  }

  lemma MultipleOf(d: nat, u: nat, uc: nat, kc: nat)
    requires uc >= u
    ensures kc * Pow2(uc) == (kc * Pow2(uc - u)) * Pow2(u)
    ensures (kc * Pow2(uc)) * d == (kc * Pow2(uc - u)) * (d * Pow2(u))
  {
    hide Pow;
    var x, y := Pow2(uc - u), Pow2(u);
    PowAdd(2, uc - u, u);
    MulAssoc(kc, x, y);
    MulAssoc(kc * x, y, d);
    assert y * d == d * y;
  }

  /** A double with a smaller shift is below the binade. */
  lemma CloserThanSmaller(n: nat, d: nat, u: nat, k: nat, c: nat, uc: nat, kc: nat)
    requires RoundedTo(n, d, u, k) && Parts(u * TWO52 + k, u, k) && Parts(c, uc, kc) && uc < u && kc < TWO53
    ensures Closer(n, d, u * TWO52 + k, c)
  {
    hide Pow, Rounded, Units, Off;
    OffOfParts(n, d, u, k);
    OffIs(n, d, c);
    UnitsOfParts(c, uc, kc);
    BelowTheBinade(d, u, uc, kc);
    NearerThan(n * Pow2(1074), d * Pow2(u), k, TWO52);
  }

  lemma SameUnits(b: nat, c: nat)
    requires Units(b) == Units(c)
    ensures b == c
  {
    if b < c {
      UnitsMono(b, c);
    } else if c < b {
      UnitsMono(c, b);
    }
  }

  lemma NearerThan(x: nat, p: nat, k: nat, j: nat)
    requires p > 0 && k == Rounded(x, p, Nearest)
    ensures Distance(x, k * p) <= Distance(x, j * p)
    ensures j != k && Distance(x, k * p) == Distance(x, j * p) ==> k % 2 == 0
  {
    hide Rounded;
    RoundedIsNearest(x, p, Nearest, j);
    RoundedIs(x, p, Nearest);
    if j != k && Distance(x, k * p) == Distance(x, j * p) {
      if j < k {
        MulMono(j + 1, k, p);
        MulDist(j, 1, p);
      } else {
        MulMono(k + 1, j, p);
        MulDist(k, 1, p);
      }
    }
  }

  lemma BelowTheBinade(d: nat, u: nat, uc: nat, kc: nat)
    requires d > 0 && uc < u && kc < TWO53
    ensures (kc * Pow2(uc)) * d < TWO52 * (d * Pow2(u))
  {
    hide Pow;
    PowPos(2, uc);
    PowAdd(2, 1, u - 1);
    PowSmall(2);
    PowMono(2, uc, u - 1);
    MulStrict(kc, TWO53, Pow2(uc));
    MulMono(Pow2(uc), Pow2(u - 1), TWO53);
    assert kc * Pow2(uc) < TWO52 * Pow2(u);
    MulStrict(kc * Pow2(uc), TWO52 * Pow2(u), d);
    MulAssoc(TWO52, Pow2(u), d);
    assert Pow2(u) * d == d * Pow2(u);
  }

  /** The bits of the rounded number, infinity when it is too large. */
  function Clamped(b: nat): nat {
    if b < INFINITY then b else INFINITY
  }

  /** Rounding the significand rounds the number. */
  lemma RoundedIsNearestDouble(n: nat, d: nat, u: nat, k: nat)
    requires RoundedTo(n, d, u, k)
    ensures IsNearest(n, d, Clamped(u * TWO52 + k))
  {
    hide Pow, Rounded, Units, Off;
    var b := u * TWO52 + k;
    forall c: nat | c <= INFINITY && c != Clamped(b)
      ensures Closer(n, d, Clamped(b), c)
    {
      RoundedIsCloser(n, d, u, k, c);
      if b > INFINITY {
        RoundedIsCloser(n, d, u, k, INFINITY);
        UnitsMono(c, INFINITY);
        UnitsMono(INFINITY, b);
        BetweenIsCloser(n, d, c, INFINITY, b);
      }
    }
  }

  /** A number that is at least as close to `b` as to `m` is closer to `m` than to `c`, when m lies between. */
  lemma BetweenIsCloser(n: nat, d: nat, c: nat, m: nat, b: nat)
    requires d > 0 && Units(c) < Units(m) < Units(b) && Closer(n, d, b, m)
    ensures Off(n, d, m) < Off(n, d, c)
  {
    OffIs(n, d, b);
    OffIs(n, d, m);
    OffIs(n, d, c);
    MulStrict(Units(c), Units(m), d);
    MulStrict(Units(m), Units(b), d);
  }

  ///// Too large and too small

  /** From 2^1024 on, infinity is the nearest. */
  lemma LargeIsInfinite(n: nat, d: nat)
    requires d > 0 && n >= Pow2(1024) * d
    ensures IsNearest(n, d, INFINITY)
  {
    hide Pow, Units, Off;
    var x := n * Pow2(1074);
    assert Units(INFINITY) == Pow2(1024) * Pow2(1074) by {
      assert Parts(INFINITY, 2046, TWO52);
      UnitsOfParts(INFINITY, 2046, TWO52);
      TwoPowers();
      PowAdd(2, 52, 2046);
      PowAdd(2, 1024, 1074);
    }
    assert x >= Units(INFINITY) * d by {
      MulMono(Pow2(1024) * d, n, Pow2(1074));
      MulAssoc(Pow2(1024), d, Pow2(1074));
      MulAssoc(Pow2(1024), Pow2(1074), d);
      assert d * Pow2(1074) == Pow2(1074) * d;
    }
    OffIs(n, d, INFINITY);
    forall c: nat | c <= INFINITY && c != INFINITY
      ensures Closer(n, d, INFINITY, c)
    {
      OffIs(n, d, c);
      UnitsMono(c, INFINITY);
      MulStrict(Units(c), Units(INFINITY), d);
    }
  }

  lemma TwiceLast()
    ensures Pow2(1075) == 2 * Pow2(1074)
  {
    PowAdd(2, 1, 1074);
  }

  /** Up to 2^-1075, zero is the nearest. */
  lemma SmallIsZero(n: nat, d: nat)
    requires d > 0 && n * Pow2(1075) <= d
    ensures IsNearest(n, d, 0)
  {
    hide Pow, Off;
    var x := n * Pow2(1074);
    assert 2 * x <= d by {
      TwiceLast();
      MulAssoc(n, 2, Pow2(1074));
      MulAssoc(2, n, Pow2(1074));
    }
    OffIs(n, d, 0);
    assert Units(0) == 0 && 0 * d == 0;
    hide Units;
    forall c: nat | c <= INFINITY && c != 0
      ensures Closer(n, d, 0, c)
    {
      OffIs(n, d, c);
      UnitsMono(0, c);
      MulMono(1, Units(c), d);
    }
  }

  ///// Exactly when

  /** What infinity and the largest finite double count. */
  lemma LastUnits()
    ensures Units(INFINITY) == Pow2(1024) * Pow2(1074)
    ensures Units(INFINITY - 1) == Units(INFINITY) - 2 * (Pow2(970) * Pow2(1074))
  {
    hide Units, Pow;
    TwoPowers();
    PowSmall(2);
    assert Parts(INFINITY, 2046, TWO52) && Parts(INFINITY - 1, 2045, TWO53 - 1);
    UnitsOfParts(INFINITY, 2046, TWO52);
    UnitsOfParts(INFINITY - 1, 2045, TWO53 - 1);
    PowAdd(2, 52, 2046);
    PowAdd(2, 53, 2045);
    PowAdd(2, 1024, 1074);
    PowAdd(2, 970, 1074);
    PowAdd(2, 1, 2044);
  }

  lemma InfinityWithin(n: nat, d: nat)
    requires d > 0
    ensures IsNearest(n, d, INFINITY) <==> 2 * (n * Pow2(1074)) >= Units(INFINITY) * d + Units(INFINITY - 1) * d
  {
    hide Pow, Units, Off;
    var last := INFINITY - 1;
    OffIs(n, d, INFINITY);
    OffIs(n, d, last);
    UnitsMono(last, INFINITY);
    MulStrict(Units(last), Units(INFINITY), d);
    if IsNearest(n, d, INFINITY) {
      assert Closer(n, d, INFINITY, last);
    }
    if 2 * (n * Pow2(1074)) >= Units(INFINITY) * d + Units(last) * d {
      forall c: nat | c <= INFINITY && c != INFINITY
        ensures Closer(n, d, INFINITY, c)
      {
        OffIs(n, d, c);
        if c < last {
          UnitsMono(c, last);
          MulStrict(Units(c), Units(last), d);
        }
      }
    }
  }

  /** Infinity is the nearest from halfway between the largest finite double and 2^1024 on. */
  lemma InfinityIff(n: nat, d: nat)
    requires d > 0
    ensures IsNearest(n, d, INFINITY) <==> n >= (Pow2(1024) - Pow2(970)) * d
  {
    hide Pow, Units, IsNearest;
    PowMono(2, 971, 1024);
    PowAdd(2, 1, 970);
    PowPos(2, 1074);
    LastUnits();
    InfinityWithin(n, d);
    HalfwayIff(n, d, Pow2(1024), Pow2(970), Pow2(1074));
  }

  lemma HalfwayIff(n: nat, d: nat, a: nat, h: nat, u: nat)
    requires u > 0 && a >= 2 * h
    ensures n >= (a - h) * d <==> 2 * (n * u) >= (a * u) * d + (a * u - 2 * (h * u)) * d
  {
    assert (a * u) * d + (a * u - 2 * (h * u)) * d == 2 * (((a - h) * d) * u);
    if n >= (a - h) * d {
      MulMono((a - h) * d, n, u);
    } else {
      MulStrict(n, (a - h) * d, u);
    }
  }

  /** Zero is the nearest up to half the smallest double. */
  lemma ZeroIff(n: nat, d: nat)
    requires d > 0
    ensures IsNearest(n, d, 0) <==> n * Pow2(1075) <= d
  {
    hide Pow, Off;
    if IsNearest(n, d, 0) {
      assert Closer(n, d, 0, 1);
      OffIs(n, d, 0);
      OffIs(n, d, 1);
      TwiceLast();
      assert Units(0) * d == 0 && Units(1) * d == d;
      MulAssoc(n, 2, Pow2(1074));
      MulAssoc(2, n, Pow2(1074));
    }
    if n * Pow2(1075) <= d {
      SmallIsZero(n, d);
    }
  }
}
