/** The closest number with so many digits to a double, and when it is read as the double. */
module ClosestDigits {
  import opened Powers
  import opened Rounding
  import opened MulPow
  import opened Doubles
  import opened NearestDoubles
  import opened ShortestDigits
  import opened FreeFormat

  /** mant * radix^g is read as the double `b`. */
  ghost predicate ReadsBack(b: nat, radix: nat, mant: nat, g: int) {
    IsNearest(GridNum(mant, radix, g), GridDen(radix, g), b)
  }

  /** A number of exactly `p` digits, the last of which is not zero. */
  ghost predicate ProperDigits(radix: nat, mant: nat, p: nat) {
    radix > 0 && p > 0 && Pow(radix, p - 1) <= mant < Pow(radix, p) && mant % radix != 0
  }

  /** No number with fewer digits is read as the double. */
  ghost predicate NoneShorter(b: nat, radix: nat, p: nat) {
    forall i: nat, h: int :: i < Pow(radix, p) ==> !ReadsBack(b, radix, i, h)
  }

  /** No number with as many digits is closer to the double. */
  ghost predicate NoneCloser(b: nat, radix: nat, p: nat, mant: nat, g: int) {
    forall i: nat, h: int :: i < Pow(radix, p) ==> AsClose(b, radix, mant, g, i, h)
  }

  ghost predicate AsClose(b: nat, radix: nat, mant: nat, g: int, i: nat, h: int) {
    NotFarther(GridNum(mant, radix, g), GridDen(radix, g), GridNum(i, radix, h), GridDen(radix, h), b)
  }

  ///// Numbers of equal value

  lemma SameReadsBack(b: nat, radix: nat, g: int, k: nat, i: nat)
    requires radix > 0
    ensures ReadsBack(b, radix, i, g + k) <==> ReadsBack(b, radix, i * Pow(radix, k), g)
  {
    hide Pow, IsNearest, GridNum, GridDen;
    var i2 := i * Pow(radix, k);
    GridIs(i, radix, g + k);
    GridIs(i2, radix, g);
    GridValue(radix, g, k, i);
    if ReadsBack(b, radix, i, g + k) {
      SameNearest(GridNum(i, radix, g + k), GridDen(radix, g + k), GridNum(i2, radix, g), GridDen(radix, g), b);
    }
    if ReadsBack(b, radix, i2, g) {
      SameNearest(GridNum(i2, radix, g), GridDen(radix, g), GridNum(i, radix, g + k), GridDen(radix, g + k), b);
    }
  }

  ///// The best number of so many digits

  /** Nothing with at most `p` digits is closer than the best. */
  lemma BestNotFarther(b: nat, radix: nat, p: nat, exp: int, mant: nat, i: nat, h: int)
    requires radix > 0 && Best(b, radix, p, exp, mant) && i < Pow(radix, p)
    ensures var g := exp - p;
      NotFarther(GridNum(mant, radix, g), GridDen(radix, g), GridNum(i, radix, h), GridDen(radix, h), b)
  {
    hide Pow, Units, Off, OnGrid, AtMost, NotFarther, GridNum, GridDen;
    var g := exp - p;
    if AtMost(Pow2(1074) * Pow(radix, p - 1), radix, g, Units(b)) {
      BestOfDigits(b, radix, p, g, h, i);
    } else {
      var t := Pow(radix, p);
      BestOfDigits(b, radix, p, g - 1, h, i);
      PowAdd(radix, p - 1, 1);
      PowSmall(radix);
      GridValue(radix, g - 1, 1, mant);
      GridIs(mant, radix, g);
      GridIs(t, radix, g - 1);
      EqualNotFarther(GridNum(mant, radix, g), GridDen(radix, g), GridNum(t, radix, g - 1), GridDen(radix, g - 1), b);
      NotFartherTrans(GridNum(mant, radix, g), GridDen(radix, g), GridNum(t, radix, g - 1), GridDen(radix, g - 1),
        GridNum(i, radix, h), GridDen(radix, h), b);
    }
  }

  /** Without its trailing zeros the best still is the closest. */
  lemma StrippedIsClosest(b: nat, radix: nat, p0: nat, exp: int, mant0: nat, p: nat, mant: nat)
    requires radix > 1 && Best(b, radix, p0, exp, mant0) && p <= p0 && mant0 == mant * Pow(radix, p0 - p)
    ensures NoneCloser(b, radix, p, mant, exp - p)
  {
    hide Pow, Units, Off, OnGrid, AtMost, NotFarther, GridNum, GridDen, Best;
    var g0, g, k := exp - p0, exp - p, p0 - p;
    forall i: nat, h: int | i < Pow(radix, p)
      ensures AsClose(b, radix, mant, g, i, h)
    {
      PowMono(radix, p, p0);
      BestNotFarther(b, radix, p0, exp, mant0, i, h);
      GridValue(radix, g0, k, mant);
      GridIs(mant, radix, g);
      GridIs(mant0, radix, g0);
      EqualNotFarther(GridNum(mant, radix, g), GridDen(radix, g), GridNum(mant0, radix, g0), GridDen(radix, g0), b);
      NotFartherTrans(GridNum(mant, radix, g), GridDen(radix, g), GridNum(mant0, radix, g0), GridDen(radix, g0),
        GridNum(i, radix, h), GridDen(radix, h), b);
    }
  }

  lemma EqualNotFarther(n: nat, d: nat, n2: nat, d2: nat, b: nat)
    requires n * d2 == n2 * d
    ensures NotFarther(n, d, n2, d2, b)
  {
    SameValue(n, d, n2, d2, b);
  }

  /** With enough digits the best reads back. */
  lemma BestReadsBack(b: nat, radix: nat, p: nat, exp: int, mant: nat)
    requires radix > 0 && 0 < b < INFINITY && Best(b, radix, p, exp, mant) && Pow(radix, p - 1) >= TWO53
    ensures ReadsBack(b, radix, mant, exp - p)
  {
    hide Pow, Units, OnGrid, AtMost, IsNearest, GridNum, GridDen;
    var g := exp - p;
    if AtMost(Pow2(1074) * Pow(radix, p - 1), radix, g, Units(b)) {
      EnoughDigits(b, radix, p, g);
    } else {
      EnoughDigits(b, radix, p, g - 1);
      PowAdd(radix, p - 1, 1);
      PowSmall(radix);
      SameReadsBack(b, radix, g - 1, 1, mant);
    }
  }

  /** Zero digits are never enough. */
  lemma NoneWithoutDigits(b: nat, radix: nat)
    requires radix > 0 && b > 0
    ensures NoneShorter(b, radix, 0)
  {
    hide IsNearest, GridDen;
    forall i: nat, h: int | i < Pow(radix, 0)
      ensures !ReadsBack(b, radix, i, h)
    {
      GridIs(i, radix, h);
      assert i == 0 && GridNum(0, radix, h) == 0;
      ZeroIsNotNearest(GridDen(radix, h), b);
    }
  }

  ///// Places

  /** The last of `p` digits of the double stands for multiples of radix^g. */
  ghost predicate LastPlace(b: nat, radix: nat, p: nat, g: int) {
    p > 0 && AtMost(Pow2(1074) * Pow(radix, p - 1), radix, g, Units(b)) &&
    !AtMost(Pow2(1074) * Pow(radix, p), radix, g, Units(b))
  }

  /** The closest number with `p` digits is read as the double. */
  ghost predicate ClosestReadsBack(b: nat, radix: nat, p: nat)
    requires radix > 0
  {
    forall g :: LastPlace(b, radix, p, g) ==> ReadsBack(b, radix, OnGrid(b, radix, g), g)
  }

  /** radix^h is at most the double, so lower powers are, too. */
  lemma AtMostLower(c: nat, radix: nat, h: int, k: nat, u: nat)
    requires radix > 0 && AtMost(c, radix, k + h, u)
    ensures AtMost(c, radix, h, u)
  {
    hide Pow;
    AtMostShift(c, radix, k, h, u);
    PowPos(radix, k);
    MulMono(1, Pow(radix, k), c);
    assert c * 1 == c;
    MulMono(c, c * Pow(radix, k), Pow(radix, Pos(h)));
  }

  lemma OneLastPlace(b: nat, radix: nat, p: nat, g: int, g2: int)
    requires radix > 0 && LastPlace(b, radix, p, g) && LastPlace(b, radix, p, g2)
    ensures g == g2
  {
    if g < g2 {
      LowerLastPlace(b, radix, p, g, g2);
    } else if g2 < g {
      LowerLastPlace(b, radix, p, g2, g);
    }
  }

  lemma LowerLastPlace(b: nat, radix: nat, p: nat, g: int, g2: int)
    requires radix > 0 && LastPlace(b, radix, p, g) && LastPlace(b, radix, p, g2)
    ensures g >= g2
  {
    hide Pow, Units, AtMost;
    AtMostShift(Pow2(1074), radix, p - 1, g2, Units(b));
    AtMostShift(Pow2(1074), radix, p, g, Units(b));
    if g < g2 {
      AtMostLower(Pow2(1074), radix, p + g, g2 - 1 - g, Units(b));
    }
  }

  /** The place of the digits that the inner loop finds; they have the value of the closest number. */
  lemma PlaceOfBest(b: nat, radix: nat, p: nat, exp: int, mant: nat) returns (g: int)
    requires radix > 1 && Best(b, radix, p, exp, mant)
    ensures LastPlace(b, radix, p, g) && (g == exp - p || g == exp - p - 1)
    ensures g == exp - p ==> mant == OnGrid(b, radix, g)
    ensures g < exp - p ==> mant == Pow(radix, p - 1) && OnGrid(b, radix, g) == Pow(radix, p)
  {
    hide Pow, Units, OnGrid, AtMost;
    g := exp - p;
    PowAdd(radix, 1, p - 1);
    PowSmall(radix);
    if AtMost(Pow2(1074) * Pow(radix, p - 1), radix, g, Units(b)) {
      if AtMost(Pow2(1074) * Pow(radix, p), radix, g, Units(b)) {
        EnoughPlaces(b, radix, p + 1, g);
      }
    } else {
      g := g - 1;
      AtMostShift(Pow2(1074), radix, p - 1, g + 1, Units(b));
      AtMostShift(Pow2(1074), radix, p, g, Units(b));
    }
  }

  /** The digits that the inner loop finds read back exactly when the closest number does. */
  lemma BestReadsAlike(b: nat, radix: nat, p: nat, exp: int, mant: nat)
    requires radix > 1 && Best(b, radix, p, exp, mant)
    ensures ClosestReadsBack(b, radix, p) <==> ReadsBack(b, radix, mant, exp - p)
  {
    hide Pow, Units, OnGrid, Best, LastPlace, ReadsBack;
    var g := PlaceOfBest(b, radix, p, exp, mant);
    if g < exp - p {
      assert p > 0 by { BestIs(b, radix, p, exp, mant); }
      PowAdd(radix, p - 1, 1);
      PowSmall(radix);
      SameReadsBack(b, radix, g, 1, mant);
    }
    forall g2 | LastPlace(b, radix, p, g2)
      ensures g2 == g
    {
      OneLastPlace(b, radix, p, g, g2);
    }
  }

  lemma BestIs(b: nat, radix: nat, p: nat, exp: int, mant: nat)
    requires radix > 0 && Best(b, radix, p, exp, mant)
    ensures p > 0 && Pow(radix, p - 1) <= mant < Pow(radix, p)
  {
  }

  ///// Trailing zeros

  /** A multiple of the radix on the fine grid is the closest on the next coarser one. */
  lemma CoarserStep(b: nat, radix: nat, g: int, i: nat)
    requires radix > 1 && OnGrid(b, radix, g - 1) == i * radix
    ensures OnGrid(b, radix, g) == i
  {
    hide Pow, Units, Rounded;
    var x, y, x1, y1 := OverNum(b, radix, g), OverDen(radix, g), OverNum(b, radix, g - 1), OverDen(radix, g - 1);
    OverDenPos(radix, g);
    OverDenPos(radix, g - 1);
    RoundedIs(x1, y1, Nearest);
    GridRatio(b, radix, g);
    CoarserIsNear(x, y, x1, y1, radix, i);
    RoundedOnly(x, y, Nearest, i);
  }

  lemma CoarserIsNear(x: nat, y: nat, x1: nat, y1: nat, radix: nat, i: nat)
    requires radix > 1 && y > 0 && y1 > 0 && x1 * y == radix * (x * y1)
    requires IsRounded(x1, y1, Nearest, i * radix)
    ensures IsRounded(x, y, Nearest, i)
  {
    var near, far := x1 - i * radix * y1, x - i * y;
    assert near * y == (radix * far) * y1 by {
      MulDist(x1, i * radix * y1, y);
      MulDist(x, i * y, y1);
      MulAssoc(i * radix, y1, y);
      MulAssoc(i, y, y1);
      MulAssoc(radix, far, y1);
      RadixOut(radix, x * y1, i, y * y1);
      assert y1 * y == y * y1;
    }
    MulAssoc(2, near, y);
    MulAssoc(2, radix * far, y1);
    MulMono(2 * near, y1, y);
    MulMono(0 - y1, 2 * near, y);
    MulDist(0, y1, y);
    MulDist(0, y, y1);
    MulCancelLe(2 * (radix * far), y, y1);
    MulCancelLe(0 - y, 2 * (radix * far), y1);
    if far >= 0 {
      MulMono(2, radix, far);
    } else {
      MulDist(0, far, radix);
      MulMono(2, radix, 0 - far);
    }
  }

  lemma RadixOut(radix: int, a: int, i: int, z: int)
    ensures radix * (a - i * z) == radix * a - i * radix * z
  {
    MulDist(a, i * z, radix);
    MulAssoc(radix, i, z);
    MulAssoc(i, radix, z);
    assert radix * i == i * radix;
  }

  /** The same for several zeros. */
  lemma {:induction false} CoarserExact(b: nat, radix: nat, g: int, k: nat, i: nat)
    requires radix > 1 && OnGrid(b, radix, g) == i * Pow(radix, k)
    ensures OnGrid(b, radix, g + k) == i
    decreases k
  {
    hide OnGrid;
    if k > 0 {
      MulAssoc(i, radix, Pow(radix, k - 1));
      CoarserExact(b, radix, g, k - 1, i * radix);
      CoarserStep(b, radix, g + k, i);
    }
  }

  /** With fewer places, a number that loses only zeros is still the closest. */
  lemma PlaceWithoutZeros(b: nat, radix: nat, p0: nat, g0: int, q: nat, i: nat)
    requires radix > 1 && 0 < q <= p0 && LastPlace(b, radix, p0, g0) && OnGrid(b, radix, g0) == i * Pow(radix, p0 - q)
    ensures LastPlace(b, radix, q, g0 + (p0 - q)) && OnGrid(b, radix, g0 + (p0 - q)) == i
  {
    hide Pow, Units, OnGrid, AtMost;
    var k := p0 - q;
    AtMostShift(Pow2(1074), radix, p0 - 1, g0, Units(b));
    AtMostShift(Pow2(1074), radix, q - 1, g0 + k, Units(b));
    AtMostShift(Pow2(1074), radix, p0, g0, Units(b));
    AtMostShift(Pow2(1074), radix, q, g0 + k, Units(b));
    assert p0 - 1 + g0 == q - 1 + (g0 + k) && p0 + g0 == q + (g0 + k);
    CoarserExact(b, radix, g0, k, i);
  }

  /** For the numbers of digits that removing zeros skips, the closest number is the same. */
  lemma SkippedReadBack(b: nat, radix: nat, p0: nat, exp: int, mant0: nat, p: nat, mant: nat)
    requires radix > 1 && Best(b, radix, p0, exp, mant0) && 0 < p <= p0 && mant0 == mant * Pow(radix, p0 - p)
    requires ReadsBack(b, radix, mant0, exp - p0)
    ensures forall q :: p <= q <= p0 ==> ClosestReadsBack(b, radix, q)
  {
    hide Pow, Units, OnGrid, Best, LastPlace, ReadsBack, ClosestReadsBack;
    BestReadsAlike(b, radix, p0, exp, mant0);
    var g0 := PlaceOfBest(b, radix, p0, exp, mant0);
    forall q | p <= q <= p0
      ensures ClosestReadsBack(b, radix, q)
    {
      var k := p0 - q;
      PowAdd(radix, q - p, k);
      MulAssoc(mant, Pow(radix, q - p), Pow(radix, k));
      PowAdd(radix, q, k);
      var i := if g0 == exp - p0 then mant * Pow(radix, q - p) else Pow(radix, q);
      PlaceWithoutZeros(b, radix, p0, g0, q, i);
      ZerosReadBack(b, radix, p0, g0, q, i);
    }
  }

  lemma ZerosReadBack(b: nat, radix: nat, p0: nat, g0: int, q: nat, i: nat)
    requires radix > 1 && 0 < q <= p0 && LastPlace(b, radix, p0, g0) && OnGrid(b, radix, g0) == i * Pow(radix, p0 - q)
    requires LastPlace(b, radix, q, g0 + (p0 - q)) && OnGrid(b, radix, g0 + (p0 - q)) == i &&
      ClosestReadsBack(b, radix, p0)
    ensures ClosestReadsBack(b, radix, q)
  {
    hide Pow, Units, OnGrid, LastPlace, ReadsBack;
    SameReadsBack(b, radix, g0, p0 - q, i);
    forall g | LastPlace(b, radix, q, g)
      ensures g == g0 + (p0 - q)
    {
      OneLastPlace(b, radix, q, g, g0 + (p0 - q));
    }
  }
}
