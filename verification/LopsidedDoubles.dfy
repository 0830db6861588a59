/** What the search finds, and when it is the shortest: always, unless the double is a power of two, whose gaps to its
    neighbours differ. */
module LopsidedDoubles {
  import opened Powers
  import opened Rounding
  import opened MulPow
  import opened Doubles
  import opened NearestDoubles
  import opened ShortestDigits
  import opened FreeFormat
  import opened ClosestDigits

  /** n / d is above the double. */
  ghost predicate Above(n: nat, d: nat, b: nat) {
    n * Pow2(1074) >= Units(b) * d
  }

  lemma GapsOrdered(b: nat)
    requires b > 0
    ensures GapBelow(b) <= GapAbove(b)
  {
    hide Units, Pow;
    var u, k := PartsOf(b);
    Gaps(b, u, k);
  }

  /** What is not farther reads back, unless it is the only one below. */
  lemma NotFartherAbove(n: nat, d: nat, n2: nat, d2: nat, b: nat)
    requires d > 0 && d2 > 0 && 0 < b < INFINITY && IsNearest(n2, d2, b) && NotFarther(n, d, n2, d2, b)
    requires Above(n, d, b) || !Above(n2, d2, b)
    ensures IsNearest(n, d, b)
  {
    hide Units, Pow, Off, IsNearest, Within;
    NearestIffWithin(n, d, b);
    NearestIffWithin(n2, d2, b);
    GapsOrdered(b);
    var g := if Above(n, d, b) then GapAbove(b) else GapBelow(b);
    var g2 := if Above(n2, d2, b) then GapAbove(b) else GapBelow(b);
    WithinIs(n, d, b, g);
    WithinIs(n2, d2, b, g2);
    WithinByGaps(Off(n, d, b), d, Off(n2, d2, b), d2, g, g2);
  }

  lemma WithinByGaps(o: nat, d: nat, o2: nat, d2: nat, g: nat, g2: nat)
    requires d > 0 && d2 > 0 && o * d2 <= o2 * d && g2 <= g
    ensures 2 * o2 < g2 * d2 ==> 2 * o < g * d
    ensures 2 * o2 == g2 * d2 ==> 2 * o <= g * d
  {
    MulAssoc(2, o, d2);
    MulAssoc(2, o2, d);
    assert (g2 * d2) * d <= (g * d) * d2 by {
      MulMono(g2, g, d2);
      MulMono(g2 * d2, g * d2, d);
      MulAssoc(g, d2, d);
      MulAssoc(g, d, d2);
      assert d * d2 == d2 * d;
    }
    if 2 * o2 < g2 * d2 {
      MulStrict(2 * o2, g2 * d2, d);
      MulCancel(2 * o, g * d, d2);
    } else if 2 * o2 == g2 * d2 {
      MulCancelLe(2 * o, g * d, d2);
    }
  }

  lemma AboveGrid(b: nat, radix: nat, g: int, j: nat)
    ensures Above(GridNum(j, radix, g), GridDen(radix, g), b) <==> j * OverDen(radix, g) >= OverNum(b, radix, g)
  {
    hide Pow, Units;
    MulAssoc(j, Pow(radix, Pos(g)), Pow2(1074));
    assert Pow(radix, Pos(g)) * Pow2(1074) == Pow2(1074) * Pow(radix, Pos(g));
  }

  /** The next multiple up is above the double. */
  lemma NextIsAbove(b: nat, radix: nat, g: int)
    requires radix > 0
    ensures Above(GridNum(OnGrid(b, radix, g) + 1, radix, g), GridDen(radix, g), b)
  {
    hide Pow, Units, Rounded, Above;
    var j := OnGrid(b, radix, g);
    AboveGrid(b, radix, g, j + 1);
    OverDenPos(radix, g);
    RoundedIs(OverNum(b, radix, g), OverDen(radix, g), Nearest);
    MulDist(j, 1, OverDen(radix, g));
  }

  /** Of two multiples above the double the smaller is not farther. */
  lemma LowerNotFarther(b: nat, radix: nat, g: int, j: nat, i: nat)
    requires radix > 0 && j <= i && Above(GridNum(j, radix, g), GridDen(radix, g), b)
    ensures NotFarther(GridNum(j, radix, g), GridDen(radix, g), GridNum(i, radix, g), GridDen(radix, g), b)
  {
    hide Pow, Units, Off, Above;
    AboveGrid(b, radix, g, j);
    GridOff(b, radix, g, j);
    GridOff(b, radix, g, i);
    MulMono(j, i, OverDen(radix, g));
    MulMono(Off(GridNum(j, radix, g), GridDen(radix, g), b), Off(GridNum(i, radix, g), GridDen(radix, g), b),
      GridDen(radix, g));
  }

  /** A number with few digits on a finer grid is not above the double. */
  lemma FinerIsBelow(b: nat, radix: nat, p: nat, g: int, k: nat, i: nat)
    requires radix > 0 && p > 0 && k > 0 && i < Pow(radix, p)
    requires AtMost(Pow2(1074) * Pow(radix, p - 1), radix, g, Units(b))
    ensures i * OverDen(radix, g - k) < OverNum(b, radix, g - k)
  {
    hide Pow, Units;
    var h, t := g - k, Pow(radix, p - 1 + k);
    PowAdd(radix, p - 1, k);
    MulAssoc(Pow2(1074), Pow(radix, p - 1), Pow(radix, k));
    AtMostShift(Pow2(1074) * Pow(radix, p - 1), radix, k, h, Units(b));
    PowMono(radix, p, p - 1 + k);
    OverDenPos(radix, h);
    MulStrict(i, t, OverDen(radix, h));
    MulAssoc(Pow2(1074), t, Pow(radix, Pos(h)));
    MulAssoc(t, Pow2(1074), Pow(radix, Pos(h)));
    assert Pow2(1074) * t == t * Pow2(1074);
  }

  /** When some number of `p` digits reads back, the closest one does or the next one up does. */
  lemma NearestOrNext(b: nat, radix: nat, p: nat, g: int, i: nat, h: int)
    requires radix > 0 && 0 < b < INFINITY && LastPlace(b, radix, p, g) && i < Pow(radix, p) &&
      ReadsBack(b, radix, i, h)
    ensures ReadsBack(b, radix, OnGrid(b, radix, g), g) || ReadsBack(b, radix, OnGrid(b, radix, g) + 1, g)
  {
    hide Pow, Units, Off, OnGrid, AtMost, NotFarther, GridNum, GridDen, IsNearest, Above, OverNum, OverDen;
    var mant := OnGrid(b, radix, g);
    GridIs(mant, radix, g);
    GridIs(i, radix, h);
    BestOfDigits(b, radix, p, g, h, i);
    if Above(GridNum(mant, radix, g), GridDen(radix, g), b) || !Above(GridNum(i, radix, h), GridDen(radix, h), b) {
      NotFartherAbove(GridNum(mant, radix, g), GridDen(radix, g), GridNum(i, radix, h), GridDen(radix, h), b);
    } else if h < g {
      AboveGrid(b, radix, h, i);
      FinerIsBelow(b, radix, p, g, g - h, i);
    } else {
      NextOnGrid(b, radix, g, h, i);
    }
  }

  /** A number above the double that reads back is a multiple: then the first multiple above reads back. */
  lemma NextOnGrid(b: nat, radix: nat, g: int, h: int, i: nat)
    requires radix > 0 && 0 < b < INFINITY && g <= h && ReadsBack(b, radix, i, h) &&
      Above(GridNum(i, radix, h), GridDen(radix, h), b)
    requires !Above(GridNum(OnGrid(b, radix, g), radix, g), GridDen(radix, g), b)
    ensures ReadsBack(b, radix, OnGrid(b, radix, g) + 1, g)
  {
    hide Pow, Units, NotFarther, IsNearest, Above, OverNum, OverDen, OnGrid, GridNum, GridDen;
    var mant, i2 := OnGrid(b, radix, g), i * Pow(radix, h - g);
    SameReadsBack(b, radix, g, h - g, i);
    NextIsAbove(b, radix, g);
    GridIs(mant + 1, radix, g);
    AboveOnBoth(b, radix, g, h, i);
    AboveGrid(b, radix, g, i2);
    AboveGrid(b, radix, g, mant);
    if i2 <= mant {
      MulMono(i2, mant, OverDen(radix, g));
    }
    LowerNotFarther(b, radix, g, mant + 1, i2);
    NotFartherAbove(GridNum(mant + 1, radix, g), GridDen(radix, g), GridNum(i2, radix, g), GridDen(radix, g), b);
  }

  /** The same number on two grids. */
  lemma AboveOnBoth(b: nat, radix: nat, g: int, h: int, i: nat)
    requires radix > 0 && g <= h && Above(GridNum(i, radix, h), GridDen(radix, h), b)
    ensures Above(GridNum(i * Pow(radix, h - g), radix, g), GridDen(radix, g), b)
  {
    hide Pow, Units, GridNum, GridDen;
    var n, d := GridNum(i, radix, h), GridDen(radix, h);
    var n2, d2 := GridNum(i * Pow(radix, h - g), radix, g), GridDen(radix, g);
    GridIs(i, radix, h);
    GridIs(i, radix, g);
    GridValue(radix, g, h - g, i);
    var c, u := Pow2(1074), Units(b);
    MulMono(u * d, n * c, d2);
    assert (n * c) * d2 == (n2 * c) * d by {
      MulAssoc(n, c, d2);
      MulAssoc(n, d2, c);
      MulAssoc(n2, c, d);
      MulAssoc(n2, d, c);
      assert c * d2 == d2 * c && c * d == d * c;
    }
    assert (u * d) * d2 == (u * d2) * d by {
      MulAssoc(u, d, d2);
      MulAssoc(u, d2, d);
      assert d * d2 == d2 * d;
    }
    MulCancelLe(u * d2, n2 * c, d);
  }

  ///// The condition

  /** If the closest number with `p` digits is not read as the double, then the next one up is not either. */
  ghost predicate ClosestDecides(b: nat, radix: nat, p: nat)
    requires radix > 0
  {
    forall g :: LastPlace(b, radix, p, g) && ReadsBack(b, radix, OnGrid(b, radix, g) + 1, g) ==>
      ReadsBack(b, radix, OnGrid(b, radix, g), g)
  }

  /** For every number of digits below `most`. */
  ghost predicate ClosestDecidesBelow(b: nat, radix: nat, most: nat)
    requires radix > 0
  {
    forall p :: 1 <= p < most ==> ClosestDecides(b, radix, p)
  }

  /** What the search finds when it starts with `most` digits: the closest numbers are read as the double down to `p`
      digits, and not with one digit less. */
  ghost predicate Found(b: nat, radix: nat, most: nat, mant: nat, p: nat, exp: int)
    requires radix > 0
  {
    1 <= p <= most && ProperDigits(radix, mant, p) && ReadsBack(b, radix, mant, exp - p) &&
    NoneCloser(b, radix, p, mant, exp - p) &&
    (forall q :: p <= q <= most ==> ClosestReadsBack(b, radix, q)) && (p > 1 ==> !ClosestReadsBack(b, radix, p - 1))
  }

  /** Where the closest number is not read as the double and decides, no number with so many digits is. */
  lemma ClosestDecidesAll(b: nat, radix: nat, p: nat)
    requires radix > 0 && 0 < b < INFINITY && !ClosestReadsBack(b, radix, p) && ClosestDecides(b, radix, p)
    ensures NoneShorter(b, radix, p)
  {
    hide Pow, Units, OnGrid, LastPlace, ReadsBack;
    var g :| LastPlace(b, radix, p, g) && !ReadsBack(b, radix, OnGrid(b, radix, g), g);
    forall i: nat, h: int | i < Pow(radix, p)
      ensures !ReadsBack(b, radix, i, h)
    {
      if ReadsBack(b, radix, i, h) {
        NearestOrNext(b, radix, p, g, i, h);
      }
    }
  }

  /** Where no number with so many digits is read as the double, the next one up is not. */
  lemma NoneShorterDecides(b: nat, radix: nat, p: nat)
    requires radix > 1 && 0 < b < INFINITY && p > 0 && NoneShorter(b, radix, p)
    ensures ClosestDecides(b, radix, p)
  {
    hide Pow, Units, OnGrid, LastPlace, ReadsBack;
    forall g | LastPlace(b, radix, p, g) && ReadsBack(b, radix, OnGrid(b, radix, g) + 1, g)
      ensures ReadsBack(b, radix, OnGrid(b, radix, g), g)
    {
      var mant := OnGrid(b, radix, g);
      PlacesAbove(b, radix, p, g);
      NextPower(radix, p);
      if mant == Pow(radix, p) {
        AboveDecides(b, radix, p, g);
      } else if mant + 1 == Pow(radix, p) {
        PowSmall(radix);
        assert Pow(radix, p - 1) * Pow(radix, 1) == mant + 1;
        SameReadsBack(b, radix, g, 1, Pow(radix, p - 1));
      }
    }
  }

  lemma PlacesAbove(b: nat, radix: nat, p: nat, g: int)
    requires radix > 0 && LastPlace(b, radix, p, g)
    ensures OnGrid(b, radix, g) <= Pow(radix, p)
  {
    hide Pow, Units, OnGrid, AtMost;
    FewPlaces(b, radix, g, Pow(radix, p));
  }

  /** The power of the radix that the double is rounded up to is above it, and closer than the next number. */
  lemma AboveDecides(b: nat, radix: nat, p: nat, g: int)
    requires radix > 0 && 0 < b < INFINITY && LastPlace(b, radix, p, g) && OnGrid(b, radix, g) == Pow(radix, p)
    requires ReadsBack(b, radix, OnGrid(b, radix, g) + 1, g)
    ensures ReadsBack(b, radix, OnGrid(b, radix, g), g)
  {
    hide Pow, Units, NotFarther, IsNearest, Above, OverNum, OverDen, OnGrid, GridNum, GridDen;
    var mant := OnGrid(b, radix, g);
    AboveGrid(b, radix, g, mant);
    PowerIsAbove(b, radix, p, g);
    GridIs(mant, radix, g);
    GridIs(mant + 1, radix, g);
    LowerNotFarther(b, radix, g, mant, mant + 1);
    NotFartherAbove(GridNum(mant, radix, g), GridDen(radix, g), GridNum(mant + 1, radix, g), GridDen(radix, g), b);
  }

  lemma PowerIsAbove(b: nat, radix: nat, p: nat, g: int)
    requires LastPlace(b, radix, p, g)
    ensures Pow(radix, p) * OverDen(radix, g) >= OverNum(b, radix, g)
  {
    hide Pow, Units;
    var t := Pow(radix, p);
    MulAssoc(Pow2(1074), t, Pow(radix, Pos(g)));
    MulAssoc(t, Pow2(1074), Pow(radix, Pos(g)));
    assert Pow2(1074) * t == t * Pow2(1074);
  }

  /** The digits found are the fewest if and only if, for every smaller number of digits, the closest number decides. */
  lemma FewestIff(b: nat, radix: nat, most: nat, mant: nat, p: nat, exp: int)
    requires radix > 1 && 0 < b < INFINITY && Found(b, radix, most, mant, p, exp)
    ensures NoneShorter(b, radix, p - 1) <==> ClosestDecidesBelow(b, radix, most)
  {
    hide Pow, ReadsBack, NoneCloser, ClosestDecides, ClosestReadsBack, ProperDigits, NoneShorter;
    if ClosestDecidesBelow(b, radix, most) {
      if p == 1 {
        NoneWithoutDigits(b, radix);
      } else {
        ClosestDecidesAll(b, radix, p - 1);
      }
    }
    if NoneShorter(b, radix, p - 1) {
      forall q | 1 <= q < most
        ensures ClosestDecides(b, radix, q)
      {
        if q >= p {
          ReadingDecides(b, radix, q);
        } else {
          FewerStillNone(b, radix, q, p - 1);
          NoneShorterDecides(b, radix, q);
        }
      }
    }
  }

  lemma ReadingDecides(b: nat, radix: nat, p: nat)
    requires radix > 0 && ClosestReadsBack(b, radix, p)
    ensures ClosestDecides(b, radix, p)
  {
  }

  lemma FewerStillNone(b: nat, radix: nat, q: nat, p: nat)
    requires radix > 0 && q <= p && NoneShorter(b, radix, p)
    ensures NoneShorter(b, radix, q)
  {
    hide ReadsBack, Pow;
    PowMono(radix, q, p);
  }

  /** With equal gaps on both sides the closest number always decides. */
  lemma EqualGapsDecide(b: nat, radix: nat, p: nat)
    requires radix > 0 && 0 < b < INFINITY && !Lopsided(b)
    ensures ClosestDecides(b, radix, p)
  {
    hide Pow, Units, Off, NotFarther, GridNum, GridDen, IsNearest, OnGrid, LastPlace;
    forall g | LastPlace(b, radix, p, g) && ReadsBack(b, radix, OnGrid(b, radix, g) + 1, g)
      ensures ReadsBack(b, radix, OnGrid(b, radix, g), g)
    {
      var mant := OnGrid(b, radix, g);
      OnGridIsNearest(b, radix, g, mant + 1);
      GridIs(mant, radix, g);
      NotFartherReadsBack(GridNum(mant, radix, g), GridDen(radix, g), GridNum(mant + 1, radix, g), GridDen(radix, g),
        b);
    }
  }

  /** So they are the fewest unless the double is a power of two. */
  lemma FewestUnlessLopsided(b: nat, radix: nat, most: nat, mant: nat, p: nat, exp: int)
    requires radix > 1 && 0 < b < INFINITY && !Lopsided(b) && Found(b, radix, most, mant, p, exp)
    ensures NoneShorter(b, radix, p - 1)
  {
    hide Found, ClosestDecides, NoneShorter;
    forall q | 1 <= q < most
      ensures ClosestDecides(b, radix, q)
    {
      EqualGapsDecide(b, radix, q);
    }
    FewestIff(b, radix, most, mant, p, exp);
  }

  ///// The double 2^-44

  /** The bits of 2^-44. */
  const EXAMPLE: nat := 979 * TWO52

  lemma ExampleUnits()
    ensures Units(EXAMPLE) == Pow2(1030) && Lopsided(EXAMPLE)
    ensures GapAbove(EXAMPLE) == Pow2(978) && 2 * GapBelow(EXAMPLE) == Pow2(978)
  {
    hide Pow, Units;
    assert Parts(EXAMPLE, 978, TWO52);
    UnitsOfParts(EXAMPLE, 978, TWO52);
    TwoPowers();
    PowAdd(2, 52, 978);
    Gaps(EXAMPLE, 978, TWO52);
  }

  lemma TenTo29()
    ensures Pow(10, 29) == 100000000000000000000000000000 && Pow2(44) == 0x1000_0000_0000
    ensures Pow2(52) == TWO52 && Pow2(53) == TWO53
  {
    assert Pow(10, 7) == 10000000 && Pow2(11) == 2048;
    hide Pow;
    TwoPowers();
    PowAdd(10, 7, 7);
    PowAdd(10, 14, 14);
    PowSmall(10);
    PowAdd(10, 28, 1);
    PowAdd(2, 11, 11);
    PowAdd(2, 22, 22);
  }

  /** How far j * 10^-29 is from 2^-44. */
  lemma ExampleOff(j: nat)
    ensures GridNum(j, 10, -29) == j && GridDen(10, -29) == Pow(10, 29)
    ensures Off(j, Pow(10, 29), EXAMPLE) == Pow2(1030) * Distance(j * Pow2(44), Pow(10, 29))
    ensures Above(j, Pow(10, 29), EXAMPLE) <==> j * Pow2(44) >= Pow(10, 29)
  {
    hide Pow, Units;
    ExampleUnits();
    PowSmall(10);
    OffIs(j, Pow(10, 29), EXAMPLE);
    PowAdd(2, 44, 1030);
    PowPos(2, 1030);
    var c, x, y := Pow2(1030), j * Pow2(44), Pow(10, 29);
    MulAssoc(j, Pow2(44), c);
    ScaledDistance(x, y, c);
    assert c * y == y * c && c * Distance(x, y) == Distance(x, y) * c;
    if x >= y {
      MulMono(y, x, c);
    } else {
      MulStrict(x, y, c);
    }
  }

  lemma ExampleReads(j: nat, above: bool)
    requires above <==> j * Pow2(44) >= Pow(10, 29)
    ensures var delta := Distance(j * Pow2(44), Pow(10, 29)); var scale := if above then Pow2(53) else Pow2(53) * 2;
      (scale * delta < Pow(10, 29) ==> ReadsBack(EXAMPLE, 10, j, -29)) &&
      (scale * delta > Pow(10, 29) ==> !ReadsBack(EXAMPLE, 10, j, -29))
  {
    hide Pow, Units, Off, IsNearest, Within, Above;
    var d, delta := Pow(10, 29), Distance(j * Pow2(44), Pow(10, 29));
    ExampleOff(j);
    ExampleUnits();
    PowPos(10, 29);
    PowPos(2, 977);
    PowAdd(2, 1, 977);
    PowAdd(2, 53, 977);
    PowSmall(2);
    NearestIffWithin(j, d, EXAMPLE);
    assert Above(j, d, EXAMPLE) <==> j * Pow2(1074) >= Units(EXAMPLE) * d by { AboveIs(j, d, EXAMPLE); }
    var gap := if above then GapAbove(EXAMPLE) else GapBelow(EXAMPLE);
    WithinIs(j, d, EXAMPLE, gap);
    var c, scale := Pow2(977), if above then Pow2(53) else Pow2(53) * 2;
    assert 2 * Off(j, d, EXAMPLE) == 2 * c * (Pow2(53) * delta) by {
      MulAssoc(Pow2(53), c, delta);
      MulAssoc(c, Pow2(53), delta);
      assert Pow2(53) * c == c * Pow2(53);
      MulAssoc(2, c, Pow2(53) * delta);
    }
    if above {
      assert gap * d == 2 * c * d;
      ScaledOrder(Pow2(53) * delta, d, 2 * c);
    } else {
      assert gap * d == c * d;
      assert 2 * c * (Pow2(53) * delta) == c * (scale * delta) by {
        MulAssoc(2, c, Pow2(53) * delta);
        MulAssoc(Pow2(53), 2, delta);
        MulAssoc(2, Pow2(53), delta);
        MulAssoc(c, 2, Pow2(53) * delta);
        assert 2 * c == c * 2 && Pow2(53) * 2 == 2 * Pow2(53);
      }
      ScaledOrder(scale * delta, d, c);
    }
  }

  lemma AboveIs(n: nat, d: nat, b: nat)
    ensures Above(n, d, b) <==> n * Pow2(1074) >= Units(b) * d
  {
  }

  lemma ScaledOrder(x: nat, y: nat, c: nat)
    requires c > 0
    ensures x < y <==> c * x < c * y
    ensures x == y <==> c * x == c * y
  {
    if x < y {
      MulStrict(x, y, c);
    } else if y < x {
      MulStrict(y, x, c);
    }
  }

  /** 2^-44 can be written with 16 digits, but the closest number with 16 digits is not read as it: whatever the search
      finds has 17 digits. */
  lemma NotAlwaysShortest(mant: nat, p: nat, exp: int)
    requires Found(EXAMPLE, 10, 17, mant, p, exp)
    ensures Lopsided(EXAMPLE) && p == 17
    ensures ReadsBack(EXAMPLE, 10, 5684341886080802, -29) && 5684341886080802 < Pow(10, 16) &&
      !NoneShorter(EXAMPLE, 10, 16)
  {
    hide Pow, Units, IsNearest, GridNum, GridDen, OnGrid, AtMost, NoneCloser, ProperDigits;
    TenTo29();
    ExampleUnits();
    ExampleReads(5684341886080801, false);
    ExampleReads(5684341886080802, true);
    ExampleOnGrid();
    SixteenDigits();
    assert LastPlace(EXAMPLE, 10, 16, -29);
    assert !ClosestReadsBack(EXAMPLE, 10, 16);
  }

  lemma SixteenDigits()
    ensures Pow(10, 15) == 1000000000000000 && Pow(10, 16) == 10000000000000000
  {
    assert Pow(10, 8) == 100000000 && Pow(10, 7) == 10000000;
    hide Pow;
    PowAdd(10, 7, 8);
    PowAdd(10, 8, 8);
  }

  lemma ExampleOnGrid()
    ensures OnGrid(EXAMPLE, 10, -29) == 5684341886080801
    ensures AtMost(Pow2(1074) * Pow(10, 15), 10, -29, Units(EXAMPLE)) &&
      !AtMost(Pow2(1074) * Pow(10, 16), 10, -29, Units(EXAMPLE))
  {
    hide Pow, Units, Rounded;
    ExampleUnits();
    TenTo29();
    SixteenDigits();
    PowSmall(10);
    PowAdd(2, 44, 1030);
    PowPos(2, 1030);
    var c, x, y := Pow2(1030), Pow(10, 29), Pow2(44);
    OverDenPos(10, -29);
    RoundedScaled(x, y, c, Nearest);
    RoundedOnly(x, y, Nearest, 5684341886080801);
    assert c * x == x * c;
    var t, t2 := Pow(10, 15), Pow(10, 16);
    assert y * t <= x < y * t2;
    MulMono(y * t, x, c);
    MulStrict(x, y * t2, c);
    MulAssoc(y, t, c);
    MulAssoc(y, c, t);
    MulAssoc(y, t2, c);
    MulAssoc(y, c, t2);
    assert t * c == c * t && t2 * c == c * t2;
  }
}
