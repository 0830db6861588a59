/** Why the search of `js_dtoa` for the shortest digits is right: the nearest number with a given number of digits
    reads back when any number with so many digits does. */
module ShortestDigits {
  import opened Powers
  import opened Rounding
  import opened MulPow
  import opened Doubles
  import opened NearestDoubles

  ///// Comparing with powers of a radix

  /** a * radix^h <= c, for h of either sign. */
  ghost predicate AtMost(a: nat, radix: nat, h: int, c: nat) {
    a * Pow(radix, Pos(h)) <= c * Pow(radix, Neg(h))
  }

  /** a * radix^(p + g) <= c, with the factors grouped either way. */
  lemma AtMostShift(a: nat, radix: nat, p: nat, g: int, c: nat)
    requires radix > 0
    ensures AtMost(a, radix, p + g, c) <==> AtMost(a * Pow(radix, p), radix, g, c)
  {
    hide Pow;
    PowPos(radix, Neg(p + g));
    PowPos(radix, Neg(g));
    SplitPower(radix, p, g);
    ShiftOrder(a, Pow(radix, Pos(p + g)), Pow(radix, Neg(p + g)), Pow(radix, p), Pow(radix, Pos(g)), Pow(radix, Neg(g)),
      c);
  }

  /** radix^(p + g) is radix^p * radix^g, for g of either sign. */
  lemma SplitPower(radix: nat, p: nat, g: int)
    ensures (Pow(radix, p) * Pow(radix, Pos(g))) * Pow(radix, Neg(p + g)) == Pow(radix, Pos(p + g)) * Pow(radix, Neg(g))
  {
    hide Pow;
    PowAdd(radix, p, Pos(g));
    PowAdd(radix, p + Pos(g), Neg(p + g));
    PowAdd(radix, Pos(p + g), Neg(g));
  }

  lemma ShiftOrder(a: nat, x: nat, y: nat, q: nat, z: nat, w: nat, c: nat)
    requires y > 0 && w > 0 && (q * z) * y == x * w
    ensures a * x <= c * y <==> a * q * z <= c * w
  {
    assert (a * x) * w == (a * q * z) * y by {
      MulAssoc(a, x, w);
      MulAssoc(a, q * z, y);
      MulAssoc(a, q, z);
    }
    assert (c * y) * w == (c * w) * y by {
      MulAssoc(c, y, w);
      MulAssoc(c, w, y);
      assert y * w == w * y;
    }
    if a * x <= c * y {
      MulMono(a * x, c * y, w);
      MulCancelLe(a * q * z, c * w, y);
    }
    if a * q * z <= c * w {
      MulMono(a * q * z, c * w, y);
      MulCancelLe(a * x, c * y, w);
    }
  }

  ///// Numbers on a grid

  /** j * radix^g as a fraction. */
  ghost function GridNum(j: nat, radix: nat, g: int): nat {
    j * Pow(radix, Pos(g))
  }

  ghost function GridDen(radix: nat, g: int): (d: nat)
  {
    Pow(radix, Neg(g))
  }

  lemma GridIs(j: nat, radix: nat, g: int)
    requires radix > 0
    ensures Num(j, 0, radix, g) == GridNum(j, radix, g) && Den(0, radix, g) == GridDen(radix, g) &&
      GridDen(radix, g) > 0
  {
    PowPos(radix, Neg(g));
    assert j * 1 == j && 1 * Pow(radix, Neg(g)) == Pow(radix, Neg(g));
  }

  /** The double `b` over the unit radix^g of the grid, as a fraction. */
  ghost function OverNum(b: nat, radix: nat, g: int): nat {
    Units(b) * Pow(radix, Neg(g))
  }

  ghost function OverDen(radix: nat, g: int): nat {
    Pow2(1074) * Pow(radix, Pos(g))
  }

  lemma OverDenPos(radix: nat, g: int)
    requires radix > 0
    ensures OverDen(radix, g) > 0
  {
    PowPos(2, 1074);
    PowPos(radix, Pos(g));
    MulPos(Pow2(1074), Pow(radix, Pos(g)));
  }

  /** The multiple of radix^g nearest to the double `b`. */
  ghost function OnGrid(b: nat, radix: nat, g: int): nat
    requires radix > 0
  {
    OverDenPos(radix, g);
    Rounded(OverNum(b, radix, g), OverDen(radix, g), Nearest)
  }

  lemma GridOff(b: nat, radix: nat, g: int, j: nat)
    ensures Off(GridNum(j, radix, g), GridDen(radix, g), b) == Distance(j * OverDen(radix, g), OverNum(b, radix, g))
  {
    hide Pow, Units;
    OffIs(GridNum(j, radix, g), GridDen(radix, g), b);
    MulAssoc(j, Pow(radix, Pos(g)), Pow2(1074));
    assert Pow(radix, Pos(g)) * Pow2(1074) == Pow2(1074) * Pow(radix, Pos(g));
  }

  /** No multiple of radix^g is closer. */
  lemma OnGridIsNearest(b: nat, radix: nat, g: int, i: nat)
    requires radix > 0
    ensures var j := OnGrid(b, radix, g);
      NotFarther(GridNum(j, radix, g), GridDen(radix, g), GridNum(i, radix, g), GridDen(radix, g), b)
  {
    hide Pow, Units, Off, Rounded;
    var j := OnGrid(b, radix, g);
    OverDenPos(radix, g);
    RoundedIsNearest(OverNum(b, radix, g), OverDen(radix, g), Nearest, i);
    GridOff(b, radix, g, j);
    GridOff(b, radix, g, i);
    MulMono(Off(GridNum(j, radix, g), GridDen(radix, g), b), Off(GridNum(i, radix, g), GridDen(radix, g), b),
      GridDen(radix, g));
  }

  ///// Distances of fractions

  lemma SameValue(n: nat, d: nat, n2: nat, d2: nat, b: nat)
    requires n * d2 == n2 * d
    ensures Off(n, d, b) * d2 == Off(n2, d2, b) * d
  {
    hide Pow, Units;
    OffIs(n, d, b);
    OffIs(n2, d2, b);
    var c, u := Pow2(1074), Units(b);
    assert (n * c) * d2 == (n2 * c) * d by {
      MulAssoc(n, c, d2);
      MulAssoc(n, d2, c);
      MulAssoc(n2, c, d);
      MulAssoc(n2, d, c);
      assert c * d2 == d2 * c && c * d == d * c;
    }
    assert (u * d) * d2 == (u * d2) * d by {
      MulAssoc(u, d, d2);
      MulAssoc(u, d2, d);
      assert d * d2 == d2 * d;
    }
    ScaledDistance(n * c, u * d, d2);
    ScaledDistance(n2 * c, u * d2, d);
  }

  /** Fractions of equal value are read alike. */
  lemma SameNearest(n: nat, d: nat, n2: nat, d2: nat, b: nat)
    requires d > 0 && d2 > 0 && n * d2 == n2 * d && IsNearest(n, d, b)
    ensures IsNearest(n2, d2, b)
  {
    forall c: nat | c <= INFINITY && c != b
      ensures Closer(n2, d2, b, c)
    {
      StillCloser(n, d, n2, d2, b, c);
    }
  }

  lemma StillCloser(n: nat, d: nat, n2: nat, d2: nat, b: nat, c: nat)
    requires d > 0 && d2 > 0 && n * d2 == n2 * d && Closer(n, d, b, c)
    ensures Closer(n2, d2, b, c)
  {
    hide Off;
    SameValue(n, d, n2, d2, b);
    SameValue(n, d, n2, d2, c);
    var x, y, x2, y2 := Off(n, d, b), Off(n, d, c), Off(n2, d2, b), Off(n2, d2, c);
    SameCloser(x, y, d, x2, y2, d2);
  }

  lemma SameCloser(x: nat, y: nat, d: nat, x2: nat, y2: nat, d2: nat)
    requires d > 0 && d2 > 0 && x * d2 == x2 * d && y * d2 == y2 * d
    ensures x < y <==> x2 < y2
    ensures x == y <==> x2 == y2
  {
    if x < y {
      MulStrict(x, y, d2);
      MulCancel(x2, y2, d);
    } else if x > y {
      MulStrict(y, x, d2);
      MulCancel(y2, x2, d);
    } else {
      MulCancelLe(x2, y2, d);
      MulCancelLe(y2, x2, d);
    }
  }

  lemma ScaledDistance(x: int, y: int, c: nat)
    ensures Distance(x, y) * c == Distance(x * c, y * c)
  {
    MulDist(x, y, c);
    MulDist(y, x, c);
    if x < y {
      MulMono(x, y, c);
    } else {
      MulMono(y, x, c);
    }
  }

  lemma NotFartherTrans(n: nat, d: nat, n2: nat, d2: nat, n3: nat, d3: nat, b: nat)
    requires d2 > 0 && NotFarther(n, d, n2, d2, b) && NotFarther(n2, d2, n3, d3, b)
    ensures NotFarther(n, d, n3, d3, b)
  {
    hide Off;
    var x, y, z := Off(n, d, b), Off(n2, d2, b), Off(n3, d3, b);
    MulMono(x * d2, y * d, d3);
    MulMono(y * d3, z * d2, d);
    assert (x * d2) * d3 == (x * d3) * d2 by {
      MulAssoc(x, d2, d3);
      MulAssoc(x, d3, d2);
      assert d2 * d3 == d3 * d2;
    }
    assert (y * d) * d3 == (y * d3) * d by {
      MulAssoc(y, d, d3);
      MulAssoc(y, d3, d);
      assert d * d3 == d3 * d;
    }
    assert (z * d2) * d == (z * d) * d2 by {
      MulAssoc(z, d2, d);
      MulAssoc(z, d, d2);
      assert d * d2 == d2 * d;
    }
    MulCancelLe(x * d3, z * d, d2);
  }

  /** A number that is between another and the double is not farther. */
  lemma BetweenNotFarther(n: nat, d: nat, n2: nat, d2: nat, b: nat)
    requires n2 * d <= n * d2 && n * Pow2(1074) <= Units(b) * d && d > 0 && d2 > 0
    ensures NotFarther(n, d, n2, d2, b)
  {
    hide Pow, Units;
    OffIs(n, d, b);
    OffIs(n2, d2, b);
    var c, u := Pow2(1074), Units(b);
    assert (n2 * c) * d <= (n * c) * d2 by {
      MulMono(n2 * d, n * d2, c);
      MulAssoc(n, c, d2);
      MulAssoc(n, d2, c);
      MulAssoc(n2, c, d);
      MulAssoc(n2, d, c);
      assert c * d2 == d2 * c && c * d == d * c;
    }
    assert (u * d) * d2 == (u * d2) * d by {
      MulAssoc(u, d, d2);
      MulAssoc(u, d2, d);
      assert d * d2 == d2 * d;
    }
    MulMono(n * c, u * d, d2);
    MulCancelLe(n2 * c, u * d2, d);
    MulDist(u * d, n * c, d2);
    MulDist(u * d2, n2 * c, d);
  }

  ///// Numbers with few digits

  lemma GridValue(radix: nat, g: int, k: nat, i: nat)
    requires radix > 0
    ensures GridNum(i, radix, g + k) * GridDen(radix, g) == GridNum(i * Pow(radix, k), radix, g) * GridDen(radix, g + k)
  {
    hide Pow;
    SplitPower(radix, k, g);
    assert k + g == g + k;
    ValueOrder(i, Pow(radix, Pos(g + k)), Pow(radix, Neg(g + k)), Pow(radix, k), Pow(radix, Pos(g)),
      Pow(radix, Neg(g)));
  }

  lemma ValueOrder(i: nat, x: nat, y: nat, q: nat, z: nat, w: nat)
    requires (q * z) * y == x * w
    ensures (i * x) * w == ((i * q) * z) * y
  {
    MulAssoc(i, x, w);
    MulAssoc(i, q, z);
    MulAssoc(i, q * z, y);
  }

  /** A multiple of a coarser unit is a multiple of the finer one. */
  lemma CoarserNotCloser(b: nat, radix: nat, g: int, k: nat, i: nat)
    requires radix > 0
    ensures var j := OnGrid(b, radix, g);
      NotFarther(GridNum(j, radix, g), GridDen(radix, g), GridNum(i, radix, g + k), GridDen(radix, g + k), b)
  {
    hide Pow, Units, Off, Rounded, OnGrid, GridNum, GridDen;
    var j, i2 := OnGrid(b, radix, g), i * Pow(radix, k);
    OnGridIsNearest(b, radix, g, i2);
    GridIs(j, radix, g);
    GridIs(i, radix, g + k);
    GridValue(radix, g, k, i);
    SameValue(GridNum(i, radix, g + k), GridDen(radix, g + k), GridNum(i2, radix, g), GridDen(radix, g), b);
    NotFartherTrans(GridNum(j, radix, g), GridDen(radix, g), GridNum(i2, radix, g), GridDen(radix, g),
      GridNum(i, radix, g + k), GridDen(radix, g + k), b);
  }

  /** A number with no more digits on a finer grid is below the power of the radix that the double is not below. */
  lemma FinerNotCloser(b: nat, radix: nat, p: nat, g: int, k: nat, i: nat)
    requires radix > 0 && p > 0 && k > 0 && i < Pow(radix, p)
    requires AtMost(Pow2(1074) * Pow(radix, p - 1), radix, g, Units(b))
    ensures var j := OnGrid(b, radix, g);
      NotFarther(GridNum(j, radix, g), GridDen(radix, g), GridNum(i, radix, g - k), GridDen(radix, g - k), b)
  {
    hide Pow, Units, Off, Rounded, OnGrid;
    var j, t := OnGrid(b, radix, g), Pow(radix, p - 1);
    OnGridIsNearest(b, radix, g, t);
    GridIs(t, radix, g);
    GridIs(i, radix, g - k);
    assert GridNum(t, radix, g) * Pow2(1074) <= Units(b) * GridDen(radix, g) by {
      MulAssoc(t, Pow(radix, Pos(g)), Pow2(1074));
      MulAssoc(Pow2(1074), t, Pow(radix, Pos(g)));
      assert (t * Pow(radix, Pos(g))) * Pow2(1074) == Pow2(1074) * (t * Pow(radix, Pos(g)));
    }
    assert GridNum(i, radix, g - k) * GridDen(radix, g) <= GridNum(t, radix, g) * GridDen(radix, g - k) by {
      GridValue(radix, g - k, k, t);
      PowAdd(radix, p - 1, k);
      PowMono(radix, p, p - 1 + k);
      MulMono(i, t * Pow(radix, k), Pow(radix, Pos(g - k)));
      MulMono(GridNum(i, radix, g - k), GridNum(t * Pow(radix, k), radix, g - k), GridDen(radix, g));
    }
    BetweenNotFarther(GridNum(t, radix, g), GridDen(radix, g), GridNum(i, radix, g - k), GridDen(radix, g - k), b);
    NotFartherTrans(GridNum(j, radix, g), GridDen(radix, g), GridNum(t, radix, g), GridDen(radix, g),
      GridNum(i, radix, g - k), GridDen(radix, g - k), b);
  }

  /** No number with at most `p` digits is closer than the one on the grid that gives the double `p` digits. */
  lemma BestOfDigits(b: nat, radix: nat, p: nat, g: int, h: int, i: nat)
    requires radix > 0 && p > 0 && i < Pow(radix, p)
    requires AtMost(Pow2(1074) * Pow(radix, p - 1), radix, g, Units(b))
    ensures var j := OnGrid(b, radix, g);
      NotFarther(GridNum(j, radix, g), GridDen(radix, g), GridNum(i, radix, h), GridDen(radix, h), b)
  {
    if h >= g {
      CoarserNotCloser(b, radix, g, h - g, i);
    } else {
      FinerNotCloser(b, radix, p, g, g - h, i);
    }
  }

  ///// Enough digits

  /** A number that is exactly on the grid reads back. */
  lemma ExactReadsBack(b: nat, radix: nat, g: int)
    requires radix > 0 && 0 < b < INFINITY && OverDen(radix, g) > 0 && OverNum(b, radix, g) % OverDen(radix, g) == 0
    ensures IsNearest(GridNum(OnGrid(b, radix, g), radix, g), GridDen(radix, g), b)
  {
    hide Pow, Units, Off, IsNearest, Within;
    var j := OnGrid(b, radix, g);
    var n, d := GridNum(j, radix, g), GridDen(radix, g);
    GridIs(j, radix, g);
    GridOff(b, radix, g, j);
    DivModOf(OverNum(b, radix, g), OverDen(radix, g));
    NearestIffWithin(n, d, b);
    var gap := if n * Pow2(1074) >= Units(b) * d then GapAbove(b) else GapBelow(b);
    WithinIs(n, d, b, gap);
    MulPos(gap, d);
  }

  /** With 53 bits' worth of digits behind the first the nearest number always reads back. */
  lemma EnoughDigits(b: nat, radix: nat, p: nat, g: int)
    requires radix > 0 && p > 0 && 0 < b < INFINITY && Pow(radix, p - 1) >= TWO53
    requires AtMost(Pow2(1074) * Pow(radix, p - 1), radix, g, Units(b))
    ensures IsNearest(GridNum(OnGrid(b, radix, g), radix, g), GridDen(radix, g), b)
  {
    hide Pow, Units, Off, Rounded, IsNearest, Within, AtMost;
    var j, t := OnGrid(b, radix, g), Pow(radix, p - 1);
    var n, d := GridNum(j, radix, g), GridDen(radix, g);
    var x, y := OverNum(b, radix, g), OverDen(radix, g);
    GridIs(j, radix, g);
    OverDenPos(radix, g);
    GridOff(b, radix, g, j);
    RoundedIs(x, y, Nearest);
    var u, k := PartsOf(b);
    Gaps(b, u, k);
    UnitsOfParts(b, u, k);
    UnitAndGap(b, radix, t, g, u, k);
    UnitOrExact(x, t, y, GapBelow(b) * d);
    if y == GapBelow(b) * d {
      ExactReadsBack(b, radix, g);
    } else {
      NearestIffWithin(n, d, b);
      var gap := if n * Pow2(1074) >= Units(b) * d then GapAbove(b) else GapBelow(b);
      WithinIs(n, d, b, gap);
      MulMono(GapBelow(b), gap, d);
      assert 2 * Off(n, d, b) <= y;
    }
  }

  /** The double over the unit of the grid, and against the gap below the double. */
  lemma UnitAndGap(b: nat, radix: nat, t: nat, g: int, u: nat, k: nat)
    requires radix > 0 && b > 0 && AtMost(Pow2(1074) * t, radix, g, Units(b))
    requires Parts(b, u, k) && k < TWO53 && Units(b) == k * Pow2(u)
    ensures t * OverDen(radix, g) <= OverNum(b, radix, g) <= TWO53 * (GapBelow(b) * GridDen(radix, g))
    ensures GapBelow(b) <= GapAbove(b)
  {
    hide Pow, Units;
    Gaps(b, u, k);
    var gap, d := GapBelow(b), GridDen(radix, g);
    assert Units(b) <= TWO53 * gap by {
      if !Lopsided(b) {
        MulMono(k, TWO53, gap);
      }
    }
    MulAssoc(Pow2(1074), t, Pow(radix, Pos(g)));
    MulAssoc(t, Pow2(1074), Pow(radix, Pos(g)));
    assert Pow2(1074) * t == t * Pow2(1074);
    MulMono(Units(b), TWO53 * gap, d);
    MulAssoc(TWO53, gap, d);
  }

  lemma UnitOrExact(x: nat, t: nat, y: nat, gap: nat)
    requires y > 0 && TWO53 <= t && t * y <= x <= TWO53 * gap
    ensures y <= gap && (y == gap ==> x % y == 0)
  {
    MulMono(TWO53, t, gap);
    assert y * t == t * y && gap * t == t * gap;
    MulCancelLe(y, gap, t);
    if y == gap {
      MulDiv(t, y);
    }
  }

  /** Zero reads back as zero only. */
  lemma ZeroIsNotNearest(d: nat, b: nat)
    requires d > 0 && b > 0
    ensures !IsNearest(0, d, b)
  {
    hide Pow, Units;
    ZeroUnits();
    UnitsMono(0, b);
    OffIs(0, d, 0);
    OffIs(0, d, b);
    MulPos(Units(b), d);
    if IsNearest(0, d, b) {
      NearestMeans(0, d, b, 0);
    }
  }

  lemma ZeroUnits()
    ensures Units(0) == 0
  {
  }
}
