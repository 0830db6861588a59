/** Which numbers round to a given double. */
module NearestDoubles {
  import opened Powers
  import opened Doubles

  /** The distance from `b` to the next larger double. */
  ghost function GapAbove(b: nat): (g: nat)
    ensures g > 0
  {
    UnitsStep(b);
    Units(b + 1) - Units(b)
  }

  /** The distance from `b` to the next smaller double. */
  ghost function GapBelow(b: nat): (g: nat)
    requires b > 0
    ensures g > 0
  {
    GapAbove(b - 1)
  }

  /** The gaps differ where a power of two starts a binade that is not the first. */
  predicate Lopsided(b: nat) {
    b % TWO52 == 0 && b >= 2 * TWO52
  }

  lemma Gaps(b: nat, u: nat, k: nat)
    requires Parts(b, u, k) && k < TWO53 && b > 0
    ensures GapAbove(b) == Pow2(u)
    ensures Lopsided(b) <==> u > 0 && k == TWO52
    ensures !Lopsided(b) ==> GapBelow(b) == Pow2(u)
    ensures Lopsided(b) ==> 2 * GapBelow(b) == Pow2(u)
  {
    hide Units, Pow;
    UnitsOfParts(b, u, k);
    UnitsOfParts(b + 1, u, k + 1);
    MulDist(k, 1, Pow2(u));
    LopsidedParts(b, u, k);
    if u > 0 && k == TWO52 {
      UnitsOfParts(b - 1, u - 1, TWO53 - 1);
      PowAdd(2, 1, u - 1);
      PowSmall(2);
    } else {
      UnitsOfParts(b - 1, u, k - 1);
      MulDist(k, 1, Pow2(u));
    }
  }

  lemma LopsidedParts(b: nat, u: nat, k: nat)
    requires Parts(b, u, k) && k < TWO53
    ensures Lopsided(b) <==> u > 0 && k == TWO52
  {
    if k >= TWO52 {
      DivModIs(b, TWO52, u + 1, k - TWO52);
    } else {
      DivModIs(b, TWO52, 0, k);
    }
  }

  /** A double is the nearest one when it is at least as close as its two neighbours. */
  lemma NearestByNeighbours(n: nat, d: nat, b: nat)
    requires d > 0 && 0 < b < INFINITY && Closer(n, d, b, b - 1) && Closer(n, d, b, b + 1)
    ensures IsNearest(n, d, b)
  {
    hide Units, Pow, Off;
    forall c: nat | c <= INFINITY && c != b
      ensures Closer(n, d, b, c)
    {
      if c < b - 1 {
        FartherBelow(n, d, b, c);
      } else if c > b + 1 {
        FartherAbove(n, d, b, c);
      }
    }
  }

  lemma FartherBelow(n: nat, d: nat, b: nat, c: nat)
    requires d > 0 && c < b - 1 && Closer(n, d, b, b - 1)
    ensures Closer(n, d, b, c)
  {
    hide Units, Pow, Off;
    OffIs(n, d, b);
    OffIs(n, d, b - 1);
    OffIs(n, d, c);
    UnitsMono(c, b - 1);
    UnitsStep(b - 1);
    MulStrict(Units(c), Units(b - 1), d);
    MulStrict(Units(b - 1), Units(b), d);
  }

  lemma FartherAbove(n: nat, d: nat, b: nat, c: nat)
    requires d > 0 && b + 1 < c && Closer(n, d, b, b + 1)
    ensures Closer(n, d, b, c)
  {
    hide Units, Pow, Off;
    OffIs(n, d, b);
    OffIs(n, d, b + 1);
    OffIs(n, d, c);
    UnitsMono(b + 1, c);
    UnitsStep(b);
    MulStrict(Units(b), Units(b + 1), d);
    MulStrict(Units(b + 1), Units(c), d);
  }

  /** A number above `b` is nearest to it within half the gap above, one below within half the gap below,
      at exactly half the gap when `b` is even. */
  ghost predicate Within(n: nat, d: nat, b: nat)
    requires b > 0
  {
    var gap := if n * Pow2(1074) >= Units(b) * d then GapAbove(b) else GapBelow(b);
    2 * Off(n, d, b) < gap * d || (2 * Off(n, d, b) == gap * d && b % 2 == 0)
  }

  lemma WithinIs(n: nat, d: nat, b: nat, gap: nat)
    requires b > 0 && gap == if n * Pow2(1074) >= Units(b) * d then GapAbove(b) else GapBelow(b)
    ensures Within(n, d, b) <==> 2 * Off(n, d, b) < gap * d || (2 * Off(n, d, b) == gap * d && b % 2 == 0)
  {
  }

  lemma NearestIffWithin(n: nat, d: nat, b: nat)
    requires d > 0 && 0 < b < INFINITY
    ensures IsNearest(n, d, b) <==> Within(n, d, b)
  {
    hide Units, Pow, Off, IsNearest;
    var x := n * Pow2(1074);
    OffIs(n, d, b);
    OffIs(n, d, b - 1);
    OffIs(n, d, b + 1);
    UnitsStep(b);
    UnitsStep(b - 1);
    MulDist(Units(b), GapAbove(b), d);
    MulDist(Units(b), GapBelow(b), d);
    MulPos(GapAbove(b), d);
    MulPos(GapBelow(b), d);
    assert Units(b + 1) * d == Units(b) * d + GapAbove(b) * d;
    assert Units(b - 1) * d == Units(b) * d - GapBelow(b) * d;
    assert Closer(n, d, b, b - 1) && Closer(n, d, b, b + 1) <==> Within(n, d, b);
    if Within(n, d, b) {
      NearestByNeighbours(n, d, b);
    }
    if IsNearest(n, d, b) {
      NearestMeans(n, d, b, b - 1);
      NearestMeans(n, d, b, b + 1);
    }
  }

  lemma NearestMeans(n: nat, d: nat, b: nat, c: nat)
    requires IsNearest(n, d, b) && c <= INFINITY && c != b
    ensures Closer(n, d, b, c)
  {
  }

  /** n / d is not farther from the double `b` than n2 / d2 is. */
  ghost predicate NotFarther(n: nat, d: nat, n2: nat, d2: nat, b: nat) {
    Off(n, d, b) * d2 <= Off(n2, d2, b) * d
  }

  /** Where the gaps are equal, whatever is not farther than a number that reads back reads back. */
  lemma NotFartherReadsBack(n: nat, d: nat, n2: nat, d2: nat, b: nat)
    requires d > 0 && d2 > 0 && 0 < b < INFINITY && !Lopsided(b)
    requires IsNearest(n2, d2, b) && NotFarther(n, d, n2, d2, b)
    ensures IsNearest(n, d, b)
  {
    hide Units, Pow, Off, IsNearest, Within;
    NearestIffWithin(n, d, b);
    NearestIffWithin(n2, d2, b);
    var u, k := PartsOf(b);
    Gaps(b, u, k);
    var g := Pow2(u);
    WithinIs(n, d, b, g);
    WithinIs(n2, d2, b, g);
    var o, o2 := Off(n, d, b), Off(n2, d2, b);
    assert (2 * o) * d2 <= (2 * o2) * d by {
      MulAssoc(2, o, d2);
      MulAssoc(2, o2, d);
    }
    assert (g * d2) * d == (g * d) * d2 by {
      MulAssoc(g, d2, d);
      MulAssoc(g, d, d2);
      assert d * d2 == d2 * d;
    }
    if 2 * o2 < g * d2 {
      MulStrict(2 * o2, g * d2, d);
      MulCancel(2 * o, g * d, d2);
    } else {
      MulCancelLe(2 * o, g * d, d2);
    }
  }
}
