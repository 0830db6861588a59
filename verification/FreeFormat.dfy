/** The search of `js_dtoa` in dtoa.c for the shortest digits of a double. */
module FreeFormat {
  import opened Powers
  import opened Rounding
  import opened RadixPowers
  import opened MulPow
  import opened Doubles
  import opened RoundToDouble
  import opened ShortestDigits

  ///// A double as a significand and an exponent

  /** b is m * 2^(e - 53), with 2^52 <= m < 2^53, also when b is subnormal. */
  ghost predicate Decoded(b: nat, m: nat, e: int) {
    0 < b < INFINITY && TWO52 <= m < TWO53 && -1073 <= e <= 1024 &&
    if e >= -1021 then b == (e + 1021) * TWO52 + m else b * Pow2(-1021 - e) == m && b < TWO52
  }

  method Decode(b: nat) returns (m: nat, e: int)
    requires 0 < b < INFINITY
    ensures Decoded(b, m, e)
  {
    hide Pow, Log2;
    e, m := b / TWO52, b % TWO52;
    DivModOf(b, TWO52);
    if e == 0 {
      Log2Is(m);
      TwoPowers();
      var l := 52 - Log2(m);
      ShiftToTop(m);
      e := e - (l - 1);
      m := m * Pow2Of(l);
    } else {
      m := m + TWO52;
    }
    e := e - 1022;
  }

  /** The position of the first bit that is set. */
  function Log2(x: nat): nat
    requires x > 0
  {
    if x == 1 then 0 else Log2(x / 2) + 1
  }

  lemma {:induction false} Log2Is(x: nat)
    requires x > 0
    ensures Pow2(Log2(x)) <= x < Pow2(Log2(x) + 1)
  {
    if x > 1 {
      Log2Is(x / 2);
    } else {
      PowSmall(2);
    }
  }

  lemma ShiftToTop(m: nat)
    requires 0 < m < TWO52
    ensures Log2(m) <= 51 && TWO52 <= m * Pow2(52 - Log2(m)) < TWO53
  {
    hide Pow, Log2;
    Log2Is(m);
    TwoPowers();
    var k := Log2(m);
    if k >= 52 {
      PowMono(2, 52, k);
    }
    PowAdd(2, k, 52 - k);
    PowAdd(2, k + 1, 52 - k);
    PowPos(2, 52 - k);
    MulMono(Pow2(k), m, Pow2(52 - k));
    MulStrict(m, Pow2(k + 1), Pow2(52 - k));
  }

  lemma DecodedIs(b: nat, m: nat, e: int)
    requires Decoded(b, m, e)
    ensures Canonical(m, e) && Encode(m, e) == b
  {
    hide Pow;
    if e >= -1021 {
      DivModIs(m, TWO52, 1, m - TWO52);
    } else {
      PowPos(2, -1021 - e);
      MulDiv(b, Pow2(-1021 - e));
    }
  }

  /** Equal bits, equal significand and exponent. */
  lemma EncodeInjective(b: nat, m: nat, e: int, m2: nat, e2: int)
    requires Decoded(b, m, e) && Canonical(m2, e2) && Encode(m2, e2) == b
    ensures m2 == m && e2 == e
  {
    hide Pow;
    if e2 >= -1021 {
      assert e2 <= 1024;
      DivModIs(m2, TWO52, 1, m2 - TWO52);
      assert b == (e2 + 1021) * TWO52 + m2;
      assert b >= TWO52;
      DivModIs(b, TWO52, e2 + 1022, m2 - TWO52);
      DivModIs(b, TWO52, e + 1022, m - TWO52);
    } else {
      var p2 := Pow2(-1021 - e2);
      DivModOf(m2, p2);
      assert m2 == b * p2;
      PowMono(2, 1, -1021 - e2);
      PowSmall(2);
      MulMono(2, p2, b);
      assert b < TWO52;
      SameShift(b, -1021 - e2, -1021 - e);
    }
  }

  lemma SameShift(b: nat, i: nat, j: nat)
    requires TWO52 <= b * Pow2(i) < TWO53 && TWO52 <= b * Pow2(j) < TWO53
    ensures i == j
  {
    if i < j {
      TwiceAsHigh(b, i, j);
    } else if j < i {
      TwiceAsHigh(b, j, i);
    }
  }

  /** What the significand and the exponent say about the value. */
  lemma DecodedUnits(b: nat, m: nat, e: int)
    requires Decoded(b, m, e)
    ensures Units(b) * Pow2(Neg(e + 1021)) == m * Pow2(Pos(e + 1021))
    ensures Pow2(e + 1073) <= Units(b) < Pow2(e + 1074)
  {
    hide Pow, Units;
    TwoPowers();
    PowSmall(2);
    if e >= -1021 {
      UnitsOfParts(b, e + 1021, m);
      PowAdd(2, 52, e + 1021);
      PowAdd(2, 53, e + 1021);
      PowPos(2, e + 1021);
      MulMono(TWO52, m, Pow2(e + 1021));
      MulStrict(m, TWO53, Pow2(e + 1021));
      assert Units(b) * 1 == Units(b);
    } else {
      UnitsOfParts(b, 0, b);
      assert b * 1 == b && m * 1 == m;
      PowAdd(2, e + 1073, -1021 - e);
      PowAdd(2, e + 1074, -1021 - e);
      PowPos(2, -1021 - e);
      MulCancelLe(Pow2(e + 1073), b, Pow2(-1021 - e));
      MulCancel(b, Pow2(e + 1074), Pow2(-1021 - e));
    }
  }

  /** m * 2^(e - 53) over a power of the radix is the double over the unit of the grid. */
  lemma RoundedOnGrid(b: nat, m: nat, e: int, radix: nat, f: int)
    requires radix > 0 && Decoded(b, m, e)
    ensures Den(e - 53, radix, f) > 0
    ensures Rounded(Num(m, e - 53, radix, f), Den(e - 53, radix, f), Nearest) == OnGrid(b, radix, 0 - f)
  {
    hide Pow, Rounded, Units;
    DenPos(e - 53, radix, f);
    OverDenPos(radix, 0 - f);
    DecodedUnits(b, m, e);
    var e1, u := e - 53, Units(b);
    var x, y, c := Pow2(Pos(e1)), Pow2(Neg(e1)), Pow2(1074);
    assert (m * x) * c == u * y by {
      var s, t := Pow2(Neg(e + 1021)), Pow2(Pos(e + 1021));
      PowPos(2, Neg(e + 1021));
      assert ((m * x) * c) * s == (u * y) * s by {
        EqualPowers(m, Pos(e1), 1074, Neg(e + 1021), Neg(e1), Pos(e + 1021), 0);
        PowSmall(2);
        MulAssoc(m, x, c);
        MulAssoc(m, x * c, s);
        MulAssoc(x, c, s);
        MulAssoc(u, y, s);
        MulAssoc(u, s, y);
        MulAssoc(m, t, y);
        assert y * s == s * y && t * y == y * t;
      }
      SameAfterCancel((m * x) * c, u * y, s);
    }
    CrossScaled(m * x, c, u, y, Pow(radix, Pos(f)), Pow(radix, Neg(f)));
    RoundedCross(Num(m, e - 53, radix, f), Den(e - 53, radix, f), OverNum(b, radix, 0 - f), OverDen(radix, 0 - f),
      Nearest);
  }

  lemma CrossScaled(a: nat, c: nat, u: nat, y: nat, v: nat, w: nat)
    requires a * c == u * y
    ensures (a * v) * (c * w) == (u * v) * (y * w)
  {
    MulAssoc(a, v, c * w);
    MulAssoc(v, c, w);
    MulAssoc(a, v * c, w);
    MulAssoc(a, c, v);
    MulAssoc(u, v, y * w);
    MulAssoc(v, y, w);
    MulAssoc(u, v * y, w);
    MulAssoc(u, y, v);
    assert v * c == c * v && v * y == y * v;
    MulAssoc(a, c * v, w);
    MulAssoc(u, y * v, w);
  }

  ///// The estimate of the exponent

  /** radix^(exp0 - 1) <= 2^(e - 1) < radix^exp0, in units. */
  ghost predicate EstimateOk(radix: nat, e: int, exp0: int) {
    e >= -1073 && AtMost(Pow2(1074), radix, exp0 - 1, Pow2(e + 1073)) &&
    !AtMost(Pow2(1074), radix, exp0, Pow2(e + 1073))
  }

  /** radix^(exp0 - 1) is at most the double, so that its digits start at the first place of the grid. */
  lemma FirstDigit(b: nat, m: nat, e: int, radix: nat, exp0: int, p: nat)
    requires radix > 0 && p > 0 && Decoded(b, m, e) && EstimateOk(radix, e, exp0)
    ensures AtMost(Pow2(1074) * Pow(radix, p - 1), radix, exp0 - p, Units(b))
  {
    hide Pow, Units;
    DecodedUnits(b, m, e);
    MulMono(Pow2(e + 1073), Units(b), Pow(radix, Neg(exp0 - 1)));
    assert AtMost(Pow2(1074), radix, p - 1 + (exp0 - p), Units(b));
    AtMostShift(Pow2(1074), radix, p - 1, exp0 - p, Units(b));
  }

  /** With its first digit on the grid, the double has `p` digits or more. */
  lemma EnoughPlaces(b: nat, radix: nat, p: nat, g: int)
    requires radix > 0 && p > 0 && AtMost(Pow2(1074) * Pow(radix, p - 1), radix, g, Units(b))
    ensures OnGrid(b, radix, g) >= Pow(radix, p - 1)
  {
    hide Pow, Units, Rounded;
    var t, x, y := Pow(radix, p - 1), OverNum(b, radix, g), OverDen(radix, g);
    OverDenPos(radix, g);
    assert t * y <= x by {
      MulAssoc(Pow2(1074), t, Pow(radix, Pos(g)));
      MulAssoc(t, Pow2(1074), Pow(radix, Pos(g)));
      assert Pow2(1074) * t == t * Pow2(1074);
    }
    RoundedMono(t * y, x, y, Nearest);
    RoundedExact(t, y, Nearest);
  }

  /** A bound on the double is a bound on what it rounds to. */
  lemma FewPlaces(b: nat, radix: nat, g: int, t: nat)
    requires radix > 0 && !AtMost(Pow2(1074) * t, radix, g, Units(b))
    ensures OnGrid(b, radix, g) <= t
  {
    hide Pow, Units, Rounded;
    var x, y := OverNum(b, radix, g), OverDen(radix, g);
    OverDenPos(radix, g);
    assert x <= t * y by {
      MulAssoc(Pow2(1074), t, Pow(radix, Pos(g)));
      MulAssoc(t, Pow2(1074), Pow(radix, Pos(g)));
      assert Pow2(1074) * t == t * Pow2(1074);
    }
    RoundedMono(x, t * y, y, Nearest);
    RoundedExact(t, y, Nearest);
  }

  /** The double is less than twice the power of the radix that the estimate is for. */
  lemma BelowTwice(b: nat, m: nat, e: int, radix: nat, exp0: int)
    requires radix > 0 && Decoded(b, m, e) && EstimateOk(radix, e, exp0)
    ensures !AtMost(2 * Pow2(1074), radix, exp0, Units(b))
    ensures radix == 2 ==> !AtMost(Pow2(1074), radix, exp0, Units(b))
  {
    hide Pow, Units;
    DecodedUnits(b, m, e);
    var c, x, y := Pow2(1074), Pow(radix, Pos(exp0)), Pow(radix, Neg(exp0));
    PowAdd(2, 1, e + 1073);
    PowSmall(2);
    PowPos(radix, Neg(exp0));
    MulStrict(Units(b), Pow2(e + 1074), y);
    MulAssoc(2, Pow2(e + 1073), y);
    MulAssoc(2, c, x);
    if radix == 2 {
      PowAdd(2, 1074, Pos(exp0));
      PowAdd(2, e + 1073, Neg(exp0));
      PowAdd(2, e + 1074, Neg(exp0));
      if e + 1073 + Neg(exp0) >= 1074 + Pos(exp0) {
        PowMono(2, 1074 + Pos(exp0), e + 1073 + Neg(exp0));
      }
      PowMono(2, e + 1074 + Neg(exp0), 1074 + Pos(exp0));
    }
  }

  ///// One number of digits

  /** The digits that the inner loop finds: the double on the grid of `p` digits, or the power of the radix
      that it is rounded up to. */
  ghost predicate Best(b: nat, radix: nat, p: nat, exp: int, mant: nat)
    requires radix > 0
  {
    var g := exp - p;
    p > 0 && mant == OnGrid(b, radix, g) && Pow(radix, p - 1) <= mant < Pow(radix, p) &&
    (AtMost(Pow2(1074) * Pow(radix, p - 1), radix, g, Units(b)) ||
     (mant == Pow(radix, p - 1) && OnGrid(b, radix, g - 1) == Pow(radix, p) &&
      AtMost(Pow2(1074) * Pow(radix, p - 1), radix, g - 1, Units(b))))
  }

  /** At the estimated exponent. */
  lemma BestAtEstimate(b: nat, m: nat, e: int, radix: nat, exp0: int, p: nat)
    requires radix > 1 && p > 0 && Decoded(b, m, e) && EstimateOk(radix, e, exp0)
    ensures Pow(radix, p - 1) <= OnGrid(b, radix, exp0 - p) <= 2 * Pow(radix, p)
    ensures OnGrid(b, radix, exp0 - p) < Pow(radix, p) ==> Best(b, radix, p, exp0, OnGrid(b, radix, exp0 - p))
  {
    hide Pow, Units, OnGrid, AtMost, EstimateOk;
    FirstDigit(b, m, e, radix, exp0, p);
    EnoughPlaces(b, radix, p, exp0 - p);
    BelowTwice(b, m, e, radix, exp0);
    AtMostShift(2 * Pow2(1074), radix, p, exp0 - p, Units(b));
    assert (2 * Pow2(1074)) * Pow(radix, p) == Pow2(1074) * (2 * Pow(radix, p)) by {
      MulAssoc(Pow2(1074), 2, Pow(radix, p));
    }
    FewPlaces(b, radix, exp0 - p, 2 * Pow(radix, p));
  }

  /** One more is always enough. */
  lemma BestAboveEstimate(b: nat, m: nat, e: int, radix: nat, exp0: int, p: nat)
    requires radix > 1 && p > 0 && Decoded(b, m, e) && EstimateOk(radix, e, exp0)
    requires OnGrid(b, radix, exp0 - p) >= Pow(radix, p)
    ensures Best(b, radix, p, exp0 + 1, OnGrid(b, radix, exp0 + 1 - p))
  {
    if AtMost(Pow2(1074), radix, exp0, Units(b)) {
      FitsAbove(b, m, e, radix, exp0, p);
    } else {
      RoundsUpAbove(b, m, e, radix, exp0, p);
    }
  }

  /** The double is at least the power of the radix. */
  lemma FitsAbove(b: nat, m: nat, e: int, radix: nat, exp0: int, p: nat)
    requires radix > 1 && p > 0 && Decoded(b, m, e) && EstimateOk(radix, e, exp0)
    requires AtMost(Pow2(1074), radix, exp0, Units(b))
    ensures Best(b, radix, p, exp0 + 1, OnGrid(b, radix, exp0 + 1 - p))
  {
    hide Pow, Units, OnGrid, AtMost, EstimateOk;
    var g, t := exp0 + 1 - p, Pow(radix, p - 1);
    BelowTwice(b, m, e, radix, exp0);
    AtMostShift(Pow2(1074), radix, p - 1, g, Units(b));
    EnoughPlaces(b, radix, p, g);
    AtMostShift(2 * Pow2(1074), radix, p - 1, g, Units(b));
    MulAssoc(Pow2(1074), 2, t);
    FewPlaces(b, radix, g, 2 * t);
    NextPower(radix, p);
  }

  lemma NextPower(radix: nat, p: nat)
    requires radix > 1 && p > 0
    ensures Pow(radix, p) == radix * Pow(radix, p - 1) && Pow(radix, p - 1) > 0 && Pow(radix, p - 1) < Pow(radix, p)
    ensures radix > 2 ==> 2 * Pow(radix, p - 1) < Pow(radix, p)
  {
    hide Pow;
    var t := Pow(radix, p - 1);
    PowAdd(radix, 1, p - 1);
    PowSmall(radix);
    PowPos(radix, p - 1);
    MulStrict(1, radix, t);
    if radix > 2 {
      MulStrict(2, radix, t);
    }
  }

  /** The double is below the power of the radix and rounds up to it. */
  lemma RoundsUpAbove(b: nat, m: nat, e: int, radix: nat, exp0: int, p: nat)
    requires radix > 1 && p > 0 && Decoded(b, m, e) && EstimateOk(radix, e, exp0)
    requires OnGrid(b, radix, exp0 - p) >= Pow(radix, p) && !AtMost(Pow2(1074), radix, exp0, Units(b))
    ensures Best(b, radix, p, exp0 + 1, OnGrid(b, radix, exp0 + 1 - p))
  {
    hide Pow, Units, OnGrid, AtMost, EstimateOk;
    var g, t := exp0 + 1 - p, Pow(radix, p - 1);
    FirstDigit(b, m, e, radix, exp0, p);
    AtMostShift(Pow2(1074), radix, p, exp0 - p, Units(b));
    FewPlaces(b, radix, exp0 - p, Pow(radix, p));
    AtMostShift(Pow2(1074), radix, p - 1, g, Units(b));
    FewPlaces(b, radix, g, t);
    NextPower(radix, p);
    RoundsUpAlike(b, radix, g, t);
  }

  /** What rounds up to a power of the radix on the fine grid does so on the next coarser one. */
  lemma RoundsUpAlike(b: nat, radix: nat, g: int, t: nat)
    requires radix > 1 && OnGrid(b, radix, g - 1) >= radix * t && OnGrid(b, radix, g) <= t
    ensures OnGrid(b, radix, g) == t
  {
    hide Pow, Units, Rounded;
    var x, y, x1, y1 := OverNum(b, radix, g), OverDen(radix, g), OverNum(b, radix, g - 1), OverDen(radix, g - 1);
    OverDenPos(radix, g);
    OverDenPos(radix, g - 1);
    RoundedIs(x, y, Nearest);
    RoundedIs(x1, y1, Nearest);
    var j, j1 := OnGrid(b, radix, g), OnGrid(b, radix, g - 1);
    assert x1 * y == radix * (x * y1) by {
      GridRatio(b, radix, g);
    }
    if j < t {
      MulMono(j + 1, t, y);
      MulDist(j, 1, y);
      assert 2 * x <= (2 * t - 1) * y by {
        MulDist(2 * t, 1, y);
        MulAssoc(2, t, y);
      }
      MulMono(radix * t, j1, y1);
      assert (2 * radix * t - 1) * y1 <= 2 * x1 by {
        MulAssoc(2, radix * t, y1);
        MulDist(2 * radix * t, 1, y1);
        MulAssoc(2, radix, t);
      }
      HalfAgainstUnit(radix, t, x, y, x1, y1);
    }
  }

  lemma GridRatio(b: nat, radix: nat, g: int)
    requires radix > 0
    ensures OverNum(b, radix, g - 1) * OverDen(radix, g) == radix * (OverNum(b, radix, g) * OverDen(radix, g - 1))
  {
    hide Pow, Units;
    var u, c := Units(b), Pow2(1074);
    var p, q, p1, q1 := Pow(radix, Pos(g)), Pow(radix, Neg(g)), Pow(radix, Pos(g - 1)), Pow(radix, Neg(g - 1));
    assert q1 * p == radix * (q * p1) by {
      PowSmall(radix);
      PowAdd(radix, Neg(g - 1), Pos(g));
      PowAdd(radix, Neg(g), Pos(g - 1));
      PowAdd(radix, 1, Neg(g) + Pos(g - 1));
    }
    assert (u * q1) * (c * p) == (u * c) * (q1 * p) by { Reorder(u, c, q1, p, 1); Reorder2(u, q1, c, p); }
    assert (u * q) * (c * p1) == (u * c) * (q * p1) by { Reorder2(u, q, c, p1); }
    assert (u * c) * (radix * (q * p1)) == radix * ((u * c) * (q * p1)) by {
      MulAssoc(u * c, radix, q * p1);
      MulAssoc(radix, u * c, q * p1);
      assert (u * c) * radix == radix * (u * c);
    }
  }

  lemma Reorder2(u: nat, q: nat, c: nat, p: nat)
    ensures (u * q) * (c * p) == (u * c) * (q * p)
  {
    MulAssoc(u, q, c * p);
    MulAssoc(q, c, p);
    MulAssoc(u, c, q * p);
    MulAssoc(c, q, p);
    assert q * c == c * q;
  }

  lemma HalfAgainstUnit(radix: nat, t: nat, x: nat, y: nat, x1: nat, y1: nat)
    requires radix > 1 && t > 0 && y > 0 && y1 > 0 && x1 * y == radix * (x * y1)
    requires 2 * x <= (2 * t - 1) * y
    ensures 2 * x1 < (2 * radix * t - 1) * y1
  {
    MulMono(2 * x, (2 * t - 1) * y, y1);
    assert 2 * (x1 * y) == radix * (2 * (x * y1)) by {
      MulAssoc(2, radix, x * y1);
      MulAssoc(radix, 2, x * y1);
    }
    MulAssoc(2, x1, y);
    MulAssoc(2, x, y1);
    var z := y * y1;
    MulPos(y, y1);
    assert ((2 * t - 1) * y) * y1 == (2 * t - 1) * z by { MulAssoc(2 * t - 1, y, y1); }
    assert ((2 * radix * t - 1) * y1) * y == (2 * radix * t - 1) * z by { MulAssoc(2 * radix * t - 1, y1, y); }
    MulMono(2 * (x * y1), (2 * t - 1) * z, radix);
    assert radix * ((2 * t - 1) * z) == (2 * radix * t - radix) * z by {
      MulAssoc(radix, 2 * t - 1, z);
      MulDist(2 * t, 1, radix);
      MulAssoc(2, radix, t);
      MulAssoc(radix, 2, t);
    }
    MulStrict(2 * radix * t - radix, 2 * radix * t - 1, z);
    MulCancel(2 * x1, (2 * radix * t - 1) * y1, y);
  }
}
