/** Rounding a big number to a double (`round_to_d`, `mul_pow_round_to_d` and the last step of `js_atod` in dtoa.c). */
module RoundToDouble {
  import opened Powers
  import opened Limbs
  import opened Rounding
  import opened Bignum
  import opened RadixPowers
  import opened MulPow
  import opened Doubles

  /** How many bits of a number below 2^e a double keeps. */
  function Precision(e: int): int {
    if e < -1021 then 53 - (-1021 - e) else 53
  }

  /** The shift, in units of 2^-1074, of the last of these bits. */
  function UnitShift(e: int): nat {
    if e < -1021 then 0 else e + 1021
  }

  /** The bits of m * 2^(e - 53), where 2^52 <= m < 2^53 or m = 0. */
  function Encode(m: nat, e: int): nat {
    if m == 0 then 0
    else if e > 1024 then INFINITY
    else if e < -1073 then 0
    else if e < -1021 then m / Pow2Of(-1021 - e)
    else (e + 1022) * TWO52 + m % TWO52
  }

  function Pow2Of(k: nat): (p: nat)
    ensures p == Pow2(k) && p > 0
  {
    PowPos(2, k);
    Pow2(k)
  }

  /** The number v * 2^-offset rounded to a significand and an exponent. */
  method RoundToD(a: Mpb, offset: int) returns (m: nat, e: int, ghost log: int, ghost k: nat)
    requires a.Valid() && a.Normal() && a.len + 2 <= a.tab.Length
    modifies a, a.tab
    ensures a.Valid()
    ensures old(a.Value()) == 0 ==> m == 0
    ensures old(a.Value()) > 0 ==> log >= 0 && Pow2(log) <= old(a.Value()) < Pow2(log + 1)
    ensures old(a.Value()) > 0 ==> Rounding53(old(a.Value()), offset, log, k, m, e)
    ensures m == 0 || TWO52 <= m < TWO53
  {
    hide Pow, Val, BasePow, ShiftRounded, Precision;
    k := 0;
    if a.tab[0] == 0 && a.len == 1 {
      m, e, log := 0, 0, -1;
      assert a.tab[..1] == [0];
      ValOne(0);
    } else {
      ghost var v := a.Value();
      var l := a.FloorLog2();
      NotZero(a.tab[..a.len]);
      log := l;
      e := l + 1 - offset;
      var prec := Precision(e);
      PrecisionIs(e);
      ShiftRoundedFits(v, l, prec);
      a.ShiftRound(e + offset - prec, Nearest);
      m := a.GetU64();
      k := m;
      Significand(m, prec);
      m := m * Pow2Of(53 - prec);
      if m >= TWO53 {
        m := m / 2;
        e := e + 1;
      }
    }
  }

  lemma PrecisionIs(e: int)
    ensures Precision(e) == (if e < -1021 then e + 1074 else 53) && Precision(e) <= 53
  {
  }

  lemma NotZero(s: seq<Limb>)
    requires |s| > 0 && (|s| > 1 ==> s[|s| - 1] != 0) && !(s[0] == 0 && |s| == 1)
    ensures Val(s) > 0
  {
    if Val(s) == 0 {
      ValIsZero(s);
    }
  }

  /** How `RoundToD` gets from the rounded bits to the significand. */
  ghost predicate Rounding53(v: nat, offset: int, log: nat, k: nat, m: nat, e: int) {
    var e0 := log + 1 - offset;
    var prec := Precision(e0);
    k == ShiftRounded(v, log + 1 - prec, Nearest) &&
    if k * Pow2(53 - prec) >= TWO53 then m == k * Pow2(53 - prec) / 2 && e == e0 + 1
    else m == k * Pow2(53 - prec) && e == e0
  }

  /** Rounding to `prec` bits gives a number of `prec` bits or the next power of two; to none or fewer, zero or one. */
  lemma ShiftRoundedFits(v: nat, log: nat, prec: int)
    requires Pow2(log) <= v < Pow2(log + 1) && prec <= 53
    ensures prec >= 0 ==> ShiftRounded(v, log + 1 - prec, Nearest) <= Pow2(prec)
    ensures prec >= 1 ==> Pow2(prec - 1) <= ShiftRounded(v, log + 1 - prec, Nearest)
    ensures prec < 0 ==> ShiftRounded(v, log + 1 - prec, Nearest) == 0
    ensures ShiftRounded(v, log + 1 - prec, Nearest) <= TWO53
  {
    hide Pow, Rounded, ShiftRounded;
    var s := log + 1 - prec;
    TwoPowers();
    PowSmall(2);
    ShiftRoundedIs(v, s, Nearest);
    if s < 0 {
      PowAdd(2, log + 1, 0 - s);
      PowAdd(2, log, 0 - s);
      MulMono(v, Pow2(log + 1), Pow2(0 - s));
      MulMono(Pow2(log), v, Pow2(0 - s));
      PowMono(2, prec, 53);
    } else if prec >= 1 {
      PowAdd(2, prec, s);
      PowAdd(2, prec - 1, s);
      RoundedMono(v, Pow2(prec) * Pow2(s), Pow2(s), Nearest);
      RoundedMono(Pow2(prec - 1) * Pow2(s), v, Pow2(s), Nearest);
      RoundedExact(Pow2(prec), Pow2(s), Nearest);
      RoundedExact(Pow2(prec - 1), Pow2(s), Nearest);
      PowMono(2, prec, 53);
    } else {
      PowMono(2, log + 1, s);
      SmallRounds(v, Pow2(s), prec, log, s);
    }
  }

  lemma SmallRounds(v: nat, p: nat, prec: int, log: nat, s: nat)
    requires prec <= 0 && s == log + 1 - prec && p == Pow2(s) && p > 0 && v < Pow2(log + 1) <= p
    ensures Rounded(v, p, Nearest) <= 1
    ensures prec < 0 ==> Rounded(v, p, Nearest) == 0
  {
    hide Pow;
    DivModIs(v, p, 0, v);
    if prec < 0 {
      PowAdd(2, 1, log + 1);
      PowSmall(2);
      PowMono(2, log + 2, s);
    }
  }

  lemma Significand(k: nat, prec: int)
    requires prec <= 53 && (prec >= 0 ==> k <= Pow2(prec)) && (prec >= 1 ==> Pow2(prec - 1) <= k) &&
      (prec < 0 ==> k == 0)
    ensures var m := k * Pow2(53 - prec); m == 0 || TWO52 <= m <= TWO53
    ensures prec >= 0 ==> (k * Pow2(53 - prec) >= TWO53 <==> k == Pow2(prec))
    ensures k * Pow2(53 - prec) == TWO53 || k * Pow2(53 - prec) < TWO53
  {
    hide Pow;
    var j := Pow2(53 - prec);
    TwoPowers();
    PowPos(2, 53 - prec);
    if prec >= 0 {
      PowAdd(2, prec, 53 - prec);
      MulMono(k, Pow2(prec), j);
      if k < Pow2(prec) {
        MulStrict(k, Pow2(prec), j);
      }
      if prec >= 1 {
        PowAdd(2, prec - 1, 53 - prec);
        MulMono(Pow2(prec - 1), k, j);
      } else {
        PowSmall(2);
        assert k == 0 || k == 1;
      }
    }
  }

  ///// The bits

  /** Encoding the significand gives the bits that the rounding asks for. */
  lemma EncodedIs(v: nat, offset: int, log: nat, k: nat, m: nat, e: int)
    requires Pow2(log) <= v < Pow2(log + 1) && Rounding53(v, offset, log, k, m, e)
    ensures Encode(m, e) == Clamped(UnitShift(log + 1 - offset) * TWO52 + k)
  {
    hide Pow, ShiftRounded;
    var e0 := log + 1 - offset;
    var prec := Precision(e0);
    ShiftRoundedFits(v, log, prec);
    Significand(k, prec);
    TwoPowers();
    PowSmall(2);
    if e0 >= -1021 {
      assert k * 1 == k;
      EncodedNormal(e0, k, m, e);
    } else if prec >= 0 {
      EncodedSubnormal(e0, k, m, e);
    }
  }

  lemma EncodedNormal(e0: int, k: nat, m: nat, e: int)
    requires e0 >= -1021 && TWO52 <= k <= TWO53
    requires if k >= TWO53 then m == k / 2 && e == e0 + 1 else m == k && e == e0
    ensures Encode(m, e) == Clamped((e0 + 1021) * TWO52 + k)
  {
    if k < TWO53 {
      DivModIs(m, TWO52, 1, k - TWO52);
    } else {
      DivModIs(m, TWO52, 1, 0);
    }
  }

  lemma EncodedSubnormal(e0: int, k: nat, m: nat, e: int)
    requires -1074 <= e0 < -1021 && k <= Pow2(e0 + 1074)
    requires e0 + 1074 >= 1 ==> Pow2(e0 + 1073) <= k
    requires var x := k * Pow2(-1021 - e0); if x >= TWO53 then m == x / 2 && e == e0 + 1 else m == x && e == e0
    requires k * Pow2(-1021 - e0) >= TWO53 <==> k == Pow2(e0 + 1074)
    requires k * Pow2(-1021 - e0) <= TWO53
    ensures Encode(m, e) == k && Clamped(k) == k
  {
    hide Pow;
    TwoPowers();
    PowSmall(2);
    PowPos(2, -1021 - e0);
    var x := k * Pow2(-1021 - e0);
    PowMono(2, e0 + 1074, 52);
    if k == Pow2(e0 + 1074) {
      assert m == TWO52;
      if e < -1021 {
        PowAdd(2, e0 + 1074, -1021 - e);
        MulDiv(k, Pow2(-1021 - e));
      } else {
        assert e0 + 1074 == 52;
        DivModIs(m, TWO52, 1, 0);
      }
    } else if k == 0 {
      assert 0 * Pow2(-1021 - e0) == 0;
    } else {
      MulPos(k, Pow2(-1021 - e0));
      assert e0 + 1074 >= 1;
      MulDiv(k, Pow2(-1021 - e0));
    }
  }

  /** Significands as `RoundToD` gives them and `js_dtoa` makes them: one for each double. */
  ghost predicate Canonical(m: nat, e: int) {
    TWO52 <= m < TWO53 && e >= -1073 && (e < -1021 ==> m % Pow2Of(-1021 - e) == 0)
  }

  /** A significand that is not zero is canonical. */
  lemma RoundedIsCanonical(v: nat, offset: int, log: nat, k: nat, m: nat, e: int)
    requires Pow2(log) <= v < Pow2(log + 1) && Rounding53(v, offset, log, k, m, e) && m != 0
    ensures Canonical(m, e)
  {
    hide Pow, ShiftRounded;
    var e0 := log + 1 - offset;
    var prec := Precision(e0);
    ShiftRoundedFits(v, log, prec);
    Significand(k, prec);
    TwoPowers();
    if e0 < -1021 {
      ZeroTimes(Pow2(53 - prec));
      CanonicalSubnormal(e0, k, m, e);
    }
  }

  lemma ZeroTimes(x: int)
    ensures 0 * x == 0
  {
  }

  lemma CanonicalSubnormal(e0: int, k: nat, m: nat, e: int)
    requires -1074 <= e0 < -1021 && k <= Pow2(e0 + 1074) && m != 0
    requires var x := k * Pow2(-1021 - e0); if x >= TWO53 then m == x / 2 && e == e0 + 1 else m == x && e == e0
    requires k * Pow2(-1021 - e0) >= TWO53 <==> k == Pow2(e0 + 1074)
    requires TWO52 <= k * Pow2(-1021 - e0) <= TWO53
    ensures Canonical(m, e)
  {
    hide Pow;
    TwoPowers();
    PowSmall(2);
    if k == Pow2(e0 + 1074) {
      if e < -1021 {
        PowAdd(2, e0 + 1074, -1021 - e);
        PowPos(2, -1021 - e);
        MulDiv(k, Pow2(-1021 - e));
      }
    } else {
      PowPos(2, -1021 - e0);
      MulDiv(k, Pow2(-1021 - e0));
      ZeroTimes(Pow2(-1021 - e0));
    }
  }

  ///// Correct rounding

  /** `v` * 2^-offset is n / d: exactly, or as a sticky quotient with bits to spare. */
  ghost predicate StandsFor(v: nat, offset: int, n: nat, d: nat, n1: nat, d1: nat) {
    d > 0 && d1 > 0 && v == Sticky(n1, d1) && (n1 % d1 == 0 || v >= Pow2(55)) &&
    n * Pow2(Pos(offset)) * d1 == n1 * (d * Pow2(Neg(offset)))
  }

  lemma StandsForParts(v: nat, offset: int, n: nat, d: nat, n1: nat, d1: nat, log: nat)
    requires StandsFor(v, offset, n, d, n1, d1) && Pow2(log) <= v < Pow2(log + 1)
    ensures Pow2(log) * d1 <= n1 < Pow2(log + 1) * d1
    ensures n1 % d1 == 0 || log >= 55
  {
    hide Pow;
    var q := n1 / d1;
    DivModOf(n1, d1);
    if n1 % d1 == 0 {
      MulMono(Pow2(log), q, d1);
      MulStrict(q, Pow2(log + 1), d1);
    } else {
      if log < 55 {
        PowMono(2, log + 1, 55);
        assert false;
      }
      Pow2Step(log);
      assert v % 2 == 1;
      MulMono(Pow2(log), q, d1);
      MulMono(q + 1, Pow2(log + 1), d1);
      MulDist(q, 1, d1);
    }
  }

  /** The shifted and rounded quotient is the fraction rounded. */
  lemma ShiftedSticky(n1: nat, d1: nat, s: int)
    requires d1 > 0 && (n1 % d1 == 0 || s >= 2)
    ensures d1 * Pow2(Pos(s)) > 0
    ensures ShiftRounded(Sticky(n1, d1), s, Nearest) == Rounded(n1 * Pow2(Neg(s)), d1 * Pow2(Pos(s)), Nearest)
  {
    hide Pow, Rounded, ShiftRounded;
    PowPos(2, Pos(s));
    MulPos(d1, Pow2(Pos(s)));
    PowSmall(2);
    if n1 % d1 == 0 {
      var q := n1 / d1;
      DivModOf(n1, d1);
      ShiftRoundedFraction(q, s, Nearest);
      var x, y := Pow2(Neg(s)), Pow2(Pos(s));
      assert (q * x) * (d1 * y) == (n1 * x) * y by {
        MulAssoc(q * x, d1, y);
        MulAssoc(q, x, d1);
        MulAssoc(q, d1, x);
        assert x * d1 == d1 * x;
      }
      RoundedCross(q * x, y, n1 * x, d1 * y, Nearest);
    } else {
      ShiftRoundedIs(Sticky(n1, d1), s, Nearest);
      StickyRounds(n1, d1, s, Nearest);
      assert n1 * 1 == n1;
    }
  }

  /** From bounds on the stand-in to bounds on the number, in units. */
  lemma ScaledBounds(n: nat, d: nat, n1: nat, d1: nat, offset: int, log: nat, u: nat)
    requires d > 0 && d1 > 0 && n * Pow2(Pos(offset)) * d1 == n1 * (d * Pow2(Neg(offset)))
    ensures n1 < Pow2(log + 1) * d1 && log + 1 - offset + 1074 <= 53 + u ==> n * Pow2(1074) < Pow2(53) * (d * Pow2(u))
    ensures Pow2(log) * d1 <= n1 && log - offset + 1074 >= 52 + u ==> Pow2(52) * (d * Pow2(u)) <= n * Pow2(1074)
  {
    hide Pow;
    var a, b := Pow2(Pos(offset)), Pow2(Neg(offset));
    PowPos(2, Pos(offset));
    PowPos(2, Neg(offset));
    MulPos(d, b);
    if n1 < Pow2(log + 1) * d1 && log + 1 - offset + 1074 <= 53 + u {
      var p := Pow2(log + 1);
      assert n * a < p * (d * b) by {
        MulStrict(n1, p * d1, d * b);
        assert (p * d1) * (d * b) == (p * (d * b)) * d1 by {
          MulAssoc(p, d1, d * b);
          MulAssoc(p, d * b, d1);
          assert d1 * (d * b) == (d * b) * d1;
        }
        MulCancel(n * a, p * (d * b), d1);
      }
      ToUnitsAbove(n, d, offset, log + 1, 53 + u);
      PowAdd(2, 53, u);
      MulAssoc(Pow2(53), Pow2(u), d);
      assert Pow2(u) * d == d * Pow2(u);
    }
    if Pow2(log) * d1 <= n1 && log - offset + 1074 >= 52 + u {
      var p := Pow2(log);
      assert p * (d * b) <= n * a by {
        MulMono(p * d1, n1, d * b);
        assert (p * d1) * (d * b) == (p * (d * b)) * d1 by {
          MulAssoc(p, d1, d * b);
          MulAssoc(p, d * b, d1);
          assert d1 * (d * b) == (d * b) * d1;
        }
        MulCancelLe(p * (d * b), n * a, d1);
      }
      ToUnitsBelow(n, d, offset, log, 52 + u);
      PowAdd(2, 52, u);
      MulAssoc(Pow2(52), Pow2(u), d);
      assert Pow2(u) * d == d * Pow2(u);
    }
  }

  lemma ToUnitsAbove(n: nat, d: nat, offset: int, j: nat, t: nat)
    requires d > 0 && n * Pow2(Pos(offset)) < Pow2(j) * (d * Pow2(Neg(offset))) && j - offset + 1074 <= t
    ensures n * Pow2(1074) < Pow2(t) * d
  {
    hide Pow;
    var a, b, c := Pow2(Pos(offset)), Pow2(Neg(offset)), Pow2(1074);
    PowPos(2, 1074);
    PowPos(2, Pos(offset));
    MulStrict(n * a, Pow2(j) * (d * b), c);
    assert (n * a) * c == (n * c) * a by {
      MulAssoc(n, a, c);
      MulAssoc(n, c, a);
      assert a * c == c * a;
    }
    assert (Pow2(j) * (d * b)) * c == (Pow2(j + Neg(offset) + 1074)) * d by {
      PowAdd(2, j, Neg(offset));
      PowAdd(2, j + Neg(offset), 1074);
      MoveLast(Pow2(j), d, b, c);
    }
    PowAdd(2, t, Pos(offset));
    PowMono(2, j + Neg(offset) + 1074, t + Pos(offset));
    MulMono(Pow2(j + Neg(offset) + 1074), Pow2(t + Pos(offset)), d);
    assert Pow2(t + Pos(offset)) * d == (Pow2(t) * d) * a by {
      MulAssoc(Pow2(t), a, d);
      MulAssoc(Pow2(t), d, a);
      assert a * d == d * a;
    }
    MulCancel(n * c, Pow2(t) * d, a);
  }

  lemma ToUnitsBelow(n: nat, d: nat, offset: int, j: nat, t: nat)
    requires d > 0 && Pow2(j) * (d * Pow2(Neg(offset))) <= n * Pow2(Pos(offset)) && j - offset + 1074 >= t
    ensures Pow2(t) * d <= n * Pow2(1074)
  {
    hide Pow;
    var a, b, c := Pow2(Pos(offset)), Pow2(Neg(offset)), Pow2(1074);
    PowPos(2, 1074);
    PowPos(2, Pos(offset));
    MulMono(Pow2(j) * (d * b), n * a, c);
    assert (n * a) * c == (n * c) * a by {
      MulAssoc(n, a, c);
      MulAssoc(n, c, a);
      assert a * c == c * a;
    }
    assert (Pow2(j) * (d * b)) * c == (Pow2(j + Neg(offset) + 1074)) * d by {
      PowAdd(2, j, Neg(offset));
      PowAdd(2, j + Neg(offset), 1074);
      MoveLast(Pow2(j), d, b, c);
    }
    PowAdd(2, t, Pos(offset));
    PowMono(2, t + Pos(offset), j + Neg(offset) + 1074);
    MulMono(Pow2(t + Pos(offset)), Pow2(j + Neg(offset) + 1074), d);
    assert Pow2(t + Pos(offset)) * d == (Pow2(t) * d) * a by {
      MulAssoc(Pow2(t), a, d);
      MulAssoc(Pow2(t), d, a);
      assert a * d == d * a;
    }
    MulCancelLe(Pow2(t) * d, n * c, a);
  }

  lemma MoveLast(p: nat, d: nat, b: nat, c: nat)
    ensures (p * (d * b)) * c == ((p * b) * c) * d
  {
    assert p * (d * b) == (p * b) * d by {
      MulAssoc(p, b, d);
      assert d * b == b * d;
    }
    MulAssoc(p * b, d, c);
    MulAssoc(p * b, c, d);
    assert d * c == c * d;
  }

  /** What is rounded is the number. */
  lemma SameFraction(n: nat, d: nat, n1: nat, d1: nat, offset: int, s: int, u: nat)
    requires d > 0 && d1 > 0 && n * Pow2(Pos(offset)) * d1 == n1 * (d * Pow2(Neg(offset)))
    requires s == offset - 1074 + u
    ensures d * Pow2(u) > 0 && d1 * Pow2(Pos(s)) > 0
    ensures Rounded(n1 * Pow2(Neg(s)), d1 * Pow2(Pos(s)), Nearest) == Rounded(n * Pow2(1074), d * Pow2(u), Nearest)
  {
    hide Pow, Rounded;
    PowPos(2, u);
    PowPos(2, Pos(s));
    PowPos(2, Pos(offset));
    MulPos(d, Pow2(u));
    MulPos(d1, Pow2(Pos(s)));
    var a, b := Pow2(Pos(offset)), Pow2(Neg(offset));
    var l := (n1 * Pow2(Neg(s))) * (d * Pow2(u));
    var r := (n * Pow2(1074)) * (d1 * Pow2(Pos(s)));
    assert l * a == (n1 * d) * (Pow2(Neg(s)) * (Pow2(u) * a)) by {
      MulAssoc(n1 * Pow2(Neg(s)), d * Pow2(u), a);
      MulAssoc(d, Pow2(u), a);
      Reorder(n1, d, Pow2(Neg(s)), Pow2(u) * a, 1);
    }
    assert r * a == (n1 * d) * (b * (Pow2(1074) * Pow2(Pos(s)))) by {
      var y := Pow2(1074) * Pow2(Pos(s));
      assert r * a == (n * a * d1) * y by {
        Shuffle(n, Pow2(1074), d1, Pow2(Pos(s)), a);
      }
      MulAssoc(n1, d, b);
      MulAssoc(n1 * d, b, y);
    }
    EqualPowers(n1 * d, Neg(s), u, Pos(offset), Neg(offset), 1074, Pos(s));
    SameAfterCancel(l, r, a);
    RoundedCross(n1 * Pow2(Neg(s)), d1 * Pow2(Pos(s)), n * Pow2(1074), d * Pow2(u), Nearest);
  }

  lemma SameAfterCancel(l: nat, r: nat, a: nat)
    requires a > 0 && l * a == r * a
    ensures l == r
  {
    MulCancelLe(l, r, a);
    MulCancelLe(r, l, a);
  }

  lemma Shuffle(n: nat, x: nat, d: nat, y: nat, a: nat)
    ensures ((n * x) * (d * y)) * a == (n * a * d) * (x * y)
  {
    Reorder(n, d, x, y, a);
    assert (n * d) * (x * (y * a)) == ((n * d) * a) * (x * y) by {
      MulAssoc(x, y, a);
      assert (x * y) * a == a * (x * y);
      MulAssoc(n * d, a, x * y);
    }
    assert n * a * d == (n * d) * a by {
      MulAssoc(n, a, d);
      MulAssoc(n, d, a);
      assert a * d == d * a;
    }
  }

  /** The significand and exponent that `RoundToD` finds encode the nearest double. */
  lemma RoundsToNearest(v: nat, offset: int, n: nat, d: nat, n1: nat, d1: nat, log: nat, k: nat, m: nat, e: int)
    requires StandsFor(v, offset, n, d, n1, d1)
    requires Pow2(log) <= v < Pow2(log + 1) && Rounding53(v, offset, log, k, m, e)
    ensures IsNearest(n, d, Encode(m, e))
  {
    hide Pow, Rounded, ShiftRounded, Sticky, Encode, IsNearest;
    var e0 := log + 1 - offset;
    var u, s := UnitShift(e0), log + 1 - Precision(e0);
    StandsForParts(v, offset, n, d, n1, d1, log);
    TwoPowers();
    ScaledBounds(n, d, n1, d1, offset, log, u);
    ShiftedSticky(n1, d1, s);
    SameFraction(n, d, n1, d1, offset, s, u);
    RoundedIsNearestDouble(n, d, u, k);
    EncodedIs(v, offset, log, k, m, e);
  }

  ///// A big number times a power of a radix, as a double

  lemma ExactStandsFor(m: nat, now: nat, radix1: nat, radixShift: nat, f: int)
    requires radix1 > 0 && (f >= 0 || radix1 == 1) && now == m * Pow(radix1, Pos(f))
    ensures var radix := radix1 * Pow2(radixShift);
      StandsFor(now, 0 - f * radixShift, Num(m, 0, radix, f), Den(0, radix, f), now, 1)
  {
    hide Pow;
    var radix, offset, a, b := radix1 * Pow2(radixShift), 0 - f * radixShift, radixShift * Pos(f), radixShift * Neg(f);
    PowPos(2, radixShift);
    MulPos(radix1, Pow2(radixShift));
    DenPos(0, radix, f);
    PowSmall(2);
    PowSmall(radix1);
    RadixPower(radix1, radixShift, Pos(f));
    RadixPower(radix1, radixShift, Neg(f));
    OnePower(Neg(f));
    DivModIs(now, 1, now, 0);
    assert Num(m, 0, radix, f) == now * Pow2(a) by {
      MulAssoc(m, Pow(radix1, Pos(f)), Pow2(a));
    }
    assert Den(0, radix, f) == Pow2(b);
    assert a - b == 0 - offset by {
      if f >= 0 {
        assert radixShift * 0 == 0 && radixShift * f == f * radixShift;
      } else {
        MulDist(0, f, radixShift);
        assert radixShift * 0 == 0;
      }
    }
    PowAdd(2, a, Pos(offset));
    PowAdd(2, b, Neg(offset));
    MulAssoc(now, Pow2(a), Pow2(Pos(offset)));
    assert a + Pos(offset) == b + Neg(offset);
  }

  lemma StickyStandsFor(m: nat, now: nat, radix1: nat, radixShift: nat, f: int, extra: nat)
    requires radix1 > 0 && f < 0 && Pow(radix1, Neg(f)) > 0 && now == Sticky(m * Pow2(extra), Pow(radix1, Neg(f)))
    requires now >= Pow2(55)
    ensures var radix := radix1 * Pow2(radixShift);
      StandsFor(now, 0 - f * radixShift + extra, Num(m, 0, radix, f), Den(0, radix, f), m * Pow2(extra),
        Pow(radix1, Neg(f)))
  {
    hide Pow, Sticky;
    var radix, b, r := radix1 * Pow2(radixShift), radixShift * Neg(f), Pow(radix1, Neg(f));
    PowPos(2, radixShift);
    MulPos(radix1, Pow2(radixShift));
    DenPos(0, radix, f);
    PowSmall(2);
    PowSmall(radix);
    RadixPower(radix1, radixShift, Neg(f));
    MulDist(0, f, radixShift);
    assert 0 - f * radixShift + extra == b + extra;
    assert Num(m, 0, radix, f) == m;
    assert Den(0, radix, f) == r * Pow2(b);
    PowAdd(2, b, extra);
    var x, y := Pow2(extra), Pow2(b);
    assert m * (y * x) * r == (m * x) * (r * y) by {
      Reorder(m, r, x, y, 1);
      MulAssoc(m, y * x, r);
      assert (y * x) * r == r * (x * y);
      MulAssoc(m, r, x * y);
    }
  }

  /** The nearest double of a * (radix1 * 2^radixShift)^f. */
  method MulPowRoundToD(a: Mpb, radix1: nat, radixShift: nat, f: int) returns (m: nat, e: int)
    requires a.Valid() && a.Normal() && a.Value() > 0 && 1 <= radix1 <= 36 && radix1 % 2 == 1
    requires var room := if radix1 == 1 then a.len else Room(a.len, f, DigitsPerLimb(radix1), radixShift, false, 55);
      room + 2 <= a.tab.Length
    modifies a, a.tab
    ensures a.Valid()
    ensures var radix := radix1 * Pow2(radixShift); var v := old(a.Value());
      IsNearest(Num(v, 0, radix, f), Den(0, radix, f), Encode(m, e))
    ensures m == 0 || Canonical(m, e)
  {
    hide Pow, Val, BasePow, Rounded, Sticky, Encode, IsNearest, StandsFor, Canonical;
    ghost var v := a.Value();
    var offset, extra := ScaleByPower(a, radix1, radixShift, f, false, 55);
    ghost var now, radix := a.Value(), radix1 * Pow2(radixShift);
    ghost var log, k;
    m, e, log, k := RoundToD(a, offset);
    if m != 0 {
      RoundedIsCanonical(now, offset, log, k, m, e);
    }
    if f >= 0 || radix1 == 1 {
      ExactStandsFor(v, now, radix1, radixShift, f);
      RoundsToNearest(now, offset, Num(v, 0, radix, f), Den(0, radix, f), now, 1, log, k, m, e);
    } else {
      StickyStandsFor(v, now, radix1, radixShift, f, extra);
      RoundsToNearest(now, offset, Num(v, 0, radix, f), Den(0, radix, f), v * Pow2(extra), Pow(radix1, Neg(f)), log, k,
        m, e);
    }
  }
}
