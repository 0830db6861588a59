/** From digits to a double (the middle and the last part of `js_atod` in dtoa.c). */
module DigitInput {
  import opened Powers
  import opened Limbs
  import opened Bignum
  import opened RadixPowers
  import opened RadixLogs
  import opened RadixTables
  import opened MulPow
  import opened Doubles
  import opened RoundToDouble
  import opened Numerals

  ///// Collecting digits

  /** The big number and the limb being filled hold the digits so far. */
  ghost predicate Collected(v: nat, len: nat, cur: nat, count: nat, radix: nat, ds: Digits)
    requires 2 <= radix <= 36
  {
    AllBelow(ds, radix) && count <= |ds| && count < DigitsPerLimb(radix) && cur < Pow(radix, count) &&
    v * Pow(radix, count) + cur == Value(ds, radix) && len <= 1 + (|ds| - count) / DigitsPerLimb(radix)
  }

  /** One more digit; a full limb goes to the big number. */
  method AddDigit(tmp: Mpb, radix: nat, cur: Limb, count: nat, c: nat, ghost ds: Digits)
    returns (cur2: Limb, count2: nat)
    requires tmp.Valid() && tmp.Normal() && 2 <= radix <= 36 && c < radix && tmp.tab.Length >= 8
    requires Collected(tmp.Value(), tmp.len, cur, count, radix, ds) && |ds| < MaxDigits(radix)
    modifies tmp, tmp.tab
    ensures tmp.Valid() && tmp.Normal() && Collected(tmp.Value(), tmp.len, cur2, count2, radix, ds + [c])
  {
    hide Pow, Val, BasePow, DigitsPerLimb, Collected, MaxDigits;
    ghost var v, n := tmp.Value(), tmp.len;
    var d := DigitsPerLimb(radix);
    DigitFits(v, n, cur, count, radix, ds, c, d);
    cur2 := cur * radix + c;
    count2 := count + 1;
    if count2 == d {
      tmp.MulBaseAdd(RadixBase(radix), cur2);
      FullLimb(v, n, cur2, radix, ds + [c], d, tmp.Value(), tmp.len);
      cur2, count2 := 0, 0;
    } else {
      PartLimb(v, n, cur2, count2, radix, ds + [c], d);
    }
  }

  /** What holds between adding a digit to the limb and passing the limb on. */
  ghost predicate Pending(v: nat, len: nat, cur: nat, count: nat, radix: nat, ds: Digits, d: nat)
    requires 2 <= radix <= 36
  {
    d == DigitsPerLimb(radix) && AllBelow(ds, radix) && 0 < count <= |ds| && count <= d && cur < Pow(radix, count) &&
    v * Pow(radix, count) + cur == Value(ds, radix) && len <= 1 + (|ds| - count) / d
  }

  lemma DigitFits(v: nat, len: nat, cur: Limb, count: nat, radix: nat, ds: Digits, c: nat, d: nat)
    requires 2 <= radix <= 36 && c < radix && d == DigitsPerLimb(radix)
    requires Collected(v, len, cur, count, radix, ds) && |ds| < MaxDigits(radix)
    ensures 0 <= cur * radix + c < BASE && len <= 6
    ensures Pending(v, len, cur * radix + c, count + 1, radix, ds + [c], d)
  {
    hide Pow, DigitsPerLimb;
    var p := Pow(radix, count);
    PowAdd(radix, 1, count);
    PowSmall(radix);
    MulMono(cur + 0, p - 1, radix);
    MulDist(p, 1, radix);
    PowMono(radix, count + 1, d);
    MulNonNeg(cur, radix);
    ValueSnoc(ds, c, radix);
    MulDist(v * p, cur, radix);
    MulAssoc(v, p, radix);
    assert p * radix == radix * p;
    DivLess(|ds| - count, d, 6);
  }

  lemma FullLimb(v: nat, len: nat, cur: Limb, radix: nat, ds: Digits, d: nat, v2: nat, len2: nat)
    requires 2 <= radix <= 36 && Pending(v, len, cur, d, radix, ds, d)
    requires v2 == v * Pow(radix, d) + cur && len2 <= len + 1
    ensures Collected(v2, len2, 0, 0, radix, ds)
  {
    hide Pow, DigitsPerLimb;
    PowSmall(radix);
    DivModOf(|ds| - d, d);
    MulDist((|ds| - d) / d, 1, d);
    DivModIs(|ds|, d, (|ds| - d) / d + 1, (|ds| - d) % d);
  }

  lemma PartLimb(v: nat, len: nat, cur: Limb, count: nat, radix: nat, ds: Digits, d: nat)
    requires 2 <= radix <= 36 && Pending(v, len, cur, count, radix, ds, d) && count < d
    ensures Collected(v, len, cur, count, radix, ds)
  {
  }

  /** The last limb, filled in part, goes to the big number. */
  method LastDigits(tmp: Mpb, radix: nat, cur: Limb, count: nat, ghost ds: Digits)
    requires tmp.Valid() && tmp.Normal() && 2 <= radix <= 36 && tmp.tab.Length >= 9
    requires Collected(tmp.Value(), tmp.len, cur, count, radix, ds) && |ds| <= MaxDigits(radix)
    modifies tmp, tmp.tab
    ensures tmp.Valid() && tmp.Normal() && tmp.Value() == Value(ds, radix) && tmp.len <= 7
  {
    hide Pow, Val, BasePow, DigitsPerLimb, Collected, MaxDigits;
    CollectedIs(tmp.Value(), tmp.len, cur, count, radix, ds);
    if count != 0 {
      var b := PowUi(radix, count);
      tmp.MulBaseAdd(b, cur);
    }
  }

  lemma CollectedIs(v: nat, len: nat, cur: Limb, count: nat, radix: nat, ds: Digits)
    requires 2 <= radix <= 36 && Collected(v, len, cur, count, radix, ds) && |ds| <= MaxDigits(radix)
    ensures 0 < Pow(radix, count) < BASE && count < BASE && v * Pow(radix, count) + cur == Value(ds, radix) && len <= 6
    ensures count == 0 ==> v == Value(ds, radix)
  {
    hide Pow, DigitsPerLimb, MaxDigits, AllBelow, Value;
    var d := DigitsPerLimb(radix);
    PowPos(radix, count);
    PowStrict(radix, count, d);
    PowSmall(radix);
    DivLess(|ds| - count, d, 6);
    if count == 0 {
      assert v * 1 == v;
    }
  }

  lemma NothingCollected(radix: nat)
    requires 2 <= radix <= 36
    ensures Collected(0, 1, 0, 0, radix, [])
  {
    hide Pow, DigitsPerLimb;
    PowSmall(radix);
    QuotientNat(0, DigitsPerLimb(radix));
  }

  ///// The cut-offs

  lemma TooLarge(v: nat, radix: nat, count: nat, f: int, k: nat)
    requires radix > 1 && count > 0 && v >= Pow(radix, count - 1) && f + count >= k + 1 && Pow(radix, k) >= Pow2(1024)
    ensures Den(0, radix, f) > 0 && IsNearest(Num(v, 0, radix, f), Den(0, radix, f), INFINITY)
  {
    hide Pow, IsNearest;
    DenPos(0, radix, f);
    PowSmall(2);
    PowSmall(radix);
    var n, d := Num(v, 0, radix, f), Den(0, radix, f);
    var j := f + count - 1;
    PowMono(radix, k, j);
    assert n == v * Pow(radix, Pos(f)) && d == Pow(radix, Neg(f));
    PowAdd(radix, count - 1, Pos(f));
    PowAdd(radix, j, Neg(f));
    MulMono(Pow(radix, count - 1), v, Pow(radix, Pos(f)));
    MulMono(Pow2(1024), Pow(radix, j), d);
    assert count - 1 + Pos(f) == j + Neg(f);
    LargeIsInfinite(n, d);
  }

  lemma TooSmall(v: nat, radix: nat, count: nat, f: int, k: nat)
    requires radix > 1 && v < Pow(radix, count) && f + count <= 0 - k && Pow(radix, k) >= Pow2(1075)
    ensures Den(0, radix, f) > 0 && IsNearest(Num(v, 0, radix, f), Den(0, radix, f), 0)
  {
    hide Pow, IsNearest;
    DenPos(0, radix, f);
    PowSmall(2);
    PowSmall(radix);
    var n, d := Num(v, 0, radix, f), Den(0, radix, f);
    assert f <= 0 && n == v && d == Pow(radix, 0 - f);
    PowMono(radix, count + k, 0 - f);
    PowAdd(radix, count, k);
    MulMono(v, Pow(radix, count), Pow2(1075));
    MulMono(Pow2(1075), Pow(radix, k), Pow(radix, count));
    SmallIsZero(n, d);
  }

  ///// The double

  /** The cut-offs are where the tables say. */
  lemma CutOffs(radix: nat)
    requires 2 <= radix <= 36 && OddPart(radix) > 1
    ensures Pow(radix, MaxExponent(radix)) >= Pow2(1024) && Pow(radix, 0 - MinExponent(radix)) >= Pow2(1075)
  {
    hide Pow, LogsOf, OddPart, TwoShift, MaxExponent, MinExponent;
    RowsOk(radix);
    PowerAbove(radix, MaxExponent(radix), 1024);
    PowerAbove(radix, 0 - MinExponent(radix), 1075);
  }

  /** Digits that are used fit in five limbs. */
  lemma FiveLimbs(s: seq<Limb>, radix: nat, count: nat)
    requires |s| > 0 && (|s| > 1 ==> s[|s| - 1] != 0)
    requires 2 <= radix <= 36 && count <= MaxDigits(radix) && Val(s) < Pow(radix, count)
    ensures |s| <= 5
  {
    hide Pow, Val, BasePow, DigitsPerLimb, MaxDigits;
    var d := DigitsPerLimb(radix);
    PowMono(radix, count, d * 5);
    PowOfPow(radix, d, 5);
    PowBaseMono(Pow(radix, d), BASE, 5);
    BasePowIsPow2(5);
    Pow2Of32();
    PowOfPow(2, 32, 5);
    if |s| > 5 {
      TopLimb(s);
      BasePowIsPow2(|s| - 1);
      PowMono(2, BITS * 5, BITS * (|s| - 1));
    }
  }

  /** Between the cut-offs the power of the odd part has at most 43 limbs. */
  lemma PowersFit(radix: nat)
    requires 2 <= radix <= 36 && OddPart(radix) > 1
    ensures var d := DigitsPerLimb(OddPart(radix));
      MaxExponent(radix) <= MOST_LIMBS * d && MaxDigits(radix) - MinExponent(radix) <= MOST_LIMBS * d + 1
  {
    hide LogsOf, OddPart, TwoShift, MaxExponent, MinExponent, MaxDigits, MostDigits, LogFactor;
    RowsOk(radix);
  }

  /** The buffer is large enough for every radix and every power between the cut-offs. */
  lemma ParseRoom(len: nat, radix: nat, f: int)
    requires 2 <= radix <= 36 && OddPart(radix) > 1 && len <= 5
    requires MinExponent(radix) - MaxDigits(radix) < f <= MaxExponent(radix)
    ensures Room(len, f, DigitsPerLimb(OddPart(radix)), TwoShift(radix), false, 55) + 2 <= BUFFER_LIMBS
  {
    hide LogsOf, OddPart, TwoShift, MaxExponent, MinExponent, MaxDigits, DigitsPerLimb;
    var d := DigitsPerLimb(OddPart(radix));
    PowersFit(radix);
    var n := if f >= 0 then f else 0 - f;
    MulDist(MOST_LIMBS, 1, d);
    DivLess(n + d - 1, d, MOST_LIMBS + 1);
  }

  /** A radix with an odd factor: the digits times a power of the radix, cut off where the result is known. */
  method ConvertScaled(tmp: Mpb, radix: nat, radix1: nat, radixShift: nat, count: nat, expn: int) returns (bits: nat)
    requires tmp.Valid() && tmp.Normal() && tmp.tab.Length >= BUFFER_LIMBS && 2 <= radix <= 36
    requires radix1 == OddPart(radix) > 1 && radixShift == TwoShift(radix)
    requires 0 < count <= MaxDigits(radix) && Pow(radix, count - 1) <= tmp.Value() < Pow(radix, count)
    modifies tmp, tmp.tab
    ensures IsNearest(Num(old(tmp.Value()), 0, radix, expn), Den(0, radix, expn), bits)
  {
    hide Pow, Val, BasePow, IsNearest, DigitsPerLimb, Room, Encode, Canonical, MaxDigits, MaxExponent, MinExponent,
      OddPart, TwoShift;
    ghost var v := tmp.Value();
    PowPos(radix, count - 1);
    CutOffs(radix);
    RadixParts(radix);
    var expn1 := expn + count;
    if expn1 >= MaxExponent(radix) + 1 {
      TooLarge(v, radix, count, expn, MaxExponent(radix));
      bits := INFINITY;
    } else if expn1 <= MinExponent(radix) {
      TooSmall(v, radix, count, expn, 0 - MinExponent(radix));
      bits := 0;
    } else {
      FiveLimbs(tmp.tab[..tmp.len], radix, count);
      ParseRoom(tmp.len, radix, expn);
      var m, e := MulPowRoundToD(tmp, radix1, radixShift, expn);
      bits := Encode(m, e);
    }
  }

  /** A radix that is a power of two: the digits, the last of them sticky, times a power of two. */
  method ConvertBinary(tmp: Mpb, radix: nat, bitsPerDigit: nat, count: nat, expn: int, ghost n1: nat, ghost d1: nat)
    returns (bits: nat)
    requires tmp.Valid() && tmp.Normal() && tmp.len + 2 <= tmp.tab.Length && 2 <= radix <= 36 &&
      radix == Pow2(bitsPerDigit) && bitsPerDigit > 0
    requires count > 0 && Pow(radix, count - 1) <= tmp.Value() < Pow(radix, count)
    requires d1 > 0 && tmp.Value() == Sticky(n1, d1) && (n1 % d1 == 0 || tmp.Value() >= Pow2(55))
    modifies tmp, tmp.tab
    ensures IsNearest(n1 * Pow2(Pos(expn)), d1 * Pow2(Neg(expn)), bits)
  {
    hide Pow, Val, BasePow, IsNearest, Encode, Canonical, Sticky, StandsFor;
    ghost var v := tmp.Value();
    PowPos(radix, count - 1);
    var expn1 := expn + count * bitsPerDigit;
    if expn1 >= 1024 + bitsPerDigit {
      BinaryTooLarge(v, radix, bitsPerDigit, count, expn, n1, d1);
      bits := INFINITY;
    } else if expn1 <= -1075 {
      BinaryTooSmall(v, radix, bitsPerDigit, count, expn, n1, d1);
      bits := 0;
    } else {
      ghost var log, k;
      var m, e;
      m, e, log, k := RoundToD(tmp, 0 - expn);
      ShiftedStandsFor(v, expn, n1, d1);
      RoundsToNearest(v, 0 - expn, n1 * Pow2(Pos(expn)), d1 * Pow2(Neg(expn)), n1, d1, log, k, m, e);
      bits := Encode(m, e);
    }
  }

  lemma ShiftedStandsFor(v: nat, expn: int, n1: nat, d1: nat)
    requires d1 > 0 && v == Sticky(n1, d1) && (n1 % d1 == 0 || v >= Pow2(55))
    ensures StandsFor(v, 0 - expn, n1 * Pow2(Pos(expn)), d1 * Pow2(Neg(expn)), n1, d1)
  {
    hide Pow, Sticky;
    var x, y := Pow2(Pos(expn)), Pow2(Neg(expn));
    PowPos(2, Neg(expn));
    MulPos(d1, y);
    MulAssoc(n1, x, y);
    MulAssoc(n1, x * y, d1);
    MulAssoc(d1, y, x);
    assert (x * y) * d1 == d1 * (y * x);
  }

  /** The sticky quotient is between the truncated quotient and the next. */
  lemma StickyRange(n1: nat, d1: nat, p: nat)
    requires d1 > 0
    ensures Sticky(n1, d1) < p ==> n1 < p * d1
    ensures p > 0 && p % 2 == 0 && p <= Sticky(n1, d1) ==> p * d1 <= n1
    ensures p <= n1 / d1 ==> p * d1 <= n1
  {
    DivModOf(n1, d1);
    var q := n1 / d1;
    if Sticky(n1, d1) < p {
      MulMono(q + 1, p, d1);
      MulDist(q, 1, d1);
    }
    if p > 0 && p % 2 == 0 && p <= Sticky(n1, d1) {
      MulMono(p, q, d1);
    }
    if p <= q {
      MulMono(p, q, d1);
    }
  }

  lemma BinaryTooLarge(v: nat, radix: nat, b: nat, count: nat, expn: int, n1: nat, d1: nat)
    requires radix == Pow2(b) && b > 0 && count > 0 && v >= Pow(radix, count - 1) && expn + count * b >= 1024 + b
    requires d1 > 0 && v == Sticky(n1, d1) && (n1 % d1 == 0 || v >= Pow2(55))
    ensures d1 * Pow2(Neg(expn)) > 0 && IsNearest(n1 * Pow2(Pos(expn)), d1 * Pow2(Neg(expn)), INFINITY)
  {
    hide Pow, IsNearest, Sticky;
    PowPos(2, Neg(expn));
    MulPos(d1, Pow2(Neg(expn)));
    var j := (count - 1) * b;
    MulDist(count, 1, b);
    MulNonNeg(count - 1, b);
    PowOfPow(2, b, count - 1);
    assert b * (count - 1) == j && Pow(radix, count - 1) == Pow2(j);
    assert Pow2(j) * d1 <= n1 by {
      if j == 0 {
        PowSmall(2);
        StickyPositive(n1, d1, v);
      } else {
        Pow2Step(j);
        PowPos(2, j);
        StickyRange(n1, d1, Pow2(j));
      }
    }
    var x, y := Pow2(Pos(expn)), Pow2(Neg(expn));
    PowAdd(2, j, Pos(expn));
    PowAdd(2, 1024, Neg(expn));
    PowMono(2, 1024 + Neg(expn), j + Pos(expn));
    RaisedProduct(Pow2(1024), y, Pow2(j), x, d1, n1);
    LargeIsInfinite(n1 * x, d1 * y);
  }

  lemma RaisedProduct(a: nat, y: nat, p: nat, x: nat, d: nat, n: nat)
    requires a * y <= p * x && p * d <= n
    ensures n * x >= a * (d * y)
  {
    MulMono(a * y, p * x, d);
    MulMono(p * d, n, x);
    MulAssoc(a, y, d);
    MulAssoc(p, x, d);
    MulAssoc(p, d, x);
    assert y * d == d * y && x * d == d * x;
  }

  /** A sticky quotient that is at least one is not below one by what was cut off, when it has bits to spare. */
  lemma StickyPositive(n1: nat, d1: nat, v: nat)
    requires d1 > 0 && v == Sticky(n1, d1) && v >= 1 && (n1 % d1 == 0 || v >= Pow2(55))
    ensures 1 * d1 <= n1
  {
    hide Pow;
    DivModOf(n1, d1);
    if n1 % d1 == 0 {
      MulMono(1, n1 / d1, d1);
    } else {
      PowMono(2, 1, 55);
      PowSmall(2);
      MulMono(1, n1 / d1, d1);
    }
  }

  lemma BinaryTooSmall(v: nat, radix: nat, b: nat, count: nat, expn: int, n1: nat, d1: nat)
    requires radix == Pow2(b) && v < Pow(radix, count) && expn + count * b <= -1075
    requires d1 > 0 && v == Sticky(n1, d1)
    ensures d1 * Pow2(Neg(expn)) > 0 && IsNearest(n1 * Pow2(Pos(expn)), d1 * Pow2(Neg(expn)), 0)
  {
    hide Pow, IsNearest, Sticky;
    PowPos(2, Neg(expn));
    PowSmall(2);
    MulPos(d1, Pow2(Neg(expn)));
    MulNonNeg(count, b);
    PowOfPow(2, b, count);
    var j := count * b;
    assert b * count == j && Pow(radix, count) == Pow2(j);
    StickyRange(n1, d1, Pow2(j));
    assert Pos(expn) == 0 && n1 * 1 == n1;
    PowAdd(2, j, 1075);
    PowMono(2, j + 1075, Neg(expn));
    MulMono(n1, Pow2(j) * d1, Pow2(1075));
    MulAssoc(Pow2(j), d1, Pow2(1075));
    MulAssoc(Pow2(j), Pow2(1075), d1);
    assert d1 * Pow2(1075) == Pow2(1075) * d1;
    MulMono(Pow2(j + 1075), Pow2(Neg(expn)), d1);
    assert Pow2(Neg(expn)) * d1 == d1 * Pow2(Neg(expn));
    SmallIsZero(n1, d1 * Pow2(Neg(expn)));
  }
}
