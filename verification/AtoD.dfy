/** Reading a double from a string (`js_atod` in dtoa.c, with a given radix and no flags). */
module AtoD {
  import opened Powers
  import opened Limbs
  import opened Bignum
  import opened RadixLogs
  import opened RadixTables
  import opened MulPow
  import opened Doubles
  import opened ShortestDigits
  import opened Numerals
  import opened DigitInput
  import opened NumeralScan

  ///// The grammar of exponents and of whole numerals

  datatype Exponent = NoExponent | BadExponent | Exponent(value: int, binary: bool, end: nat)

  predicate BinaryMarker(c: char, radix: nat)
    requires 2 <= radix <= 36
  {
    1 <= RadixBits(radix) <= 4 && (c == 'p' || c == 'P')
  }

  predicate ExponentMarker(c: char, radix: nat)
    requires 2 <= radix <= 36
  {
    if radix == 10 then c == 'e' || c == 'E' else c == '@' || BinaryMarker(c, radix)
  }

  function AfterSign(s: string, i: nat): (j: nat)
    ensures i <= j && (i <= |s| ==> j <= |s|)
  {
    if At(s, i) == '+' || At(s, i) == '-' then i + 1 else i
  }

  ghost function ExponentAt(s: string, i: nat, start: nat, radix: nat): Exponent
    requires 2 <= radix <= 36
  {
    if i > start && ExponentMarker(At(s, i), radix) then
      var q := AfterSign(s, i + 1);
      if !IsDigitAt(s, q, 10) then BadExponent
      else
        var n := Value(Run(s, q, RunEnd(s, q, 10)), 10);
        Exponent(if At(s, i + 1) == '-' then 0 - n else n, BinaryMarker(At(s, i), radix), RunEnd(s, q, 10))
    else NoExponent
  }

  datatype Syntax =
    | Malformed
    | InfinityName(neg: bool, end: nat)
    | Numeral(neg: bool, m: Mantissa, exp: int, binary: bool, end: nat)

  predicate Prefix16(s: string, p: nat, radix: nat) {
    radix == 16 && At(s, p) == '0' && (At(s, p + 1) == 'x' || At(s, p + 1) == 'X')
  }

  const INFINITY_NAME := "Infinity"

  predicate NamesInfinity(s: string, p: nat) {
    p + |INFINITY_NAME| <= |s| && s[p..p + |INFINITY_NAME|] == INFINITY_NAME
  }

  ghost function Parse(s: string, radix: nat): Syntax
    requires 2 <= radix <= 36
  {
    var p, neg := AfterSign(s, 0), At(s, 0) == '-';
    if Prefix16(s, p, radix) then
      if !IsDigitAt(s, p + 2, radix) then Malformed else ParseAt(s, neg, p + 2, p, radix)
    else if At(s, p) != '0' && NamesInfinity(s, p) then InfinityName(neg, p + |INFINITY_NAME|)
    else ParseAt(s, neg, p, p, radix)
  }

  ghost function ParseAt(s: string, neg: bool, p0: nat, start: nat, radix: nat): (x: Syntax)
    requires 2 <= radix <= 36 && p0 <= |s|
    ensures x.Malformed? || (x.Numeral? && x.neg == neg)
  {
    var m := MantissaAt(s, p0, start, radix);
    if m.end == start then Malformed
    else
      match ExponentAt(s, m.end, start, radix)
      case NoExponent => Numeral(neg, m, 0, false, m.end)
      case BadExponent => Malformed
      case Exponent(value, binary, end) => Numeral(neg, m, value, binary, end)
  }

  ///// The exponent

  const EXPONENT_LIMIT: int := 214748363

  /** Of an exponent from this one on only the fact is kept. */
  const FIRST_NOT_KEPT: int := 2147483640

  predicate Kept(exp: int) {
    -FIRST_NOT_KEPT < exp < FIRST_NOT_KEPT
  }

  /** Reads the digits of an exponent. */
  method ReadExponent(s: string, q: nat) returns (expn: nat, overflow: bool, end: nat)
    requires IsDigitAt(s, q, 10)
    ensures end == RunEnd(s, q, 10) && q < end <= |s|
    ensures var n := Value(Run(s, q, end), 10); if overflow then n >= FIRST_NOT_KEPT else expn == n < FIRST_NOT_KEPT
  {
    hide RunEnd, Value, Run;
    RunEndIs(s, q, 10, q);
    expn := ToDigit(At(s, q));
    overflow := false;
    end := q + 1;
    FirstOfRun(s, q);
    while true
      invariant q < end <= |s| && end <= RunEnd(s, q, 10)
      invariant var n := Value(Run(s, q, end), 10); if overflow then n >= FIRST_NOT_KEPT else expn == n < FIRST_NOT_KEPT
      decreases |s| - end
    {
      RunEndIs(s, q, 10, end);
      var c := ToDigit(At(s, end));
      if c >= 10 {
        RunEndHere(s, q, end);
        break;
      }
      NextOfRun(s, q, end);
      if !overflow {
        if expn > EXPONENT_LIMIT {
          overflow := true;
        } else {
          expn := expn * 10 + c;
        }
      }
      end := end + 1;
    }
  }

  lemma FirstOfRun(s: string, q: nat)
    requires IsDigitAt(s, q, 10)
    ensures Value(Run(s, q, q + 1), 10) == ToDigit(At(s, q)) && RunEnd(s, q, 10) >= q + 1
  {
    var ds := Run(s, q, q + 1);
    assert ds == [] + [ToDigit(s[q])];
    ValueSnoc([], ToDigit(s[q]), 10);
  }

  lemma NextOfRun(s: string, q: nat, end: nat)
    requires q < end <= RunEnd(s, q, 10) && end <= |s| && ToDigit(At(s, end)) < 10
    ensures end + 1 <= |s| && end + 1 <= RunEnd(s, q, 10)
    ensures Value(Run(s, q, end + 1), 10) == Value(Run(s, q, end), 10) * 10 + ToDigit(At(s, end))
  {
    RunEndIs(s, q, 10, end);
    assert IsDigitAt(s, end, 10);
    assert Run(s, q, end + 1) == Run(s, q, end) + [ToDigit(s[end])];
    ValueSnoc(Run(s, q, end), ToDigit(s[end]), 10);
  }

  lemma RunEndHere(s: string, q: nat, end: nat)
    requires q < end <= RunEnd(s, q, 10) && ToDigit(At(s, end)) >= 10
    ensures end == RunEnd(s, q, 10)
  {
    RunEndIs(s, q, 10, end);
  }

  /** What is known of an exponent; one that is too large is only known to be. */
  ghost predicate ExponentRead(x: Exponent, expn: int, overflow: bool, negative: bool, binary: bool, end: nat) {
    x.Exponent? && x.binary == binary && x.end == end &&
    if overflow then (if negative then x.value <= -FIRST_NOT_KEPT else x.value >= FIRST_NOT_KEPT)
      else x.value == expn && Kept(expn)
  }

  method ScanExponent(s: string, i: nat, start: nat, radix: nat)
    returns (bad: bool, present: bool, expn: int, overflow: bool, negative: bool, binary: bool, end: nat)
    requires 2 <= radix <= 36 && i <= |s|
    ensures bad <==> ExponentAt(s, i, start, radix) == BadExponent
    ensures !bad ==> i <= end <= |s| && (present <==> ExponentAt(s, i, start, radix).Exponent?)
    ensures !bad && !present ==>
      ExponentAt(s, i, start, radix) == NoExponent && expn == 0 && !overflow && !binary && end == i
    ensures !bad && present ==> ExponentRead(ExponentAt(s, i, start, radix), expn, overflow, negative, binary, end)
  {
    hide RunEnd, Value, Run;
    bad, present, expn, overflow, negative, binary, end := false, false, 0, false, false, false, i;
    if i > start && ExponentMarker(At(s, i), radix) {
      present := true;
      binary := BinaryMarker(At(s, i), radix);
      negative := At(s, i + 1) == '-';
      var q := AfterSign(s, i + 1);
      if !IsDigitAt(s, q, 10) {
        bad := true;
        return;
      }
      var n: int;
      n, overflow, end := ReadExponent(s, q);
      expn := if negative then 0 - n else n;
    }
  }

  ///// The value

  /** The digits, the power of two and the power of the radix that a numeral multiplies. */
  ghost function Whole(x: Syntax, radix: nat): nat
    requires x.Numeral?
  {
    Value(x.m.ds, radix)
  }

  ghost function TwoPower(x: Syntax): int
    requires x.Numeral?
  {
    if x.binary then x.exp else 0
  }

  ghost function RadixExponent(x: Syntax): int
    requires x.Numeral?
  {
    (if x.binary then 0 else x.exp) - (|x.m.ds| - x.m.whole)
  }

  /** `bits` is the nearest double of the value of a numeral. */
  ghost predicate CorrectlyRounded(x: Syntax, radix: nat, bits: nat)
    requires x.Numeral?
  {
    var e2, t := TwoPower(x), RadixExponent(x);
    IsNearest(Num(Whole(x, radix), e2, radix, t), Den(e2, radix, t), bits)
  }

  /** How many leading zeros. */
  ghost function LeadingZeroDigits(ds: Digits): (k: nat)
    ensures k <= |ds| && AllZero(ds[..k]) && (k < |ds| ==> ds[k] > 0)
  {
    if ds == [] || ds[0] > 0 then 0
    else
      var k := LeadingZeroDigits(ds[1..]);
      assert ds[..k + 1] == [ds[0]] + ds[1..][..k];
      k + 1
  }

  lemma LeadingZerosOnly(ds: Digits, k: nat)
    requires k <= |ds| && AllZero(ds[..k]) && (k < |ds| ==> ds[k] > 0)
    ensures k == LeadingZeroDigits(ds)
  {
    var j := LeadingZeroDigits(ds);
    if j < k {
      ZeroAt(ds, k, j);
    } else if k < j {
      ZeroAt(ds, j, k);
    }
  }

  lemma ZeroAt(ds: Digits, k: nat, i: nat)
    requires i < k <= |ds| && AllZero(ds[..k])
    ensures ds[i] == 0
  {
    assert ds[..k][i] == ds[i];
  }

  /** All significant digits count: there are no more than the limit, or the radix is a power of two. */
  ghost predicate AllDigitsCount(x: Syntax, radix: nat)
    requires x.Numeral? && 2 <= radix <= 36
  {
    RadixBits(radix) > 0 || |x.m.ds| - LeadingZeroDigits(x.m.ds) <= MaxDigits(radix)
  }

  lemma ValueWithoutZeros(ds: Digits, k: nat, radix: nat)
    requires k <= |ds| && AllZero(ds[..k])
    ensures Value(ds, radix) == Value(ds[k..], radix)
  {
    assert ds == ds[..k] + ds[k..];
    ValueConcat(ds[..k], ds[k..], radix);
    ValueZeros(ds[..k], radix);
    assert 0 * Pow(radix, |ds[k..]|) == 0;
  }

  lemma AnyDigitValue(ds: Digits, radix: nat)
    requires radix > 1
    ensures AnyDigit(ds) <==> Value(ds, radix) != 0
  {
    if AnyDigit(ds) {
      var k := LeadingZeroDigits(ds);
      ValueWithoutZeros(ds, k, radix);
      if k == |ds| {
        var i :| 0 <= i < |ds| && ds[i] != 0;
        ZeroAt(ds, k, i);
      }
      ValueAtLeast(ds[k..], radix);
      PowPos(radix, |ds[k..]| - 1);
    } else {
      ValueZeros(ds, radix);
    }
  }

  /** The value of the first digits and of all of them. */
  lemma SplitValue(sig: Digits, used: nat, radix: nat)
    requires radix > 1 && used <= |sig| && AllBelow(sig, radix)
    ensures var d := Pow(radix, |sig| - used);
      d > 0 && Value(sig, radix) / d == Value(sig[..used], radix) && Value(sig, radix) % d == Value(sig[used..], radix)
  {
    hide Pow;
    assert sig == sig[..used] + sig[used..];
    ValueConcat(sig[..used], sig[used..], radix);
    ValueBound(sig[used..], radix);
    PowPos(radix, |sig| - used);
    DivModIs(Value(sig, radix), Pow(radix, |sig| - used), Value(sig[..used], radix), Value(sig[used..], radix));
  }

  /** The first digits are a number of so many digits. */
  lemma UsedDigits(sig: Digits, used: nat, radix: nat)
    requires radix > 1 && 0 < used <= |sig| && AllBelow(sig, radix) && sig[0] > 0
    ensures Pow(radix, used - 1) <= Value(sig[..used], radix) < Pow(radix, used)
  {
    ValueAtLeast(sig[..used], radix);
    ValueBound(sig[..used], radix);
  }

  ///// A radix that is a power of two

  lemma BinaryFraction(w: nat, b: nat, radix: nat, e: int, r: nat, e2: int, t: int)
    requires radix == Pow2(b) && radix > 0 && e == e2 + b * t + b * r
    ensures Den(e2, radix, t) > 0 && Pow(radix, r) * Pow2(Neg(e)) > 0
    ensures (w * Pow2(Pos(e))) * Den(e2, radix, t) == Num(w, e2, radix, t) * (Pow(radix, r) * Pow2(Neg(e)))
  {
    hide Pow;
    DenPos(e2, radix, t);
    PowPos(radix, r);
    PowPos(2, Neg(e));
    MulPos(Pow(radix, r), Pow2(Neg(e)));
    PowOfPow(2, b, Pos(t));
    PowOfPow(2, b, Neg(t));
    PowOfPow(2, b, r);
    assert b * Pos(t) - b * Neg(t) == b * t by {
      MulDist(Pos(t), Neg(t), b);
      ProductDifference(b, Pos(t), Neg(t));
    }
    var x := w;
    MulAssoc(w, Pow2(Pos(e)), Den(e2, radix, t));
    MulAssoc(w, Pow2(Pos(e2)), Pow2(b * Pos(t)));
    MulAssoc(w, Pow2(Pos(e2)) * Pow2(b * Pos(t)), Pow(radix, r) * Pow2(Neg(e)));
    PowAdd(2, Pos(e2), b * Pos(t));
    PowAdd(2, b * r, Neg(e));
    PowAdd(2, Pos(e2) + b * Pos(t), b * r + Neg(e));
    PowAdd(2, Neg(e2), b * Neg(t));
    PowAdd(2, Pos(e), Neg(e2) + b * Neg(t));
    assert Pos(e) + (Neg(e2) + b * Neg(t)) == (Pos(e2) + b * Pos(t)) + (b * r + Neg(e));
  }

  lemma ProductDifference(a: int, b: int, c: int)
    ensures a * (b - c) == a * b - a * c
  {
  }

  /** With more digits than are used there are bits to spare. */
  lemma BitsToSpare(radix: nat, v: nat, used: nat)
    requires 2 <= radix <= 36 && RadixBits(radix) > 0 && used == MaxDigits(radix) && v >= Pow(radix, used - 1)
    ensures v >= Pow2(55)
  {
    hide Pow;
    var b := RadixBits(radix);
    PowOfPow(2, b, used - 1);
    assert b * (used - 1) >= 55;
    PowMono(2, 55, b * (used - 1));
  }

  /** Setting the low bit when something was cut off. */
  lemma StickyDigits(sig: Digits, used: nat, radix: nat, v: nat)
    requires 2 <= radix <= 36 && RadixBits(radix) > 0 && 0 < used <= |sig| && AllBelow(sig, radix) && sig[0] > 0
    requires used < |sig| ==> used == MaxDigits(radix)
    requires var u := Value(sig[..used], radix); v == if AnyDigit(sig[used..]) && u % 2 == 0 then u + 1 else u
    ensures var n1, d1 := Value(sig, radix), Pow(radix, |sig| - used);
      d1 > 0 && v == Sticky(n1, d1) && (n1 % d1 == 0 || v >= Pow2(55))
    ensures Pow(radix, used - 1) <= v < Pow(radix, used)
  {
    hide Pow, Value, MaxDigits;
    SplitValue(sig, used, radix);
    UsedDigits(sig, used, radix);
    AnyDigitValue(sig[used..], radix);
    EvenPower(radix, used);
    if used < |sig| {
      BitsToSpare(radix, v, used);
    } else {
      assert sig[used..] == [];
    }
  }

  lemma EvenPower(radix: nat, n: nat)
    requires 2 <= radix <= 36 && RadixBits(radix) > 0 && n > 0
    ensures Pow(radix, n) % 2 == 0
  {
    hide Pow;
    var b := RadixBits(radix);
    PowOfPow(2, b, n);
    MulPos(b, n);
    Pow2Step(b * n);
  }

  method ConvertDigits2(tmp: Mpb, radix: nat, ghost ds: Digits, sigPos: nat, used: nat, extra: bool, offset: int,
        expn: int, binary: bool)
    returns (bits: nat)
    requires 2 <= radix <= 36 && RadixBits(radix) > 0 && AllBelow(ds, radix) && 0 < used && sigPos + used <= |ds| &&
      ds[sigPos] > 0
    requires AllZero(ds[..sigPos]) && (sigPos + used < |ds| ==> used == MaxDigits(radix))
    requires tmp.Valid() && tmp.Normal() && tmp.len + 2 <= tmp.tab.Length &&
      tmp.Value() == Value(ds[sigPos..sigPos + used], radix)
    requires extra <==> AnyDigit(ds[sigPos + used..])
    modifies tmp, tmp.tab
    ensures var e2, t := if binary then expn else 0, (if binary then 0 else expn) - (|ds| - (sigPos + used - offset));
      IsNearest(Num(Value(ds, radix), e2, radix, t), Den(e2, radix, t), bits)
  {
    hide Pow, Value, MaxDigits, Sticky, IsNearest, Val, RadixBits;
    ghost var sig := ds[sigPos..];
    assert sig[..used] == ds[sigPos..sigPos + used] && sig[used..] == ds[sigPos + used..];
    if extra {
      SetLowBit(tmp);
    }
    StickyDigits(sig, used, radix, tmp.Value());
    var b := RadixBits(radix);
    var e := (if binary then expn else expn * b) - offset * b;
    ghost var r := |sig| - used;
    bits := ConvertBinary(tmp, radix, b, used, e, Value(sig, radix), Pow(radix, r));
    ValueWithoutZeros(ds, sigPos, radix);
    ghost var e2, t := if binary then expn else 0, (if binary then 0 else expn) - (|ds| - (sigPos + used - offset));
    assert t == (if binary then 0 else expn) - r - offset;
    assert e == e2 + b * t + b * r by {
      ProductDifference(b, if binary then 0 else expn, r);
      ProductDifference(b, (if binary then 0 else expn) - r, offset);
      assert b * 0 == 0 && b * expn == expn * b && b * offset == offset * b;
    }
    BinaryFraction(Value(ds, radix), b, radix, e, r, e2, t);
    SameNearest(Value(ds, radix) * Pow2(Pos(e)), Pow(radix, r) * Pow2(Neg(e)), Num(Value(ds, radix), e2, radix, t),
      Den(e2, radix, t), bits);
  }

  ///// A radix with an odd factor

  method ConvertDigits(tmp: Mpb, radix: nat, radix1: nat, radixShift: nat, ghost ds: Digits, sigPos: nat, used: nat,
        offset: int, expn: int)
    returns (bits: nat)
    requires 2 <= radix <= 36 && radix1 == OddPart(radix) > 1 && radixShift == TwoShift(radix) && AllBelow(ds, radix)
    requires 0 < used <= MaxDigits(radix) && sigPos + used <= |ds| && ds[sigPos] > 0 && AllZero(ds[..sigPos])
    requires tmp.Valid() && tmp.Normal() && tmp.tab.Length >= BUFFER_LIMBS
    requires tmp.Value() == Value(ds[sigPos..sigPos + used], radix)
    modifies tmp, tmp.tab
    ensures var t := expn - offset;
      IsNearest(Num(Value(ds[..sigPos + used], radix), 0, radix, t), Den(0, radix, t), bits)
  {
    hide Pow, Value, MaxDigits, IsNearest, Val, OddPart, TwoShift;
    ghost var sig := ds[sigPos..];
    assert sig[..used] == ds[sigPos..sigPos + used];
    UsedDigits(sig, used, radix);
    bits := ConvertScaled(tmp, radix, radix1, radixShift, used, expn - offset);
    ghost var first := ds[..sigPos + used];
    assert first[..sigPos] == ds[..sigPos] && first[sigPos..] == ds[sigPos..sigPos + used];
    ValueWithoutZeros(first, sigPos, radix);
  }

  ///// The whole

  /** The numeral with its digits beyond the limit read as zeros. */
  ghost function Truncated(x: Syntax, radix: nat): (y: Syntax)
    requires x.Numeral? && 2 <= radix <= 36
    ensures y.Numeral?
  {
    var n := LeadingZeroDigits(x.m.ds) + MaxDigits(radix);
    if n >= |x.m.ds| then x else x.(m := x.m.(ds := x.m.ds[..n]))
  }

  /** The numeral as it counts: in a radix that is a power of two every digit does. */
  ghost function Counted(x: Syntax, radix: nat): (y: Syntax)
    requires x.Numeral? && 2 <= radix <= 36
    ensures y.Numeral?
    ensures AllDigitsCount(x, radix) ==> y == x
  {
    if RadixBits(radix) > 0 then x else Truncated(x, radix)
  }

  ///// What a C int can hold

  predicate IsInt(i: int) {
    -0x8000_0000 <= i <= 0x7FFF_FFFF
  }

  /** No value computed from the position of the dot and the exponent overflows. An exponent that is not kept is not
      computed with. */
  ghost predicate IntsFit(x: Syntax, radix: nat)
    requires x.Numeral? && 2 <= radix <= 36
  {
    var zeros := LeadingZeroDigits(x.m.ds);
    var used := if zeros + MaxDigits(radix) <= |x.m.ds| then MaxDigits(radix) else |x.m.ds| - zeros;
    var scale := if RadixBits(radix) > 0 then RadixBits(radix) else 1;
    var offset := (zeros + used - x.m.whole) * scale;
    var e := if x.binary then x.exp else x.exp * scale;
    IsInt(|x.m.ds|) &&
    (used > 0 && Kept(x.exp) ==> IsInt(e) && IsInt(offset) && IsInt(e - offset) && IsInt(e - offset + used * scale))
  }

  /** An exponent that is not kept has to decide the result: the number rounds to infinity, or to zero. */
  ghost predicate Decides(x: Syntax, radix: nat)
    requires x.Numeral?
  {
    var n, d := Num(Whole(x, radix), TwoPower(x), radix, RadixExponent(x)), Den(TwoPower(x), radix, RadixExponent(x));
    n > 0 ==>
      (x.exp >= FIRST_NOT_KEPT ==> n >= (Pow2(1024) - Pow2(970)) * d) &&
      (x.exp <= -FIRST_NOT_KEPT ==> n * Pow2(1075) <= d)
  }

  ///// Exponents that are too large to keep

  lemma HugeExponent(w: nat, ds: Digits, radix: nat, t: int)
    requires 2 <= radix && AllBelow(ds, radix) && w == Value(ds, radix) && w > 0
    ensures Den(0, radix, t) > 0
    ensures t >= 1024 ==> IsNearest(Num(w, 0, radix, t), Den(0, radix, t), INFINITY)
    ensures t + |ds| <= -1075 ==> IsNearest(Num(w, 0, radix, t), Den(0, radix, t), 0)
  {
    hide Pow, IsNearest;
    DenPos(0, radix, t);
    PowSmall(radix);
    ValueBound(ds, radix);
    PowBaseMono(2, radix, 1024);
    PowBaseMono(2, radix, 1075);
    if t >= 1024 {
      TooLarge(w, radix, 1, t, 1024);
    }
    if t + |ds| <= -1075 {
      TooSmall(w, radix, |ds|, t, 1075);
    }
  }

  lemma HugeBinaryExponent(w: nat, ds: Digits, radix: nat, e2: int, t: int)
    requires 2 <= radix <= 36 && RadixBits(radix) > 0 && AllBelow(ds, radix) && w == Value(ds, radix) && w > 0
    ensures Den(e2, radix, t) > 0
    ensures e2 + RadixBits(radix) * t >= 1024 ==> IsNearest(Num(w, e2, radix, t), Den(e2, radix, t), INFINITY)
    ensures e2 + RadixBits(radix) * (t + |ds|) <= -1075 ==> IsNearest(Num(w, e2, radix, t), Den(e2, radix, t), 0)
  {
    hide Pow, IsNearest, RadixBits;
    var b := RadixBits(radix);
    var e := e2 + b * t;
    PowSmall(radix);
    PowSmall(2);
    BinaryFraction(w, b, radix, e, 0, e2, t);
    var n, d := w * Pow2(Pos(e)), 1 * Pow2(Neg(e));
    PowPos(2, Neg(e));
    if e >= 1024 {
      PowMono(2, 1024, e);
      MulMono(1, w, Pow2(e));
      LargeIsInfinite(n, d);
      SameNearest(n, d, Num(w, e2, radix, t), Den(e2, radix, t), INFINITY);
    }
    if e2 + b * (t + |ds|) <= -1075 {
      ValueBound(ds, radix);
      PowOfPow(2, b, |ds|);
      assert b * (t + |ds|) == b * t + b * |ds| by {
        MulDist(t, |ds|, b);
      }
      MulNonNeg(b, |ds|);
      PowAdd(2, b * |ds|, 1075);
      PowMono(2, b * |ds| + 1075, 0 - e);
      MulMono(w, Pow2(b * |ds|), Pow2(1075));
      SmallIsZero(n, d);
      SameNearest(n, d, Num(w, e2, radix, t), Den(e2, radix, t), 0);
    }
  }

  /** Zero digits, zero. */
  lemma ZeroIsRounded(e2: int, radix: nat, t: int)
    requires radix > 0
    ensures IsNearest(Num(0, e2, radix, t), Den(e2, radix, t), 0)
  {
    hide Pow, IsNearest;
    DenPos(e2, radix, t);
    assert Num(0, e2, radix, t) == 0 by {
      assert 0 * Pow2(Pos(e2)) == 0 && 0 * Pow(radix, Pos(t)) == 0;
    }
    assert 0 * Pow2(1075) == 0;
    SmallIsZero(0, Den(e2, radix, t));
  }

  /** The result for an exponent that is not kept is right if and only if the exponent decides. */
  lemma NotKeptOutcome(x: Syntax, radix: nat)
    requires x.Numeral? && radix > 0 && Whole(x, radix) > 0 && !Kept(x.exp)
    ensures CorrectlyRounded(x, radix, if x.exp < 0 then 0 else INFINITY) <==> Decides(x, radix)
  {
    hide Pow, IsNearest, Value;
    var e2, t := TwoPower(x), RadixExponent(x);
    DenPos(e2, radix, t);
    NumPos(Whole(x, radix), e2, radix, t);
    if x.exp < 0 {
      ZeroIff(Num(Whole(x, radix), e2, radix, t), Den(e2, radix, t));
    } else {
      InfinityIff(Num(Whole(x, radix), e2, radix, t), Den(e2, radix, t));
    }
  }

  lemma NumPos(w: nat, e2: int, radix: nat, t: int)
    requires w > 0 && radix > 0
    ensures Num(w, e2, radix, t) > 0
  {
    hide Pow;
    PowPos(2, Pos(e2));
    PowPos(radix, Pos(t));
    MulPos(w, Pow2(Pos(e2)));
    MulPos(w * Pow2(Pos(e2)), Pow(radix, Pos(t)));
  }

  /** It does unless there are hundreds of millions of digits. */
  lemma DecidesUnlessLong(x: Syntax, radix: nat)
    requires x.Numeral? && 2 <= radix <= 36 && AllBelow(x.m.ds, radix) && (x.binary ==> RadixBits(radix) > 0)
    requires var scale := if x.binary then RadixBits(radix) else 1;
      scale * |x.m.ds| <= FIRST_NOT_KEPT - 1075 && scale * x.m.whole <= FIRST_NOT_KEPT - 1075
    ensures Decides(x, radix)
  {
    hide Pow, IsNearest, RadixBits, Value;
    var w, e2, t := Whole(x, radix), TwoPower(x), RadixExponent(x);
    DenPos(e2, radix, t);
    if w == 0 {
      assert 0 * Pow2(Pos(e2)) == 0 && 0 * Pow(radix, Pos(t)) == 0;
    } else {
      if x.binary {
        ScaledRange(RadixBits(radix), |x.m.ds|, x.m.whole);
        HugeBinaryExponent(w, x.m.ds, radix, e2, t);
      } else {
        HugeExponent(w, x.m.ds, radix, t);
      }
      InfinityIff(Num(w, e2, radix, t), Den(e2, radix, t));
      ZeroIff(Num(w, e2, radix, t), Den(e2, radix, t));
    }
  }

  lemma ScaledRange(b: nat, n: nat, whole: nat)
    ensures b * (0 - (n - whole)) >= 0 - b * n && b * (0 - (n - whole) + n) == b * whole
  {
    ProductDifference(b, whole, n);
    MulNonNeg(b, whole);
    assert 0 - (n - whole) == whole - n;
  }

  /** 2^-4, in radix 16 with 536870911 digits after the dot and the exponent p2147483640, is read as infinity. */
  lemma LongFraction(x: Syntax)
    requires x.Numeral? && x.binary && x.exp == FIRST_NOT_KEPT
    requires |x.m.ds| == 536870911 && x.m.whole == 0 && Whole(x, 16) == 1
    ensures 16 * Num(1, TwoPower(x), 16, RadixExponent(x)) == Den(TwoPower(x), 16, RadixExponent(x))
    ensures IntsFit(x, 16) && !Decides(x, 16)
  {
    hide Pow, Value, LeadingZeroDigits, MaxDigits;
    var e2, t := TwoPower(x), RadixExponent(x);
    var n, d := Num(1, e2, 16, t), Den(e2, 16, t);
    assert RadixBits(16) == 4 && 16 == Pow2(4);
    PowOfPow(2, 4, 0 - t);
    PowSmall(16);
    PowSmall(2);
    PowAdd(2, 4, e2);
    NumPos(1, e2, 16, t);
    DenPos(e2, 16, t);
    PowPos(2, 970);
    PowAdd(2, 1, 970);
    PowMono(2, 971, 1024);
    if n >= (Pow2(1024) - Pow2(970)) * d {
      MulMono(1, Pow2(1024) - Pow2(970), d);
    }
  }

  ///// Reading a double

  /** What the result has to be for what the grammar makes of the string. */
  ghost predicate Outcome(s: string, radix: nat, ok: bool, neg: bool, bits: nat, next: nat)
    requires 2 <= radix <= 36
  {
    match Parse(s, radix)
    case Malformed => !ok
    case InfinityName(n, e) => ok && neg == n && bits == INFINITY && next == e
    case Numeral(n, m, exp, binary, e) =>
      var x := Numeral(n, m, exp, binary, e);
      ok && neg == n && next == e &&
      (IntsFit(x, radix) ==>
        (CorrectlyRounded(Counted(x, radix), radix, bits) <==> Decides(Counted(x, radix), radix))) &&
      (Whole(x, radix) == 0 ==> bits == 0)
  }

  /** What the result has to be for a mantissa that starts at `p0`. */
  ghost predicate OutcomeAt(s: string, neg: bool, p0: nat, start: nat, radix: nat, ok: bool, bits: nat, next: nat)
    requires 2 <= radix <= 36 && p0 <= |s|
  {
    match ParseAt(s, neg, p0, start, radix)
    case Malformed => !ok
    case InfinityName(_, _) => true
    case Numeral(n, m, exp, binary, e) =>
      var x := Numeral(n, m, exp, binary, e);
      ok && next == e &&
      (IntsFit(x, radix) ==>
        (CorrectlyRounded(Counted(x, radix), radix, bits) <==> Decides(Counted(x, radix), radix))) &&
      (Whole(x, radix) == 0 ==> bits == 0)
  }

  /** The mantissa, the exponent, and the double. */
  method NumeralToD(s: string, ghost neg: bool, p0: nat, start: nat, radix: nat, radix1: nat, radixShift: nat)
    returns (ok: bool, bits: nat, next: nat)
    requires 2 <= radix <= 36 && radix1 == OddPart(radix) && radixShift == TwoShift(radix) && start <= p0 <= |s|
    requires p0 > start ==> IsDigitAt(s, p0, radix)
    ensures OutcomeAt(s, neg, p0, start, radix, ok, bits, next)
  {
    hide RunEnd, DotAt, ScanAt, Value, Run, Pow, MaxDigits, Val, RadixBits, OddPart, TwoShift, ExponentAt, MantissaAt,
      IsNearest, CorrectlyRounded, Counted, Decides, IntsFit;
    ghost var m := MantissaAt(s, p0, start, radix);
    MantissaDigits(s, p0, start, radix);
    RadixParts(radix);
    var tmp := new Mpb(BUFFER_LIMBS);
    var p, pos, dotPos := SkipZeros(s, p0, start, radix);
    var sigPos, used, extra := pos, 0, false;
    p, pos, dotPos, used, extra := ReadDigits(s, p0, start, radix, tmp, p, sigPos, dotPos);
    var isZero := used == 0;
    if dotPos < 0 {
      dotPos := pos;
    }
    var offset := sigPos + used - dotPos;
    var bad, present, expn, overflow, negative, binary, end := ScanExponent(s, p, start, radix);
    if bad {
      BadExponentMalformed(s, neg, p0, start, radix);
      return false, 0, p;
    }
    if end == start {
      NothingRead(s, neg, p0, start, radix);
      return false, 0, end;
    }
    ghost var x := ParseAt(s, neg, p0, start, radix);
    NumeralRead(s, neg, p0, start, radix, present, expn, overflow, negative, binary, end);
    LeadingZerosOnly(m.ds, sigPos);
    ok, next := true, end;
    if isZero {
      bits := 0;
      assert m.ds[..sigPos] == m.ds;
      ZeroOutcome(x, radix);
      KeptDecides(x, radix);
    } else if overflow {
      bits := if negative then 0 else INFINITY;
      OverflowOutcome(x, radix);
    } else if radix1 == 1 {
      SomeDigit(m.ds, radix);
      bits := ConvertDigits2(tmp, radix, m.ds, sigPos, used, extra, offset, expn, binary);
      BinaryOutcome(x, radix, sigPos, used, bits);
      KeptDecides(x, radix);
    } else {
      SomeDigit(m.ds, radix);
      bits := ConvertDigits(tmp, radix, radix1, radixShift, m.ds, sigPos, used, offset, expn);
      ScaledOutcome(x, radix, sigPos, used, bits);
      KeptDecides(x, radix);
    }
  }

  lemma BadExponentMalformed(s: string, neg: bool, p0: nat, start: nat, radix: nat)
    requires 2 <= radix <= 36 && p0 <= |s|
    requires ExponentAt(s, MantissaAt(s, p0, start, radix).end, start, radix) == BadExponent
    ensures ParseAt(s, neg, p0, start, radix) == Malformed
  {
  }

  lemma NothingRead(s: string, neg: bool, p0: nat, start: nat, radix: nat)
    requires 2 <= radix <= 36 && p0 <= |s| && MantissaAt(s, p0, start, radix).end == start
    ensures ParseAt(s, neg, p0, start, radix) == Malformed
  {
  }

  lemma NumeralRead(s: string, neg: bool, p0: nat, start: nat, radix: nat, present: bool, expn: int, overflow: bool,
        negative: bool, binary: bool, end: nat)
    requires 2 <= radix <= 36 && p0 <= |s|
    requires var m := MantissaAt(s, p0, start, radix); var e := ExponentAt(s, m.end, start, radix);
      end != start && start <= m.end && e != BadExponent && (present <==> e.Exponent?) &&
      (present ==> ExponentRead(e, expn, overflow, negative, binary, end)) &&
      (!present ==> e == NoExponent && expn == 0 && !overflow && !binary && end == m.end)
    ensures var x := ParseAt(s, neg, p0, start, radix);
      x.Numeral? && x.neg == neg && x.m == MantissaAt(s, p0, start, radix) && x.end == end && x.binary == binary &&
      (if overflow then (if negative then x.exp <= -FIRST_NOT_KEPT else x.exp >= FIRST_NOT_KEPT)
        else x.exp == expn && Kept(expn)) &&
      (x.binary ==> RadixBits(radix) > 0)
  {
    hide MantissaAt, RunEnd, Run, Value;
  }

  lemma CountedDigits(x: Syntax, radix: nat)
    requires x.Numeral? && 2 <= radix <= 36
    ensures var y := Counted(x, radix);
      y.m.whole == x.m.whole && y.exp == x.exp && y.binary == x.binary &&
      exists n :: 0 <= n <= |x.m.ds| && y.m.ds == x.m.ds[..n] && (n < |x.m.ds| ==> n > LeadingZeroDigits(x.m.ds))
  {
    var n := LeadingZeroDigits(x.m.ds) + MaxDigits(radix);
    if RadixBits(radix) > 0 || n >= |x.m.ds| {
      assert x.m.ds == x.m.ds[..|x.m.ds|];
    }
  }

  /** No significant digits: zero, which is right. */
  lemma ZeroOutcome(x: Syntax, radix: nat)
    requires x.Numeral? && 2 <= radix <= 36 && AllZero(x.m.ds)
    ensures Whole(x, radix) == 0 && CorrectlyRounded(Counted(x, radix), radix, 0)
  {
    hide IsNearest, Num, Den, Counted;
    CountedDigits(x, radix);
    var y := Counted(x, radix);
    ValueZeros(x.m.ds, radix);
    ValueZeros(y.m.ds, radix);
    ZeroIsRounded(TwoPower(y), radix, RadixExponent(y));
  }

  lemma OverflowOutcome(x: Syntax, radix: nat)
    requires x.Numeral? && 2 <= radix <= 36 && LeadingZeroDigits(x.m.ds) < |x.m.ds| && !Kept(x.exp)
    ensures var y := Counted(x, radix);
      CorrectlyRounded(y, radix, if x.exp < 0 then 0 else INFINITY) <==> Decides(y, radix)
    ensures Whole(x, radix) > 0
  {
    hide IsNearest, Num, Den, Value, RadixBits, Decides, CorrectlyRounded;
    CountedDigits(x, radix);
    var y := Counted(x, radix);
    SomeDigit(x.m.ds, radix);
    assert LeadingZeroDigits(y.m.ds) < |y.m.ds| by {
      var k := LeadingZeroDigits(x.m.ds);
      assert y.m.ds[..k] == x.m.ds[..k];
      LeadingZerosOnly(y.m.ds, k);
    }
    SomeDigit(y.m.ds, radix);
    NotKeptOutcome(y, radix);
  }

  /** A kept exponent leaves nothing to decide, and neither does zero. */
  lemma KeptDecides(x: Syntax, radix: nat)
    requires x.Numeral? && 2 <= radix <= 36 && (Kept(x.exp) || AllZero(x.m.ds))
    ensures Decides(Counted(x, radix), radix)
  {
    hide Pow, Counted, Value;
    CountedDigits(x, radix);
    var y := Counted(x, radix);
    if AllZero(x.m.ds) {
      ValueZeros(y.m.ds, radix);
      assert 0 * Pow2(Pos(TwoPower(y))) == 0 && 0 * Pow(radix, Pos(RadixExponent(y))) == 0;
    }
  }

  /** Neither is there anything to decide in a string of less than some hundreds of millions of digits. */
  lemma ShortDecides(x: Syntax, radix: nat)
    requires x.Numeral? && 2 <= radix <= 36 && AllBelow(x.m.ds, radix) && x.m.whole <= |x.m.ds|
    requires x.binary ==> RadixBits(radix) > 0
    requires (if x.binary then RadixBits(radix) else 1) * |x.m.ds| <= FIRST_NOT_KEPT - 1075
    ensures Decides(Counted(x, radix), radix)
  {
    hide Decides, Counted, RadixBits;
    CountedDigits(x, radix);
    var y, scale := Counted(x, radix), if x.binary then RadixBits(radix) else 1;
    MulMono(|y.m.ds|, |x.m.ds|, scale);
    MulMono(y.m.whole, |x.m.ds|, scale);
    DecidesUnlessLong(y, radix);
  }

  lemma SomeDigit(ds: Digits, radix: nat)
    requires radix > 1 && LeadingZeroDigits(ds) < |ds|
    ensures Value(ds, radix) > 0
  {
    AnyDigitValue(ds, radix);
    assert ds[LeadingZeroDigits(ds)] != 0;
  }

  lemma BinaryOutcome(x: Syntax, radix: nat, sigPos: nat, used: nat, bits: nat)
    requires x.Numeral? && 2 <= radix <= 36 && RadixBits(radix) > 0
    requires var offset := sigPos + used - x.m.whole;
      var e2 := if x.binary then x.exp else 0;
      var t := (if x.binary then 0 else x.exp) - (|x.m.ds| - (sigPos + used - offset));
      IsNearest(Num(Value(x.m.ds, radix), e2, radix, t), Den(e2, radix, t), bits)
    ensures CorrectlyRounded(Counted(x, radix), radix, bits)
  {
  }

  lemma ScaledOutcome(x: Syntax, radix: nat, sigPos: nat, used: nat, bits: nat)
    requires x.Numeral? && 2 <= radix <= 36 && RadixBits(radix) == 0 && !x.binary
    requires sigPos == LeadingZeroDigits(x.m.ds) && sigPos + used <= |x.m.ds| && used <= MaxDigits(radix)
    requires sigPos + used < |x.m.ds| ==> used == MaxDigits(radix)
    requires var offset := sigPos + used - x.m.whole;
      var t := x.exp - offset;
      IsNearest(Num(Value(x.m.ds[..sigPos + used], radix), 0, radix, t), Den(0, radix, t), bits)
    ensures CorrectlyRounded(Counted(x, radix), radix, bits)
  {
    hide IsNearest, Num, Den, Value, MaxDigits;
    if sigPos + used == |x.m.ds| {
      assert x.m.ds[..sigPos + used] == x.m.ds;
    }
    var y := Counted(x, radix);
    assert y.m.ds == x.m.ds[..sigPos + used] by {
      if sigPos + used == |x.m.ds| {
        assert LeadingZeroDigits(x.m.ds) + MaxDigits(radix) >= |x.m.ds|;
      }
    }
  }

  /** Reads a double from the start of a string. */
  method StringToD(s: string, radix: nat) returns (ok: bool, neg: bool, bits: nat, next: nat)
    requires 2 <= radix <= 36
    ensures Outcome(s, radix, ok, neg, bits, next)
  {
    hide RunEnd, MantissaAt, ParseAt, OddPart, TwoShift, CorrectlyRounded, Counted, IntsFit, Decides, Whole;
    var p := AfterSign(s, 0);
    neg := At(s, 0) == '-';
    bits, next := 0, p;
    var radixShift, radix1 := TwoShift(radix), OddPart(radix);
    if At(s, p) == '0' {
      if Prefix16(s, p, radix) {
        if !IsDigitAt(s, p + 2, radix) {
          ok := false;
          return;
        }
        ok, bits, next := NumeralToD(s, neg, p + 2, p, radix, radix1, radixShift);
        return;
      }
    } else if NamesInfinity(s, p) {
      return true, neg, INFINITY, p + |INFINITY_NAME|;
    }
    ok, bits, next := NumeralToD(s, neg, p, p, radix, radix1, radixShift);
  }
}
