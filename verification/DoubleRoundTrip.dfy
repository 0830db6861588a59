/** What `js_dtoa` prints in free format, `js_atod` reads back. */
module DoubleRoundTrip {
  import opened Powers
  import opened RadixLogs
  import opened RadixTables
  import opened MulPow
  import opened Doubles
  import opened ShortestDigits
  import opened ClosestDigits
  import opened Numerals
  import opened DigitOutput
  import opened NumeralScan
  import opened AtoD
  import opened DtoA

  ///// Reading what was written

  lemma {:induction false} RunOfText(s: string, i: nat, a: Digits)
    requires AllBelow(a, 10) && AllBelow(a, 36) && i + |a| <= |s| && s[i..i + |a|] == Text(a) &&
      !IsDigitAt(s, i + |a|, 10)
    ensures RunEnd(s, i, 10) == i + |a| && Run(s, i, i + |a|) == a
    decreases |a|
  {
    if a != [] {
      assert s[i] == s[i..i + |a|][0] == DigitChar(a[0]);
      DigitOfChar(a[0]);
      var rest := a[1..];
      assert s[i + 1..i + 1 + |rest|] == s[i..i + |a|][1..] == Text(a)[1..] == Text(rest);
      RunOfText(s, i + 1, rest);
      assert a == [a[0]] + rest;
    }
  }

  /** Whole digits, a dot and more digits or neither, and an exponent or none. */
  datatype Form = Form(whole: Digits, dot: bool, frac: Digits, scaled: bool, exp: int)

  ghost predicate ValidForm(f: Form) {
    f.whole != [] && AllBelow(f.whole, 10) && AllBelow(f.frac, 10) && AllBelow(f.whole, 36) && AllBelow(f.frac, 36) &&
    (!f.dot ==> f.frac == []) && (!f.scaled ==> f.exp == 0)
  }

  ghost function FormMantissa(f: Form): string
    requires ValidForm(f)
  {
    Text(f.whole) + (if f.dot then "." + Text(f.frac) else "")
  }

  ghost function FormText(f: Form): string
    requires ValidForm(f)
  {
    FormMantissa(f) + (if f.scaled then ExponentText(f.exp) else "")
  }

  /** The three parts of the rest of a string. */
  lemma ThreeParts(s: string, p0: nat, a: string, b: string, c: string)
    requires p0 <= |s| && s[p0..] == a + b + c
    ensures var i, j := p0 + |a|, p0 + |a| + |b|; j <= |s| && s[p0..i] == a && s[i..j] == b && s[j..] == c
    ensures |s| == p0 + |a| + |b| + |c|
  {
    var t, i, j := s[p0..], p0 + |a|, p0 + |a| + |b|;
    assert s[p0..i] == t[..|a|] == a;
    assert s[i..j] == t[|a|..|a| + |b|] == b;
    assert s[j..] == t[|a| + |b|..] == c;
  }

  lemma MantissaDotted(s: string, p0: nat, a: Digits, b: Digits)
    requires a != [] && AllBelow(a, 10) && AllBelow(b, 10) && AllBelow(a, 36) && AllBelow(b, 36)
    requires var i1 := p0 + |a|; var i2 := i1 + 1 + |b|;
      i2 <= |s| && s[p0..i1] == Text(a) && s[i1] == '.' && s[i1 + 1..i2] == Text(b) && !IsDigitAt(s, i2, 10)
    ensures MantissaAt(s, p0, p0, 10) == Mantissa(a + b, |a|, true, p0 + |a| + 1 + |b|)
  {
    hide RunEnd, Run, Text;
    assert !IsDigitAt(s, p0 + |a|, 10);
    RunOfText(s, p0, a);
    RunOfText(s, p0 + |a| + 1, b);
  }

  lemma MantissaPlain(s: string, p0: nat, a: Digits)
    requires a != [] && AllBelow(a, 10) && AllBelow(a, 36)
    requires var i1 := p0 + |a|; i1 <= |s| && s[p0..i1] == Text(a) && !IsDigitAt(s, i1, 10) && At(s, i1) != '.'
    ensures MantissaAt(s, p0, p0, 10) == Mantissa(a, |a|, false, p0 + |a|)
  {
    hide RunEnd, Run, Text;
    RunOfText(s, p0, a);
  }

  lemma MantissaOfForm(s: string, p0: nat, f: Form)
    requires ValidForm(f) && p0 <= |s| && s[p0..] == FormText(f)
    ensures MantissaAt(s, p0, p0, 10) == Mantissa(f.whole + f.frac, |f.whole|, f.dot, p0 + |FormMantissa(f)|)
    ensures p0 + |FormMantissa(f)| <= |s| && s[p0 + |FormMantissa(f)|..] == Tail(f)
  {
    if f.dot {
      MantissaOfDotted(s, p0, f);
    } else {
      MantissaOfPlain(s, p0, f);
    }
  }

  ghost function Tail(f: Form): string {
    if f.scaled then ExponentText(f.exp) else ""
  }

  lemma MantissaOfDotted(s: string, p0: nat, f: Form)
    requires ValidForm(f) && f.dot && p0 <= |s| && s[p0..] == FormText(f)
    ensures MantissaAt(s, p0, p0, 10) == Mantissa(f.whole + f.frac, |f.whole|, true, p0 + |FormMantissa(f)|)
    ensures p0 + |FormMantissa(f)| <= |s| && s[p0 + |FormMantissa(f)|..] == Tail(f)
  {
    hide MantissaAt, Tail, Text, FormText, FormMantissa, ToDigit, IsDigitAt;
    var rest := Text(f.frac) + Tail(f);
    DottedText(f);
    ThreeParts(s, p0, Text(f.whole), ".", rest);
    var i1 := p0 + |f.whole|;
    assert s[i1] == s[i1..i1 + 1][0];
    assert rest == Text(f.frac) + Tail(f) + "";
    ThreeParts(s, i1 + 1, Text(f.frac), Tail(f), "");
    TailIsNoDigit(s, i1 + 1 + |f.frac|, f);
    MantissaDotted(s, p0, f.whole, f.frac);
  }

  lemma DottedText(f: Form)
    requires ValidForm(f) && f.dot
    ensures FormText(f) == Text(f.whole) + "." + (Text(f.frac) + Tail(f))
    ensures |FormMantissa(f)| == |f.whole| + 1 + |f.frac|
  {
    hide ExponentText;
    assert FormMantissa(f) + Tail(f) == Text(f.whole) + "." + (Text(f.frac) + Tail(f));
  }

  lemma MantissaOfPlain(s: string, p0: nat, f: Form)
    requires ValidForm(f) && !f.dot && p0 <= |s| && s[p0..] == FormText(f)
    ensures MantissaAt(s, p0, p0, 10) == Mantissa(f.whole + f.frac, |f.whole|, false, p0 + |FormMantissa(f)|)
    ensures p0 + |FormMantissa(f)| <= |s| && s[p0 + |FormMantissa(f)|..] == Tail(f)
  {
    hide MantissaAt, ExponentText;
    assert FormText(f) == Text(f.whole) + "" + Tail(f);
    ThreeParts(s, p0, Text(f.whole), "", Tail(f));
    TailIsNoDigit(s, p0 + |f.whole|, f);
    MantissaPlain(s, p0, f.whole);
    assert f.whole + f.frac == f.whole;
  }

  lemma TailIsNoDigit(s: string, i: nat, f: Form)
    requires i <= |s| && s[i..] == Tail(f)
    ensures !IsDigitAt(s, i, 10) && At(s, i) != '.'
  {
    if f.scaled {
      assert s[i] == s[i..][0] == 'e';
    }
  }

  lemma ExponentOfText(s: string, i: nat, start: nat, x: int)
    requires start < i <= |s| && s[i..] == ExponentText(x)
    ensures ExponentAt(s, i, start, 10) == Exponent(x, false, |s|)
  {
    hide RunEnd, Run, AllDigits, Value, CountDigits;
    var ds := AllDigits(Magnitude(x), 10);
    ExponentParts(s, i, x);
    RunOfText(s, i + 2, ds);
    SomeDigits(Magnitude(x));
    RunEndIs(s, i + 2, 10, i + 2);
    Tables10();
  }

  lemma ExponentParts(s: string, i: nat, x: int)
    requires i <= |s| && s[i..] == ExponentText(x)
    ensures i + 2 <= |s| && s[i] == 'e' && s[i + 1] == (if x < 0 then '-' else '+')
    ensures var ds := AllDigits(Magnitude(x), 10); i + 2 + |ds| == |s| && s[i + 2..i + 2 + |ds|] == Text(ds)
  {
    hide AllDigits;
    var ds, sign := AllDigits(Magnitude(x), 10), if x < 0 then "-" else "+";
    ThreeParts(s, i, "e", sign, Text(ds));
    assert s[i] == s[i..i + 1][0] && s[i + 1] == s[i + 1..i + 2][0];
  }

  lemma SomeDigits(n: nat)
    ensures |AllDigits(n, 10)| > 0 && Value(AllDigits(n, 10), 10) == n
  {
    CountIs(n, 10);
    ValueOfDigits(n, CountDigits(n, 10), 10);
  }

  /** The grammar takes a text apart into what it was made of. */
  lemma ParseOfForm(neg: bool, f: Form)
    requires ValidForm(f)
    ensures var s := SignText(neg) + FormText(f);
      exists end :: Parse(s, 10) == Numeral(neg, Mantissa(f.whole + f.frac, |f.whole|, f.dot, end), f.exp, false, |s|)
  {
    hide RunEnd, Run, MantissaAt, ExponentAt, AllDigits, FormText, ParseAt, FormMantissa;
    var s := SignText(neg) + FormText(f);
    var p := |SignText(neg)|;
    FormStart(f);
    SignParts(s, neg, FormText(f));
    NotInfinity(s, p);
    MantissaOfForm(s, p, f);
    FormMantissaNotEmpty(f);
    var i := p + |FormMantissa(f)|;
    if f.scaled {
      ExponentOfText(s, i, p, f.exp);
    } else {
      NoExponentAtEnd(s, p);
    }
    ParsedAt(s, neg, p, f);
  }

  lemma FormStart(f: Form)
    requires ValidForm(f)
    ensures FormText(f) != "" && FormText(f)[0] == DigitChar(f.whole[0])
    ensures var c := FormText(f)[0]; c != 'I' && c != '+' && c != '-'
  {
    DigitOfChar(f.whole[0]);
  }

  lemma FormMantissaNotEmpty(f: Form)
    requires ValidForm(f)
    ensures |FormMantissa(f)| > 0
  {
  }

  lemma SignParts(s: string, neg: bool, body: string)
    requires s == SignText(neg) + body && body != "" && body[0] != '+' && body[0] != '-'
    ensures var p := |SignText(neg)|;
      AfterSign(s, 0) == p && (At(s, 0) == '-') == neg && p < |s| && s[p] == body[0] && s[p..] == body
  {
  }

  lemma ParsedAt(s: string, neg: bool, p: nat, f: Form)
    requires ValidForm(f) && p <= |s| && |FormMantissa(f)| > 0
    requires MantissaAt(s, p, p, 10) == Mantissa(f.whole + f.frac, |f.whole|, f.dot, p + |FormMantissa(f)|)
    requires ExponentAt(s, p + |FormMantissa(f)|, p, 10) ==
      (if f.scaled then Exponent(f.exp, false, |s|) else NoExponent)
    requires !f.scaled ==> p + |FormMantissa(f)| == |s|
    ensures var m := Mantissa(f.whole + f.frac, |f.whole|, f.dot, p + |FormMantissa(f)|);
      ParseAt(s, neg, p, p, 10) == Numeral(neg, m, f.exp, false, |s|)
  {
    hide MantissaAt, ExponentAt, FormMantissa;
  }

  lemma NotInfinity(s: string, p: nat)
    requires p < |s| && s[p] != 'I'
    ensures !NamesInfinity(s, p)
  {
    if p + 8 <= |s| {
      assert s[p..p + 8][0] == s[p];
    }
  }

  lemma NoExponentAtEnd(s: string, start: nat)
    ensures ExponentAt(s, |s|, start, 10) == NoExponent
  {
  }

  ///// The layouts as forms

  function ZeroDigits(n: nat): (ds: Digits)
    ensures |ds| == n && AllBelow(ds, 10) && AllBelow(ds, 36)
    ensures forall i :: 0 <= i < n ==> ds[i] == 0
    ensures Text(ds) == Zeros(n)
  {
    var ds: Digits := seq(n, i requires 0 <= i < n => 0 as nat);
    assert Text(ds) == Zeros(n);
    ds
  }

  ghost function LayoutForm(ds: Digits, exp: int, mode: ExpMode): Form
    requires ds != [] && AllBelow(ds, 10)
  {
    if Exponential(exp, mode) then Form(ds[..1], |ds| > 1, ds[1..], true, exp - 1)
    else if exp <= 0 then Form([0], true, ZeroDigits(0 - exp) + ds, false, 0)
    else if |ds| <= exp then Form(ds + ZeroDigits(exp - |ds|), false, [], false, 0)
    else Form(ds[..exp], true, ds[exp..], false, 0)
  }

  lemma LayoutIsForm(ds: Digits, exp: int, mode: ExpMode)
    requires ds != [] && AllBelow(ds, 10)
    ensures ValidForm(LayoutForm(ds, exp, mode)) && Layout(ds, exp, mode) == FormText(LayoutForm(ds, exp, mode))
  {
    AllSmall(ds, 10);
    if Exponential(exp, mode) {
      ExponentialForm(ds, exp, mode);
    } else if exp <= 0 {
      FractionLayout(ds, exp, mode);
    } else if |ds| <= exp {
      WholeLayout(ds, exp, mode);
    } else {
      DottedLayout(ds, exp, mode);
    }
  }

  lemma ExponentialForm(ds: Digits, exp: int, mode: ExpMode)
    requires ds != [] && AllBelow(ds, 10) && Exponential(exp, mode)
    ensures ValidForm(LayoutForm(ds, exp, mode)) && Layout(ds, exp, mode) == FormText(LayoutForm(ds, exp, mode))
  {
    hide ExponentText, WithDot, Text;
    AllSmall(ds, 10);
    CutText(ds, 1);
    if |ds| == 1 {
      assert ds[1..] == [];
    }
  }

  lemma FractionLayout(ds: Digits, exp: int, mode: ExpMode)
    requires ds != [] && AllBelow(ds, 10) && !Exponential(exp, mode) && exp <= 0
    ensures ValidForm(LayoutForm(ds, exp, mode)) && Layout(ds, exp, mode) == FormText(LayoutForm(ds, exp, mode))
  {
    hide ExponentText, WithDot, Text, Exponential;
    AllSmall(ds, 10);
    FractionForm(ds, 0 - exp);
    var f := LayoutForm(ds, exp, mode);
    assert FormText(f) == FormMantissa(f) + "" == FormMantissa(f);
  }

  lemma WholeLayout(ds: Digits, exp: int, mode: ExpMode)
    requires ds != [] && AllBelow(ds, 10) && !Exponential(exp, mode) && |ds| <= exp
    ensures ValidForm(LayoutForm(ds, exp, mode)) && Layout(ds, exp, mode) == FormText(LayoutForm(ds, exp, mode))
  {
    hide ExponentText, WithDot, Text, Exponential;
    AllSmall(ds, 10);
    TextConcat(ds, ZeroDigits(exp - |ds|));
    PlainForm(LayoutForm(ds, exp, mode));
  }

  lemma DottedLayout(ds: Digits, exp: int, mode: ExpMode)
    requires ds != [] && AllBelow(ds, 10) && !Exponential(exp, mode) && 0 < exp < |ds|
    ensures ValidForm(LayoutForm(ds, exp, mode)) && Layout(ds, exp, mode) == FormText(LayoutForm(ds, exp, mode))
  {
    hide ExponentText, WithDot, Text, Exponential;
    AllSmall(ds, 10);
    CutText(ds, exp);
    var f := LayoutForm(ds, exp, mode);
    assert FormText(f) == FormMantissa(f) + "" == FormMantissa(f);
  }

  lemma CutText(ds: Digits, k: nat)
    requires AllBelow(ds, 36) && k <= |ds|
    ensures Text(ds)[..k] == Text(ds[..k]) && Text(ds)[k..] == Text(ds[k..])
    ensures WithDot(Text(ds), k) == Text(ds[..k]) + (if k < |ds| then "." + Text(ds[k..]) else "")
  {
    var s, a, b := Text(ds), Text(ds[..k]), Text(ds[k..]);
    assert s[..k] == a && s[k..] == b;
    assert s[..k] + "." + s[k..] == a + ("." + b);
    if k == |ds| {
      assert ds[..k] == ds;
    }
  }

  lemma FractionForm(ds: Digits, n: nat)
    requires AllBelow(ds, 36)
    ensures AllBelow(ZeroDigits(n) + ds, 36)
    ensures "0." + Zeros(n) + Text(ds) == Text([0]) + ("." + Text(ZeroDigits(n) + ds))
  {
    TextConcat(ZeroDigits(n), ds);
    assert Text([0]) == "0";
    var a, b := Zeros(n), Text(ds);
    assert "0." == "0" + ".";
    assert "0" + "." + a + b == "0" + ("." + (a + b));
  }

  ///// The value

  /** The digits of a numeral: zeros, the digits that were printed, and more zeros. */
  ghost predicate Padded(x: Syntax, zs: nat, ds: Digits, tz: nat) {
    x.Numeral? && !x.binary && x.m.ds == ZeroDigits(zs) + ds + ZeroDigits(tz)
  }

  ghost predicate TimesTens(w2: nat, w: nat, k: nat) {
    w2 == w * Pow(10, k)
  }

  /** Some of the trailing zeros count. */
  lemma CountedPadded(x: Syntax, zs: nat, ds: Digits, tz: nat) returns (k: nat)
    requires Padded(x, zs, ds, tz) && 0 < |ds| <= 17 && ds[0] > 0
    ensures var y := Counted(x, 10);
      !y.binary && RadixExponent(y) == x.exp - (zs + |ds| - x.m.whole) - k
    ensures TimesTens(Whole(Counted(x, 10), 10), Value(ds, 10), k)
  {
    hide Value, Pow;
    var all := x.m.ds;
    assert all[..zs] == ZeroDigits(zs) && all[zs] == ds[0];
    LeadingZerosOnly(all, zs);
    Tables10();
    if zs + 38 >= |all| {
      k := tz;
      assert all == ZeroDigits(zs) + (ds + ZeroDigits(k));
    } else {
      k := 38 - |ds|;
      assert all[..zs + 38] == ZeroDigits(zs) + (ds + ZeroDigits(k));
    }
    PaddedWhole(zs, ds, k);
  }

  lemma PaddedWhole(zs: nat, ds: Digits, k: nat)
    ensures Value(ZeroDigits(zs) + (ds + ZeroDigits(k)), 10) == Value(ds, 10) * Pow(10, k)
  {
    hide Value, Pow;
    var body := ds + ZeroDigits(k);
    var all := ZeroDigits(zs) + body;
    assert all[..zs] == ZeroDigits(zs) && all[zs..] == body;
    ValueWithoutZeros(all, zs, 10);
    ValueConcat(ds, ZeroDigits(k), 10);
    ValueZeros(ZeroDigits(k), 10);
  }

  /** However many of the trailing zeros count, the value is the same. */
  lemma PaddedValue(x: Syntax, zs: nat, ds: Digits, tz: nat, b: nat, bits: nat)
    requires x.Numeral? && Padded(x, zs, ds, tz) && 0 < |ds| <= 17 && ds[0] > 0
    requires ReadsBack(b, 10, Value(ds, 10), x.exp - (zs + |ds| - x.m.whole))
    requires CorrectlyRounded(Counted(x, 10), 10, bits)
    ensures bits == b
  {
    hide Value, IsNearest, Pow, Counted, CorrectlyRounded, ReadsBack, ZeroDigits, Whole, TimesTens, Padded,
      RadixExponent;
    var w, g := Value(ds, 10), x.exp - (zs + |ds| - x.m.whole);
    assert ReadsBack(b, 10, w, g);
    var k := CountedPadded(x, zs, ds, tz);
    var y := Counted(x, 10);
    CarryOver(b, w, Whole(y, 10), g, k);
    SameBits(y, b, bits, g - k);
  }

  lemma CarryOver(b: nat, w: nat, w2: nat, g: int, k: nat)
    requires TimesTens(w2, w, k) && ReadsBack(b, 10, w, g)
    ensures ReadsBack(b, 10, w2, g - k)
  {
    hide ReadsBack, Pow;
    SameReadsBack(b, 10, g - k, k, w);
  }

  lemma SameBits(y: Syntax, b: nat, bits: nat, g: int)
    requires y.Numeral? && !y.binary && RadixExponent(y) == g && CorrectlyRounded(y, 10, bits) &&
      ReadsBack(b, 10, Whole(y, 10), g)
    ensures bits == b
  {
    hide Value, IsNearest, Pow, GridNum, GridDen, Num, Den;
    GridIs(Whole(y, 10), 10, g);
    NearestOnly(GridNum(Whole(y, 10), 10, g), GridDen(10, g), b, bits);
  }

  lemma Tables10()
    ensures MaxDigits(10) == 38 && MaxExponent(10) == 309 && MinExponent(10) == -324 && RadixBits(10) == 0
    ensures OddPart(10) == 5 && TwoShift(10) == 1
  {
  }

  lemma FormIsPadded(f: Form, ds: Digits, exp: int, mode: ExpMode) returns (zs: nat, tz: nat)
    requires ds != [] && AllBelow(ds, 10) && f == LayoutForm(ds, exp, mode)
    ensures f.whole + f.frac == ZeroDigits(zs) + ds + ZeroDigits(tz) && f.exp - (zs + |ds| - |f.whole|) == exp - |ds|
  {
    zs, tz := 0, 0;
    if Exponential(exp, mode) {
      assert f.whole + f.frac == ZeroDigits(0) + ds + ZeroDigits(0);
    } else if exp <= 0 {
      zs := 1 - exp;
      assert ZeroDigits(zs) == [0] + ZeroDigits(0 - exp);
      assert f.whole + f.frac == ZeroDigits(zs) + ds + ZeroDigits(0);
    } else if |ds| <= exp {
      tz := exp - |ds|;
      assert f.whole + f.frac == ZeroDigits(0) + ds + ZeroDigits(tz);
    } else {
      assert f.whole + f.frac == ZeroDigits(0) + ds + ZeroDigits(0);
    }
  }

  ///// The three kinds of text

  /** What reading has to give for a text of the double `b`. */
  ghost predicate ReadsAs(neg: bool, text: string, b: nat) {
    var s := SignText(neg) + text;
    forall ok, neg2, bits, next :: Outcome(s, 10, ok, neg2, bits, next) ==>
      ok && neg2 == neg && bits == b && next == |s|
  }

  lemma FormLength(f: Form)
    requires ValidForm(f)
    ensures |f.whole + f.frac| <= |FormText(f)|
  {
  }

  /** A numeral made of a form with the right value is read as the double. */
  lemma FormReadsBack(neg: bool, b: nat, f: Form, zs: nat, ds: Digits, tz: nat)
    requires ValidForm(f) && |FormText(f)| <= 400 && -400 <= f.exp <= 400 && 0 < |ds| <= 17 && ds[0] > 0
    requires f.whole + f.frac == ZeroDigits(zs) + ds + ZeroDigits(tz)
    requires ReadsBack(b, 10, Value(ds, 10), f.exp - (zs + |ds| - |f.whole|))
    ensures ReadsAs(neg, FormText(f), b)
  {
    hide ReadsBack, Parse, Counted, FormText, CorrectlyRounded, Value, Outcome;
    ParseOfForm(neg, f);
    FormLength(f);
    var s := SignText(neg) + FormText(f);
    var x := Parse(s, 10);
    forall ok, neg2, bits, next | Outcome(s, 10, ok, neg2, bits, next)
      ensures ok && neg2 == neg && bits == b && next == |s|
    {
      OneReading(s, x, zs, ds, tz, b, ok, neg2, bits, next);
    }
  }

  ghost predicate InRange(x: Syntax) {
    x.Numeral? && !x.binary && x.m.whole <= |x.m.ds| <= 1000 && -1000 <= x.exp <= 1000
  }

  lemma OneReading(s: string, x: Syntax, zs: nat, ds: Digits, tz: nat, b: nat, ok: bool, neg: bool, bits: nat,
        next: nat)
    requires Outcome(s, 10, ok, neg, bits, next) && x == Parse(s, 10) && Padded(x, zs, ds, tz) && InRange(x)
    requires 0 < |ds| <= 17 && ds[0] > 0 && ReadsBack(b, 10, Value(ds, 10), x.exp - (zs + |ds| - x.m.whole))
    ensures ok && neg == x.neg && next == x.end && bits == b
  {
    hide ReadsBack, Parse, Counted, CorrectlyRounded, Value, Outcome;
    OutcomeOfNumeral(s, x, ok, neg, bits, next);
    PaddedValue(x, zs, ds, tz, b, bits);
  }

  lemma OutcomeOfNumeral(s: string, x: Syntax, ok: bool, neg: bool, bits: nat, next: nat)
    requires Outcome(s, 10, ok, neg, bits, next) && x == Parse(s, 10) && InRange(x)
    ensures ok && neg == x.neg && next == x.end && CorrectlyRounded(Counted(x, 10), 10, bits)
  {
    hide Parse, Counted, CorrectlyRounded, Whole, Decides;
    Tables10();
    KeptDecides(x, 10);
  }

  lemma DigitsReadBack(neg: bool, b: nat, mode: ExpMode, mant: nat, p: nat, exp: int, text: string)
    requires 0 < b < INFINITY && DigitsText(b, mode, mant, p, exp, text)
    ensures ReadsAs(neg, text, b)
  {
    hide ReadsBack, NoneShorter, Layout, FormText, LayoutForm, DigitsOf, ReadsAs;
    var ds := DigitsOf(mant, p, 10);
    ValueOfDigits(mant, p, 10);
    FirstDigitNotZero(mant, p, 10);
    LayoutIsForm(ds, exp, mode);
    ShortText(ds, exp, mode);
    var f := LayoutForm(ds, exp, mode);
    var zs, tz := FormIsPadded(f, ds, exp, mode);
    FormReadsBack(neg, b, f, zs, ds, tz);
  }

  lemma ShortText(ds: Digits, exp: int, mode: ExpMode)
    requires 0 < |ds| <= 17 && AllBelow(ds, 10) && -330 <= exp <= 330
    ensures |Layout(ds, exp, mode)| <= 400
    ensures var f := LayoutForm(ds, exp, mode); -400 <= f.exp <= 400
  {
    AllSmall(ds, 10);
    ShortExponent(exp - 1);
  }

  lemma IntegerReadsBack(neg: bool, b: nat, n: nat)
    requires 0 < b < INFINITY && IsInteger(b, n)
    ensures ReadsAs(neg, Text(AllDigits(n, 10)), b)
  {
    hide ReadsBack, FormText, AllDigits, Units, Pow, Value, ReadsAs;
    var ds := AllDigits(n, 10);
    SomeDigits(n);
    IntegerDigits(n);
    AllDigitsLead(n);
    IntegerIsNearest(b, n);
    var f := Form(ds, false, [], false, 0);
    PlainForm(f);
    assert f.whole + f.frac == ZeroDigits(0) + ds + ZeroDigits(0);
    FormReadsBack(neg, b, f, 0, ds, 0);
  }

  lemma PlainForm(f: Form)
    requires ValidForm(f) && !f.dot && !f.scaled
    ensures FormText(f) == Text(f.whole)
  {
  }

  lemma AllDigitsLead(n: nat)
    requires 0 < n < TWO53
    ensures 0 < |AllDigits(n, 10)| <= 17 && AllDigits(n, 10)[0] > 0
  {
    assert Pow(10, 8) == 1_0000_0000;
    hide Pow;
    PowAdd(10, 8, 8);
    CountIs(n, 10);
    var k := CountDigits(n, 10);
    if k > 17 {
      PowMono(10, 16, k - 1);
    }
    FirstDigitNotZero(n, k, 10);
  }

  lemma IntegerIsNearest(b: nat, n: nat)
    requires 0 < b < INFINITY && IsInteger(b, n)
    ensures ReadsBack(b, 10, n, 0)
  {
    hide IsNearest, Units, Pow;
    NearestToItself(b);
    PowPos(2, 1074);
    PowSmall(10);
    GridIs(n, 10, 0);
    SameNearest(Units(b), Pow2(1074), GridNum(n, 10, 0), GridDen(10, 0), b);
  }

  lemma ZeroReadsBack(neg: bool, mode: ExpMode)
    ensures ReadsAs(neg, Layout([0], 1, mode), 0)
  {
    hide IsNearest, Parse, Counted, FormText, AllDigits, Pow, Layout, LayoutForm;
    LayoutIsForm([0], 1, mode);
    var f := LayoutForm([0], 1, mode);
    ParseOfForm(neg, f);
    ZeroForm(mode);
    assert [0] + [] == [0];
    assert Value([0], 10) == 0 by { ValueZeros([0], 10); }
  }

  lemma ZeroForm(mode: ExpMode)
    ensures var f := LayoutForm([0], 1, mode); f.whole + f.frac == [0]
  {
  }

  lemma InfinityReadsBack(neg: bool)
    ensures ReadsAs(neg, "Infinity", INFINITY)
  {
    var s := SignText(neg) + "Infinity";
    var p := |SignText(neg)|;
    assert s[p..p + 8] == "Infinity";
    assert AfterSign(s, 0) == p;
    assert At(s, p) == 'I';
  }

  /** Whatever free format prints for a double is read as that double, to the end of the text. */
  lemma FreeTextReadsBack(neg: bool, b: nat, mode: ExpMode, text: string)
    requires b <= INFINITY && FreeText(b, mode, text)
    ensures ReadsAs(neg, text, b)
  {
    hide ReadsAs, DigitsText, AllDigits, Layout;
    if b == INFINITY {
      InfinityReadsBack(neg);
    } else if b == 0 {
      ZeroReadsBack(neg, mode);
    } else if mode != ExpEnabled && ShownAsInteger(b) {
      var n: nat :| IsInteger(b, n) && text == Text(AllDigits(n, 10));
      IntegerReadsBack(neg, b, n);
    } else {
      var mant: nat, p: nat, exp: int :| DigitsText(b, mode, mant, p, exp, text);
      DigitsReadBack(neg, b, mode, mant, p, exp, text);
    }
  }

  /** Prints a double and reads it again: all of the text is read, as the same sign and the same bits, for every finite
      or infinite double. */
  method PrintAndRead(neg: bool, b: nat, mode: ExpMode) returns (len: nat, ok: bool, next: nat, neg2: bool, bits: nat)
    requires b <= INFINITY
    ensures ok && next == len && neg2 == neg && bits == b
  {
    hide FreeText, Outcome;
    var buf := new char[MAX_TEXT + 2](_ => ' ');
    len := DToString(buf, neg, b, mode, true);
    ghost var text :| FreeText(b, mode, text) && buf[..len] == SignText(neg) + text;
    FreeTextReadsBack(neg, b, mode, text);
    ok, neg2, bits, next := StringToD(buf[..len], 10);
  }
}
