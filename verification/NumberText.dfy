/** The text of a number as section 6.1.6.1.20 of ECMA-262 gives it, and that `js_dtoa` prints it. */
module NumberText {
  import opened Powers
  import opened MulPow
  import opened Doubles
  import opened ClosestDigits
  import opened Numerals
  import opened DigitOutput
  import opened AtoD
  import opened DtoA
  import opened DoubleRoundTrip

  ///// Number::toString

  const DECIMALS := "0123456789"

  /** The decimal digits of `n`, without leading zeros. */
  function DecimalText(n: nat): (s: string)
    ensures |s| > 0
  {
    if n < 10 then [DECIMALS[n]] else DecimalText(n / 10) + [DECIMALS[n % 10]]
  }

  function Repeated(c: char, n: nat): (s: string)
    ensures |s| == n
  {
    if n == 0 then "" else Repeated(c, n - 1) + [c]
  }

  /** With the digits `s` of a number times 10^(n - |s|): a dot after the first digit, and n - 1 as an exponent. */
  function Scientific(s: string, n: int): string
    requires |s| > 0
  {
    (if |s| == 1 then s else s[..1] + "." + s[1..]) +
    (if n >= 1 then "e+" + DecimalText(n - 1) else "e-" + DecimalText(1 - n))
  }

  /** Zeros in front, zeros behind, or a dot between the digits. */
  function Positional(s: string, n: int): string
    requires |s| > 0
  {
    if n <= 0 then "0." + Repeated('0', 0 - n) + s
    else if n < |s| then s[..n] + "." + s[n..]
    else s + Repeated('0', n - |s|)
  }

  function NumberToString(s: string, n: int): string
    requires |s| > 0
  {
    if -6 < n <= 21 then Positional(s, n) else Scientific(s, n)
  }

  ///// The digits

  lemma {:induction false} DecimalIs(m: nat, p: nat)
    requires p > 0 && m < Pow(10, p) && (p > 1 ==> Pow(10, p - 1) <= m)
    ensures AllBelow(DigitsOf(m, p, 10), 36) && DecimalText(m) == Text(DigitsOf(m, p, 10))
    decreases p
  {
    hide Pow;
    AllSmall(DigitsOf(m, p, 10), 10);
    if p == 1 {
      PowSmall(10);
      OneDigit(m, 10);
      DivModIs(m, 10, 0, m);
      OneChar(m);
      assert Text([m]) == [DigitChar(m)];
    } else {
      PowAdd(10, 1, p - 1);
      PowAdd(10, 1, p - 2);
      PowSmall(10);
      PowPos(10, p - 2);
      DivModOf(m, 10);
      DecimalIs(m / 10, p - 1);
      OneChar(m % 10);
      TextConcat(DigitsOf(m / 10, p - 1, 10), [m % 10]);
      assert Text([m % 10]) == [DigitChar(m % 10)];
    }
  }

  lemma OneChar(d: nat)
    requires d < 10
    ensures DigitChar(d) == DECIMALS[d]
  {
  }

  lemma AllDigitsText(n: nat)
    ensures Text(AllDigits(n, 10)) == DecimalText(n)
  {
    hide Pow, DigitsOf, DecimalText;
    CountIs(n, 10);
    DecimalIs(n, CountDigits(n, 10));
  }

  lemma {:induction false} RepeatedZeros(n: nat)
    ensures Repeated('0', n) == Zeros(n)
  {
    if n > 0 {
      RepeatedZeros(n - 1);
    }
  }

  /** The text that a mode asks for. */
  function TextFor(mode: ExpMode, s: string, n: int): string
    requires |s| > 0
  {
    match mode
    case ExpAuto => NumberToString(s, n)
    case ExpEnabled => Scientific(s, n)
    case ExpDisabled => Positional(s, n)
  }

  lemma LayoutIsText(mant: nat, p: nat, exp: int, mode: ExpMode)
    requires p > 0 && Pow(10, p - 1) <= mant < Pow(10, p)
    ensures Layout(DigitsOf(mant, p, 10), exp, mode) == TextFor(mode, DecimalText(mant), exp)
  {
    hide Pow, DigitsOf, DecimalText, Repeated;
    DecimalIs(mant, p);
    var ds := DigitsOf(mant, p, 10);
    AllSmall(ds, 10);
    if Exponential(exp, mode) {
      AllDigitsText(Magnitude(exp - 1));
      ScientificIs(Text(ds), exp);
    } else {
      RepeatedZeros(if exp <= 0 then 0 - exp else if |ds| <= exp then exp - |ds| else 0);
    }
  }

  lemma ScientificIs(s: string, exp: int)
    requires |s| > 0 && Text(AllDigits(Magnitude(exp - 1), 10)) == DecimalText(Magnitude(exp - 1))
    ensures WithDot(s, 1) + ExponentText(exp - 1) == Scientific(s, exp)
  {
    hide DecimalText, AllDigits, Text;
    var t := DecimalText(Magnitude(exp - 1));
    if exp >= 1 {
      assert "e" + "+" + t == "e+" + t;
    } else {
      assert "e" + "-" + t == "e-" + t;
    }
  }

  ///// What free format prints

  /** `text` shows the integer `m`, which does not end in zero, times a power of ten that is read as the double. */
  ghost predicate Shows(b: nat, mode: ExpMode, m: nat, n: int, text: string) {
    m % 10 != 0 && ReadsBack(b, 10, m, n - |DecimalText(m)|) && text == TextFor(mode, DecimalText(m), n)
  }

  lemma {:induction false} WithoutZeros(n: nat) returns (m: nat, j: nat)
    requires n > 0
    ensures m % 10 != 0 && n == m * Pow(10, j) && DecimalText(n) == DecimalText(m) + Repeated('0', j)
    decreases n
  {
    hide Pow;
    PowSmall(10);
    if n % 10 != 0 {
      m, j := n, 0;
    } else {
      var k;
      m, k := WithoutZeros(n / 10);
      j := k + 1;
      PowAdd(10, k, 1);
      MulAssoc(m, Pow(10, k), 10);
      assert n == (n / 10) * 10;
      assert DecimalText(m) + (Repeated('0', k) + ['0']) == (DecimalText(m) + Repeated('0', k)) + ['0'];
    }
  }

  lemma IntegerShows(b: nat, mode: ExpMode, n: nat) returns (m: nat, e: int)
    requires 0 < b < INFINITY && mode != ExpEnabled && IsInteger(b, n)
    ensures Shows(b, mode, m, e, Text(AllDigits(n, 10)))
  {
    hide Pow, Units, ReadsBack, DecimalText, AllDigits, Repeated;
    var j;
    m, j := WithoutZeros(n);
    var s := DecimalText(m);
    e := |s| + j;
    AllDigitsText(n);
    AllDigitsLead(n);
    IntegerIsNearest(b, n);
    SameReadsBack(b, 10, 0, j, m);
  }

  /** Every finite double but zero: the digits that free format prints, where its dot or its exponent stand. */
  lemma FreeTextShows(b: nat, mode: ExpMode, text: string)
    requires 0 < b < INFINITY && FreeText(b, mode, text)
    ensures exists m: nat, n: int :: Shows(b, mode, m, n, text)
  {
    hide Pow, Units, DecimalText, DigitsOf, Layout, ReadsBack, NoneCloser, AllDigits, TextFor;
    if mode != ExpEnabled && ShownAsInteger(b) {
      var k: nat :| IsInteger(b, k) && text == Text(AllDigits(k, 10));
      var m, e := IntegerShows(b, mode, k);
    } else {
      var mant: nat, p: nat, exp: int :| DigitsText(b, mode, mant, p, exp, text);
      LayoutIsText(mant, p, exp, mode);
      DecimalIs(mant, p);
      assert Shows(b, mode, mant, exp, text);
    }
  }

  lemma ZeroText(mode: ExpMode, text: string)
    requires FreeText(0, mode, text)
    ensures text == if mode == ExpEnabled then "0e+0" else "0"
  {
    hide AllDigits, Text, DecimalText;
    AllSmall([0], 10);
    AllDigitsText(0);
    OneText();
  }

  lemma OneText()
    ensures Text([0]) == "0" && DecimalText(0) == "0"
  {
  }

  ///// When an exponent is printed

  /** The number that a numeral stands for is a fraction: numerator and denominator. */
  ghost function Numerator(x: Syntax): nat
    requires x.Numeral?
  {
    Num(Whole(x, 10), TwoPower(x), 10, RadixExponent(x))
  }

  ghost function Denominator(x: Syntax): nat
    requires x.Numeral?
  {
    Den(TwoPower(x), 10, RadixExponent(x))
  }

  /** At least 10^21, or not zero and below 10^-6. */
  ghost predicate NeedsExponent(x: Syntax)
    requires x.Numeral?
  {
    Numerator(x) >= Pow(10, 21) * Denominator(x) || (0 < Numerator(x) && Numerator(x) * Pow(10, 6) < Denominator(x))
  }

  /** A number of `a` digits times 10^t. */
  lemma MagnitudeOf(w: nat, a: nat, t: int)
    requires a > 0 && Pow(10, a - 1) <= w < Pow(10, a)
    ensures Num(w, 0, 10, t) > 0
    ensures Num(w, 0, 10, t) >= Pow(10, 21) * Den(0, 10, t) <==> a + t > 21
    ensures Num(w, 0, 10, t) * Pow(10, 6) < Den(0, 10, t) <==> a + t <= -6
  {
    hide Pow;
    PowSmall(2);
    PowSmall(10);
    var u, d := Pow(10, Pos(t)), Pow(10, Neg(t));
    PowPos(10, a - 1);
    PowPos(10, Pos(t));
    PowPos(10, 6);
    var n := Num(w, 0, 10, t);
    assert n == w * u && Den(0, 10, t) == d;
    MulPos(w, u);
    MulMono(Pow(10, a - 1), w, u);
    MulStrict(w, Pow(10, a), u);
    PowAdd(10, a - 1, Pos(t));
    PowAdd(10, a, Pos(t));
    PowAdd(10, 21, Neg(t));
    if a + t > 21 {
      PowMono(10, 21 + Neg(t), a - 1 + Pos(t));
    } else {
      PowMono(10, a + Pos(t), 21 + Neg(t));
    }
    PowAdd(10, a - 1 + Pos(t), 6);
    PowAdd(10, a + Pos(t), 6);
    MulMono(Pow(10, a - 1 + Pos(t)), n, Pow(10, 6));
    MulStrict(n, Pow(10, a + Pos(t)), Pow(10, 6));
    if a + t <= -6 {
      PowMono(10, a + Pos(t) + 6, Neg(t));
    } else {
      PowMono(10, Neg(t), a - 1 + Pos(t) + 6);
    }
  }

  /** A form is read as a numeral with its digits, and has an exponent where it is written with one. */
  lemma FormExponent(f: Form, w: nat, a: nat, t: int)
    requires ValidForm(f) && Value(f.whole + f.frac, 10) == w && f.exp - |f.frac| == t
    requires w == 0 || (a > 0 && Pow(10, a - 1) <= w < Pow(10, a))
    ensures var x := Parse(FormText(f), 10);
      x.Numeral? && x.end == |FormText(f)| && (NeedsExponent(x) <==> w > 0 && (a + t > 21 || a + t <= -6))
    ensures 'e' in FormText(f) <==> f.scaled
  {
    hide Pow, Value, Parse, Num, Den, FormText;
    ParseOfForm(false, f);
    assert SignText(false) + FormText(f) == FormText(f);
    var x := Parse(FormText(f), 10);
    assert Whole(x, 10) == w && TwoPower(x) == 0 && RadixExponent(x) == t;
    if w > 0 {
      MagnitudeOf(w, a, t);
    } else {
      NoMagnitude(t);
    }
    WhereTheE(f);
  }

  lemma NoMagnitude(t: int)
    ensures Num(0, 0, 10, t) == 0 && Pow(10, 21) * Den(0, 10, t) > 0
  {
    hide Pow;
    DenPos(0, 10, t);
    PowPos(10, 21);
    MulPos(Pow(10, 21), Den(0, 10, t));
    assert 0 * Pow2(Pos(0)) == 0 && 0 * Pow(10, Pos(t)) == 0;
  }

  /** Digits and dots are not the letter. */
  lemma WhereTheE(f: Form)
    requires ValidForm(f)
    ensures 'e' in FormText(f) <==> f.scaled
  {
    hide ExponentText, AllDigits;
    var s := FormMantissa(f);
    forall i | 0 <= i < |s|
      ensures s[i] != 'e'
    {
      if i < |f.whole| {
        DigitOfChar(f.whole[i]);
      } else if i > |f.whole| {
        DigitOfChar(f.frac[i - |f.whole| - 1]);
      }
    }
    if f.scaled {
      StartsWithE(f.exp);
      assert FormText(f)[|s|] == 'e';
    }
  }

  lemma StartsWithE(x: int)
    ensures |ExponentText(x)| > 0 && ExponentText(x)[0] == 'e'
  {
  }

  /** Without a mode, the letter stands in the text if and only if the number that is read from it needs an exponent. */
  lemma ExponentIff(b: nat, text: string)
    requires b < INFINITY && FreeText(b, ExpAuto, text)
    ensures var x := Parse(text, 10);
      x.Numeral? && x.end == |text| && ('e' in text <==> NeedsExponent(x))
  {
    hide Pow, Value, Parse, Units, DigitsOf, Layout, LayoutForm, FormText, AllDigits, NeedsExponent, NoneCloser,
      ReadsBack;
    if b == 0 {
      ZeroExponent();
    } else if ShownAsInteger(b) {
      var n: nat :| IsInteger(b, n) && text == Text(AllDigits(n, 10));
      IntegerExponent(n);
    } else {
      var mant: nat, p: nat, exp: int :| DigitsText(b, ExpAuto, mant, p, exp, text);
      DigitsExponent(mant, p, exp);
    }
  }

  lemma ZeroExponent()
    ensures var text := Layout([0], 1, ExpAuto); var x := Parse(text, 10);
      x.Numeral? && x.end == |text| && !NeedsExponent(x) && 'e' !in text
  {
    LayoutIsForm([0], 1, ExpAuto);
    ZeroForm(ExpAuto);
    var f := LayoutForm([0], 1, ExpAuto);
    assert !f.scaled;
    assert Value([0], 10) == 0 by { ValueZeros([0], 10); }
    hide Pow, Value, Parse, FormText, Layout, LayoutForm, NeedsExponent;
    FormExponent(f, 0, 0, f.exp - |f.frac|);
  }

  lemma IntegerExponent(n: nat)
    requires 0 < n < TWO53
    ensures var text := Text(AllDigits(n, 10)); var x := Parse(text, 10);
      x.Numeral? && x.end == |text| && !NeedsExponent(x) && 'e' !in text
  {
    hide Pow, Value, Parse, AllDigits, NeedsExponent, FormText;
    var ds := AllDigits(n, 10);
    SomeDigits(n);
    AllDigitsLead(n);
    CountIs(n, 10);
    IntegerDigits(n);
    var f := Form(ds, false, [], false, 0);
    PlainForm(f);
    assert ds + [] == ds;
    FormExponent(f, n, |ds|, 0);
  }

  lemma DigitsExponent(mant: nat, p: nat, exp: int)
    requires p > 0 && Pow(10, p - 1) <= mant < Pow(10, p)
    ensures var text := Layout(DigitsOf(mant, p, 10), exp, ExpAuto); var x := Parse(text, 10);
      x.Numeral? && x.end == |text| && ('e' in text <==> NeedsExponent(x))
  {
    hide Pow, Value, Parse, DigitsOf, NeedsExponent, FormText;
    var ds := DigitsOf(mant, p, 10);
    ValueOfDigits(mant, p, 10);
    LayoutIsForm(ds, exp, ExpAuto);
    var f := LayoutForm(ds, exp, ExpAuto);
    var zs, tz := FormIsPadded(f, ds, exp, ExpAuto);
    assert ZeroDigits(zs) + ds + ZeroDigits(tz) == ZeroDigits(zs) + (ds + ZeroDigits(tz));
    PaddedWhole(zs, ds, tz);
    var z := Pow(10, tz);
    PowPos(10, tz);
    MulMono(Pow(10, p - 1), mant, z);
    MulStrict(mant, Pow(10, p), z);
    PowAdd(10, p - 1, tz);
    PowAdd(10, p, tz);
    PowPos(10, p - 1);
    MulPos(mant, z);
    FormExponent(f, mant * z, p + tz, exp - p - tz);
  }

  /** The letter is followed by a sign. */
  lemma SignAfterE(b: nat, mode: ExpMode, text: string, i: nat)
    requires 0 < b < INFINITY && FreeText(b, mode, text) && i < |text| && text[i] == 'e'
    ensures i + 1 < |text| && (text[i + 1] == '+' || text[i + 1] == '-')
  {
    hide FreeText, Shows;
    FreeTextShows(b, mode, text);
    var m: nat, n: int :| Shows(b, mode, m, n, text);
    ShownSign(b, mode, m, n, text, i);
  }

  lemma ShownSign(b: nat, mode: ExpMode, m: nat, n: int, text: string, i: nat)
    requires Shows(b, mode, m, n, text) && i < |text| && text[i] == 'e'
    ensures i + 1 < |text| && (text[i + 1] == '+' || text[i + 1] == '-')
  {
    hide DecimalText, ReadsBack, Repeated;
    var s := DecimalText(m);
    OnlyDecimals(m);
    OnlyDecimals(if n >= 1 then n - 1 else 1 - n);
    OnlyZeros(if n <= 0 then 0 - n else if n < |s| then 0 else n - |s|);
  }

  lemma {:induction false} OnlyDecimals(n: nat)
    ensures 'e' !in DecimalText(n)
  {
    if n >= 10 {
      OnlyDecimals(n / 10);
    }
  }

  lemma {:induction false} OnlyZeros(n: nat)
    ensures 'e' !in Repeated('0', n)
  {
    if n > 0 {
      OnlyZeros(n - 1);
    }
  }
}
