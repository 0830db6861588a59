/** Printing a double in radix 10 in free format (`js_dtoa` in dtoa.c). */
module DtoA {
  import opened Powers
  import opened Limbs
  import opened Bignum
  import opened Doubles
  import opened RoundToDouble
  import opened NearestDoubles
  import opened FreeFormat
  import opened ClosestDigits
  import opened LopsidedDoubles
  import opened RadixTables
  import opened RadixEstimate
  import opened ShortestSearch
  import opened Numerals
  import opened DigitOutput

  ///// Layout

  datatype ExpMode = ExpAuto | ExpEnabled | ExpDisabled

  const MAX_EXPONENT_SHOWN := 21

  predicate Exponential(exp: int, mode: ExpMode) {
    mode == ExpEnabled || (mode == ExpAuto && (exp <= -6 || exp > MAX_EXPONENT_SHOWN))
  }

  function Zeros(n: nat): (s: string)
    ensures |s| == n
    ensures forall i :: 0 <= i < n ==> s[i] == '0'
  {
    seq(n, i requires 0 <= i < n => '0')
  }

  function Magnitude(x: int): nat {
    if x < 0 then 0 - x else x
  }

  ghost function ExponentText(x: int): string {
    "e" + (if x < 0 then "-" else "+") + Text(AllDigits(Magnitude(x), 10))
  }

  /** The digits, read as 0.ds * 10^exp. */
  ghost function Layout(ds: Digits, exp: int, mode: ExpMode): string
    requires ds != [] && AllBelow(ds, 10)
  {
    AllSmall(ds, 10);
    if Exponential(exp, mode) then WithDot(Text(ds), 1) + ExponentText(exp - 1)
    else if exp <= 0 then "0." + Zeros(0 - exp) + Text(ds)
    else if |ds| <= exp then Text(ds) + Zeros(exp - |ds|)
    else WithDot(Text(ds), exp)
  }

  ghost function SignText(neg: bool): string {
    if neg then "-" else ""
  }

  method PutZeros(buf: array<char>, at: nat, n: nat)
    requires at + n <= buf.Length
    modifies buf
    ensures Written(old(buf[..]), buf[..], at, Zeros(n))
  {
    hide Written;
    ghost var was := buf[..];
    WrittenNothing(was, at);
    assert Zeros(0) == "";
    for i := 0 to n
      invariant Written(was, buf[..], at, Zeros(i))
    {
      ghost var before := buf[..];
      PutChar(buf, at + i, '0');
      WrittenThen(was, before, buf[..], at, Zeros(i), "0");
      assert Zeros(i + 1) == Zeros(i) + "0";
    }
  }

  /** The exponent, with its sign. */
  method PutExponent(buf: array<char>, at: nat, x: int) returns (len: nat)
    requires -1000 < x < 1000 && at + 12 <= buf.Length
    modifies buf
    ensures len == |ExponentText(x)| && Written(old(buf[..]), buf[..], at, ExponentText(x))
  {
    hide Written, AllDigits, CountDigits;
    ghost var was := buf[..];
    PutChar(buf, at, 'e');
    ghost var b1 := buf[..];
    PutChar(buf, at + 1, if x < 0 then '-' else '+');
    ghost var b2, sign := buf[..], if x < 0 then "-" else "+";
    WrittenThen(was, b1, b2, at, "e", sign);
    len := PutU32(buf, at + 2, Magnitude(x));
    WrittenThen(was, b2, buf[..], at, "e" + sign, Text(AllDigits(Magnitude(x), 10)));
    DigitCount(Magnitude(x));
    len := len + 2;
  }

  lemma DigitCount(n: nat)
    ensures |AllDigits(n, 10)| == CountDigits(n, 10)
  {
  }

  const MAX_TEXT: nat := 360

  /** The digits of a number, laid out. */
  method PutLayout(buf: array<char>, at: nat, a: Mpb, p: nat, exp: int, mode: ExpMode) returns (len: nat)
    requires a.Valid() && 0 < p <= MAX_DIGITS && -330 <= exp <= 330 && at + MAX_TEXT <= buf.Length
    modifies buf, a, a.tab
    ensures AllBelow(DigitsOf(old(a.Value()), p, 10), 10)
    ensures len == |Layout(DigitsOf(old(a.Value()), p, 10), exp, mode)| <= MAX_TEXT
    ensures Written(old(buf[..]), buf[..], at, Layout(DigitsOf(old(a.Value()), p, 10), exp, mode))
  {
    hide Written, Val, DigitsOf, ExponentText;
    ghost var was, ds := buf[..], DigitsOf(a.Value(), p, 10);
    AllSmall(ds, 10);
    if Exponential(exp, mode) {
      len := PutExponential(buf, at, a, p, exp);
    } else if exp <= 0 {
      len := PutFraction(buf, at, a, p, exp);
    } else {
      len := OutputDigits(buf, at, a, 10, p, if p < exp then p else exp);
      if exp - p > 0 {
        ghost var b1 := buf[..];
        PutZeros(buf, at + len, exp - p);
        WrittenThen(was, b1, buf[..], at, Text(ds), Zeros(exp - p));
        len := len + (exp - p);
      } else if p == exp {
        assert Text(ds) + Zeros(0) == Text(ds);
      }
    }
  }

  /** One digit, a dot, the other digits, and the exponent. */
  method PutExponential(buf: array<char>, at: nat, a: Mpb, p: nat, exp: int) returns (len: nat)
    requires a.Valid() && 0 < p <= MAX_DIGITS && -330 <= exp <= 330 && at + MAX_TEXT <= buf.Length
    modifies buf, a, a.tab
    ensures AllBelow(DigitsOf(old(a.Value()), p, 10), 36)
    ensures len == |WithDot(Text(DigitsOf(old(a.Value()), p, 10)), 1) + ExponentText(exp - 1)| <= 60
    ensures var text := WithDot(Text(DigitsOf(old(a.Value()), p, 10)), 1) + ExponentText(exp - 1);
      Written(old(buf[..]), buf[..], at, text)
  {
    hide Written, Val, DigitsOf, ExponentText;
    ghost var was, ds := buf[..], DigitsOf(a.Value(), p, 10);
    len := OutputDigits(buf, at, a, 10, p, 1);
    ghost var b1, head := buf[..], WithDot(Text(ds), 1);
    var more := PutExponent(buf, at + len, exp - 1);
    WrittenThen(was, b1, buf[..], at, head, ExponentText(exp - 1));
    ShortExponent(exp - 1);
    len := len + more;
  }

  /** A zero, a dot, more zeros, and the digits. */
  method PutFraction(buf: array<char>, at: nat, a: Mpb, p: nat, exp: int) returns (len: nat)
    requires a.Valid() && 0 < p <= MAX_DIGITS && -330 <= exp <= 0 && at + MAX_TEXT <= buf.Length
    modifies buf, a, a.tab
    ensures AllBelow(DigitsOf(old(a.Value()), p, 10), 36)
    ensures len == |"0." + Zeros(0 - exp) + Text(DigitsOf(old(a.Value()), p, 10))| <= MAX_TEXT
    ensures Written(old(buf[..]), buf[..], at, "0." + Zeros(0 - exp) + Text(DigitsOf(old(a.Value()), p, 10)))
  {
    hide Written, Val, DigitsOf;
    ghost var was, ds := buf[..], DigitsOf(a.Value(), p, 10);
    PutText(buf, at, "0.");
    ghost var b1 := buf[..];
    PutZeros(buf, at + 2, 0 - exp);
    ghost var b2, head := buf[..], "0." + Zeros(0 - exp);
    WrittenThen(was, b1, b2, at, "0.", Zeros(0 - exp));
    len := OutputDigits(buf, at + 2 - exp, a, 10, p, p);
    WrittenThen(was, b2, buf[..], at, head, Text(ds));
    len := 2 - exp + len;
  }

  lemma ShortExponent(x: int)
    requires -1000 < x < 1000
    ensures |ExponentText(x)| <= 12
  {
    AtMostTen(Magnitude(x));
  }

  ///// The text of a double

  /** The digits that the search finds are printed; integers below 2^53 are printed as they are, unless an exponent is
      wanted. */
  ghost predicate FreeText(b: nat, mode: ExpMode, text: string) {
    if b == INFINITY then text == "Infinity"
    else if b == 0 then text == Layout([0], 1, mode)
    else if b > INFINITY then false
    else if mode != ExpEnabled && ShownAsInteger(b) then IntegerText(b, text)
    else exists mant: nat, p: nat, exp: int :: DigitsText(b, mode, mant, p, exp, text)
  }

  ghost predicate IntegerText(b: nat, text: string) {
    exists n: nat :: IsInteger(b, n) && text == Text(AllDigits(n, 10))
  }

  ghost predicate ShownAsInteger(b: nat) {
    exists n: nat :: IsInteger(b, n)
  }

  /** The double is the integer. */
  ghost predicate IsInteger(b: nat, n: nat) {
    0 < n < TWO53 && Units(b) == n * Pow2(1074)
  }

  ghost predicate DigitsText(b: nat, mode: ExpMode, mant: nat, p: nat, exp: int, text: string) {
    -330 <= exp <= 330 && Found(b, 10, MAX_DIGITS, mant, p, exp) && text == Layout(DigitsOf(mant, p, 10), exp, mode)
  }

  /** The significand of an integer has zeros at its low end. */
  lemma IntegerFits(b: nat, m: nat, e: int)
    requires Decoded(b, m, e) && 1 <= e <= 53 && m % Pow2Of(53 - e) == 0
    ensures var n := m / Pow2Of(53 - e); n < TWO53 && IsInteger(b, n) && ShownAsInteger(b)
  {
    hide Pow, Units;
    var j, n := Pow2Of(53 - e), m / Pow2Of(53 - e);
    DivModOf(m, j);
    DecodedUnits(b, m, e);
    PowSmall(2);
    assert Units(b) * 1 == Units(b);
    PowAdd(2, 53 - e, e + 1021);
    MulAssoc(n, j, Pow2(e + 1021));
    assert n > 0 by {
      if n <= 0 {
        MulMono(n, 0, j);
      }
    }
    MulMono(1, j, n);
  }

  /** No other double is an integer below 2^53. */
  lemma OnlyIntegersFit(b: nat, m: nat, e: int)
    requires Decoded(b, m, e) && ShownAsInteger(b)
    ensures 1 <= e <= 53 && m % Pow2Of(53 - e) == 0
  {
    hide Pow, Units;
    var n: nat :| IsInteger(b, n);
    var one := Pow2(1074);
    DecodedUnits(b, m, e);
    TwoPowers();
    PowPos(2, 1074);
    if e < 1 {
      PowMono(2, e + 1074, 1074);
      MulMono(1, n, one);
      assert false;
    }
    if e > 53 {
      PowAdd(2, 53, 1074);
      PowMono(2, 1127, e + 1073);
      MulStrict(n, TWO53, one);
      assert false;
    }
    var j, k := Pow2Of(53 - e), Pow2(e + 1021);
    PowSmall(2);
    PowAdd(2, 53 - e, e + 1021);
    PowPos(2, e + 1021);
    assert Units(b) * 1 == Units(b);
    MulAssoc(n, j, k);
    SameAfterCancel(m, n * j, k);
    MulDiv(n, j);
  }

  /** In radix 10 the search starts with 17 digits. */
  const MAX_DIGITS: nat := 17

  lemma DecimalRadix()
    ensures MostDigits(10) == MAX_DIGITS && 2 * Pow(10, MAX_DIGITS) < BASE * BASE
  {
    hide Pow;
    MostDigitsFit(10);
  }

  /** The decimal digits of a double: what the search promises, within the range of the layouts. */
  method DecimalDigits(tmp: Mpb, m: nat, e: int, ghost b: nat) returns (mant: nat, p: nat, exp: int)
    requires tmp.Valid() && tmp.tab.Length == BUFFER_LIMBS && Decoded(b, m, e)
    modifies tmp, tmp.tab
    ensures tmp.Valid() && -330 <= exp <= 330 && Found(b, 10, MAX_DIGITS, mant, p, exp)
    ensures NoneShorter(b, 10, p - 1) <==> ClosestDecidesBelow(b, 10, MAX_DIGITS)
    ensures !Lopsided(b) ==> NoneShorter(b, 10, p - 1)
  {
    hide Pow, MulLog2Radix, Units, Val, NoneShorter, Found, ClosestDecidesBelow, MostDigits;
    DecimalRadix();
    mant, p, exp := Search(tmp, m, e, 10, b);
    EstimateBounds(b, m, e);
  }

  lemma EstimateBounds(b: nat, m: nat, e: int)
    requires Decoded(b, m, e)
    ensures -324 <= MulLog2Radix(e - 1, 10) <= 308
  {
    hide Pow;
    assert LogFactor(10) == 0x4d104d;
    assert -1074 <= e - 1 <= 1023;
  }

  /** Prints a double in free format: the length of the text, which starts with a minus sign for a negative number. */
  method DToString(buf: array<char>, neg: bool, b: nat, mode: ExpMode, minusZero: bool) returns (len: nat)
    requires b <= INFINITY && buf.Length >= MAX_TEXT + 2
    modifies buf
    ensures len < buf.Length && buf[len] == '\0'
    ensures exists text :: FreeText(b, mode, text) && buf[..len] == SignText(neg && (b != 0 || minusZero)) + text
  {
    hide Written, FreeText, Val, Pow, Layout, DigitsText, IntegerText, AllDigits, Decoded, ReadsBack, NoneShorter;
    ghost var was := buf[..];
    ghost var sign := SignText(neg && (b != 0 || minusZero));
    WrittenNothing(was, 0);
    var q := 0;
    if neg && (b != 0 || minusZero) {
      PutChar(buf, 0, '-');
      q := 1;
    }
    ghost var signed := buf[..];
    ghost var text;
    text, len := PutMagnitude(buf, q, b, mode);
    WrittenThen(was, signed, buf[..], 0, sign, text);
    len := q + len;
    ghost var done := buf[..];
    PutChar(buf, len, '\0');
    Terminated(was, done, buf[..], sign + text, len);
  }

  lemma Terminated(was: seq<char>, done: seq<char>, now: seq<char>, text: string, len: nat)
    requires Written(was, done, 0, text) && Written(done, now, len, "\0") && len == |text|
    ensures now[..len] == text && len < |now| && now[len] == '\0'
  {
    WrittenAt(was, done, 0, text);
    WrittenAt(done, now, len, "\0");
    assert now[..len] == done[..len] == done[0..0 + |text|];
    assert now[len] == now[len..len + 1][0];
  }

  /** Prints the magnitude. */
  method PutMagnitude(buf: array<char>, at: nat, b: nat, mode: ExpMode) returns (ghost text: string, len: nat)
    requires b <= INFINITY && at + MAX_TEXT <= buf.Length
    modifies buf
    ensures FreeText(b, mode, text) && len == |text| <= MAX_TEXT && Written(old(buf[..]), buf[..], at, text)
  {
    hide Written, Val, Pow, Layout, AllDigits, ReadsBack, NoneShorter, NoneCloser, Units, DigitsOf, Decoded, IsInteger,
      ShownAsInteger;
    if b == INFINITY {
      PutText(buf, at, "Infinity");
      return "Infinity", 8;
    }
    var tmp := new Mpb(BUFFER_LIMBS);
    if b == 0 {
      OneZero();
      len := PutLayout(buf, at, tmp, 1, 1, mode);
      text := Layout([0], 1, mode);
      return;
    }
    var m, e := Decode(b);
    if 1 <= e <= 53 && m % Pow2Of(53 - e) == 0 && mode != ExpEnabled {
      IntegerFits(b, m, e);
      m := m / Pow2Of(53 - e);
      IntegerDigits(m);
      len := PutU64(buf, at, m);
      text := Text(AllDigits(m, 10));
      assert IsInteger(b, m);
      return;
    }
    if mode != ExpEnabled && ShownAsInteger(b) {
      OnlyIntegersFit(b, m, e);
    }
    var mant, p, exp := DecimalDigits(tmp, m, e, b);
    SmallMantissa(mant, p);
    tmp.SetU64(mant);
    len := PutLayout(buf, at, tmp, p, exp, mode);
    text := Layout(DigitsOf(mant, p, 10), exp, mode);
    assert DigitsText(b, mode, mant, p, exp, text);
  }

  lemma OneZero()
    ensures DigitsOf(0, 1, 10) == [0]
  {
    OneDigit(0, 10);
  }

  lemma IntegerDigits(n: nat)
    requires n < TWO53
    ensures n < BASE * BASE && |AllDigits(n, 10)| == CountDigits(n, 10) <= 28
  {
    CountIs(n, 10);
    assert Pow(10, 7) == 10000000;
    PowAdd(10, 7, 7);
    PowAdd(10, 14, 14);
    if CountDigits(n, 10) > 28 {
      PowMono(10, 28, CountDigits(n, 10) - 1);
    }
  }

  lemma SmallMantissa(mant: nat, p: nat)
    requires ProperDigits(10, mant, p) && p <= MAX_DIGITS
    ensures 0 < mant < BASE * BASE
  {
    hide Pow;
    PowMono(10, p, MAX_DIGITS);
    PowPos(10, p - 1);
    DecimalRadix();
  }
}
