/** The case of digits does not matter to `js_atod`. */
module NumeralCase {
  import opened Numerals
  import opened NumeralScan
  import opened AtoD

  /** The lower-case letter of a digit; other characters stay. */
  function LowerDigit(c: char, radix: nat): (d: char)
    ensures ToDigit(d) == ToDigit(c)
  {
    if 'A' <= c <= 'Z' && ToDigit(c) < radix then 'a' + (c - 'A') else c
  }

  function Lowered(s: string, radix: nat): (l: string)
    ensures |l| == |s|
    ensures forall i :: 0 <= i < |s| ==> l[i] == LowerDigit(s[i], radix)
  {
    seq(|s|, i requires 0 <= i < |s| => LowerDigit(s[i], radix))
  }

  lemma {:induction false} SameRun(s: string, i: nat, r: nat, radix: nat)
    requires r <= 36
    ensures RunEnd(Lowered(s, radix), i, r) == RunEnd(s, i, r)
    decreases |s| - i
  {
    var l := Lowered(s, radix);
    assert IsDigitAt(l, i, r) == IsDigitAt(s, i, r);
    if IsDigitAt(s, i, r) {
      SameRun(s, i + 1, r, radix);
    }
  }

  lemma {:induction false} SameDigits(s: string, i: nat, j: nat, radix: nat)
    requires i <= j <= |s|
    ensures Run(Lowered(s, radix), i, j) == Run(s, i, j)
    decreases j - i
  {
    if i < j {
      SameDigits(s, i + 1, j, radix);
    }
  }

  /** The characters of the grammar that are no digits stay, and none appears. */
  lemma SameMarks(s: string, i: nat, radix: nat)
    requires 2 <= radix <= 36
    ensures var c, d := At(s, i), At(Lowered(s, radix), i);
      ToDigit(c) == ToDigit(d) && (c == '.' <==> d == '.') && (c == '+' <==> d == '+') && (c == '-' <==> d == '-') &&
      (c == '0' <==> d == '0') && ExponentMarker(c, radix) == ExponentMarker(d, radix) &&
      BinaryMarker(c, radix) == BinaryMarker(d, radix) &&
      (radix == 16 ==> ((c == 'x' || c == 'X') <==> (d == 'x' || d == 'X')))
  {
  }

  lemma SameMantissa(s: string, p0: nat, start: nat, radix: nat)
    requires 2 <= radix <= 36 && p0 <= |s|
    ensures MantissaAt(Lowered(s, radix), p0, start, radix) == MantissaAt(s, p0, start, radix)
  {
    hide RunEnd, Run, ToDigit, LowerDigit;
    var i1 := RunEnd(s, p0, radix);
    SameRun(s, p0, radix, radix);
    SameRun(s, i1 + 1, radix, radix);
    SameMarks(s, i1, radix);
    SameMarks(s, i1 + 1, radix);
    SameDigits(s, p0, i1, radix);
    if DotAt(s, i1, start, radix) {
      SameDigits(s, i1 + 1, RunEnd(s, i1 + 1, radix), radix);
    }
  }

  lemma SameExponent(s: string, i: nat, start: nat, radix: nat)
    requires 2 <= radix <= 36 && i <= |s|
    ensures ExponentAt(Lowered(s, radix), i, start, radix) == ExponentAt(s, i, start, radix)
  {
    hide RunEnd, Run, ToDigit, LowerDigit, ExponentMarker, BinaryMarker;
    SameMarks(s, i, radix);
    SameMarks(s, i + 1, radix);
    var q := AfterSign(s, i + 1);
    SameMarks(s, q, radix);
    SameRun(s, q, 10, radix);
    RunEndIs(s, q, 10, q);
    if IsDigitAt(s, q, 10) {
      SameDigits(s, q, RunEnd(s, q, 10), radix);
    }
  }

  lemma SameParseAt(s: string, neg: bool, p0: nat, start: nat, radix: nat)
    requires 2 <= radix <= 36 && p0 <= |s|
    ensures ParseAt(Lowered(s, radix), neg, p0, start, radix) == ParseAt(s, neg, p0, start, radix)
  {
    hide MantissaAt, ExponentAt;
    MantissaDigits(s, p0, start, radix);
    SameMantissa(s, p0, start, radix);
    SameExponent(s, MantissaAt(s, p0, start, radix).end, start, radix);
  }

  /** A numeral has no other meaning when its digits are written in lower case. */
  lemma LoweredParse(s: string, radix: nat)
    requires 2 <= radix <= 36 && Parse(s, radix).Numeral?
    ensures Parse(Lowered(s, radix), radix) == Parse(s, radix)
  {
    hide ParseAt;
    var l, p := Lowered(s, radix), AfterSign(s, 0);
    SameMarks(s, 0, radix);
    SameMarks(s, p, radix);
    SameMarks(s, p + 1, radix);
    SameMarks(s, p + 2, radix);
    if Prefix16(s, p, radix) {
      SameParseAt(s, At(s, 0) == '-', p + 2, p, radix);
    } else {
      SameParseAt(s, At(s, 0) == '-', p, p, radix);
      NoNameAppears(s, p, radix);
      NotTheName(l, p);
    }
  }

  /** A numeral starts with a digit or a dot, so that its first letter is lowered. */
  lemma NoNameAppears(s: string, p: nat, radix: nat)
    requires 2 <= radix <= 36 && p <= |s| && ParseAt(s, At(s, 0) == '-', p, p, radix).Numeral?
    ensures At(Lowered(s, radix), p) != 'I'
  {
    hide ExponentAt, Run;
    RunEndIs(s, p, radix, p);
    assert IsDigitAt(s, p, radix) || At(s, p) == '.';
  }

  lemma NotTheName(l: string, p: nat)
    requires At(l, p) != 'I'
    ensures !NamesInfinity(l, p)
  {
    if p + |INFINITY_NAME| <= |l| {
      assert l[p..p + |INFINITY_NAME|][0] == l[p];
    }
  }

  /** Reading has the same outcome. */
  lemma LoweredOutcome(s: string, radix: nat, ok: bool, neg: bool, bits: nat, next: nat)
    requires 2 <= radix <= 36 && Parse(s, radix).Numeral?
    ensures Outcome(Lowered(s, radix), radix, ok, neg, bits, next) <==> Outcome(s, radix, ok, neg, bits, next)
  {
    hide Parse, IntsFit, CorrectlyRounded, Counted, Decides, Whole;
    LoweredParse(s, radix);
  }
}
