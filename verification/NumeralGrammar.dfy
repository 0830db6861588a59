/** The numerals that `js_atod` reads, as a grammar of concatenated parts. */
module NumeralGrammar {
  import opened RadixLogs
  import opened Numerals
  import opened NumeralScan
  import opened AtoD

  ///// The grammar

  datatype Written = Written(sign: string, prefix: string, whole: string, dot: bool, frac: string,
                             mark: string, expSign: string, power: string)

  predicate AllDigits(t: string, radix: nat) {
    forall i :: 0 <= i < |t| ==> ToDigit(t[i]) < radix
  }

  predicate IsSign(t: string) {
    t == "" || t == "+" || t == "-"
  }

  /** An exponent of the radix, or of two in a radix that is a power of two of at most four bits. */
  predicate IsMark(t: string, radix: nat) {
    if radix == 10 then t == "e" || t == "E"
    else t == "@" || (radix in {2, 4, 8, 16} && (t == "p" || t == "P"))
  }

  /** At least one digit, before the dot or behind it, and a digit behind a prefix. */
  predicate WellWritten(w: Written, radix: nat) {
    IsSign(w.sign) && IsSign(w.expSign) &&
    (w.prefix == "" || (radix == 16 && (w.prefix == "0x" || w.prefix == "0X") && w.whole != "")) &&
    AllDigits(w.whole, radix) && AllDigits(w.frac, radix) && AllDigits(w.power, 10) &&
    w.whole + w.frac != "" && (!w.dot ==> w.frac == "") &&
    if w.mark == "" then w.expSign == "" && w.power == "" else IsMark(w.mark, radix) && w.power != ""
  }

  /** The numeral does not go on in `rest`. */
  predicate EndsBefore(w: Written, rest: string, radix: nat) {
    rest == "" ||
    if w.mark != "" then ToDigit(rest[0]) >= 10
    else
      ToDigit(rest[0]) >= radix && !IsMark([rest[0]], radix) && (!w.dot ==> rest[0] != '.') &&
      (radix == 16 && w.prefix == "" && w.whole == "0" && !w.dot ==> rest[0] != 'x' && rest[0] != 'X')
  }

  function Scaled(w: Written, rest: string): string {
    w.mark + (w.expSign + (w.power + rest))
  }

  function Unsigned(w: Written, rest: string): string {
    w.whole + ((if w.dot then "." else "") + (w.frac + Scaled(w, rest)))
  }

  function TextWith(w: Written, rest: string): string {
    w.sign + (w.prefix + Unsigned(w, rest))
  }

  /** The string is the numeral followed by `rest`. In a radix in which "Infinity" is a row of digits it is still the
      name. */
  predicate Reads(s: string, radix: nat, w: Written, rest: string) {
    WellWritten(w, radix) && EndsBefore(w, rest, radix) && s == TextWith(w, rest) &&
    !("Infinity" <= w.prefix + Unsigned(w, rest))
  }

  ///// What a numeral means

  function Values(t: string): (ds: Digits)
    ensures |ds| == |t|
  {
    seq(|t|, i requires 0 <= i < |t| => ToDigit(t[i]))
  }

  ghost function Meaning(w: Written): Syntax {
    var end := |w.sign| + |w.prefix| + |w.whole| + (if w.dot then 1 else 0) + |w.frac|;
    var n := Value(Values(w.power), 10);
    Numeral(w.sign == "-", Mantissa(Values(w.whole) + Values(w.frac), |w.whole|, w.dot, end),
      if w.expSign == "-" then 0 - n else n, w.mark == "p" || w.mark == "P", end + |w.mark| + |w.expSign| + |w.power|)
  }

  ///// Reading what is written

  /** The first piece of the rest of a string. */
  lemma Piece(s: string, i: nat, a: string, b: string)
    requires i <= |s| && s[i..] == a + b
    ensures i + |a| <= |s| && s[i..i + |a|] == a && s[i + |a|..] == b
  {
    var t := s[i..];
    assert t[..|a|] == a && t[|a|..] == b;
  }

  lemma {:induction false} RunOf(s: string, i: nat, t: string, radix: nat)
    requires radix <= 36 && i + |t| <= |s| && s[i..i + |t|] == t && AllDigits(t, radix)
    requires !IsDigitAt(s, i + |t|, radix)
    ensures RunEnd(s, i, radix) == i + |t| && Run(s, i, i + |t|) == Values(t)
    decreases |t|
  {
    if t != "" {
      assert s[i] == s[i..i + |t|][0] && t[1..] == s[i + 1..i + 1 + |t[1..]|];
      RunOf(s, i + 1, t[1..], radix);
    }
  }

  lemma MarkIs(c: char, radix: nat)
    requires 2 <= radix <= 36
    ensures ExponentMarker(c, radix) <==> IsMark([c], radix)
    ensures IsMark([c], radix) ==> (BinaryMarker(c, radix) <==> c == 'p' || c == 'P')
    ensures IsMark([c], radix) ==> ToDigit(c) >= radix && c != '.'
    ensures c == '.' ==> !IsMark([c], radix)
  {
    assert 1 <= RadixBits(radix) <= 4 <==> radix in {2, 4, 8, 16};
    assert forall d: char :: [c] == [d] ==> [c][0] == d;
  }

  lemma MantissaPieces(s: string, p0: nat, w: Written, rest: string)
    requires p0 <= |s| && s[p0..] == Unsigned(w, rest)
    ensures var i1 := p0 + |w.whole|;
      var i2 := i1 + if w.dot then 1 else 0;
      i2 + |w.frac| <= |s| && s[p0..i1] == w.whole && s[i2..i2 + |w.frac|] == w.frac &&
      s[i2 + |w.frac|..] == Scaled(w, rest) && (w.dot ==> s[i1] == '.')
  {
    hide Scaled;
    var i1, dot := p0 + |w.whole|, if w.dot then "." else "";
    var more := w.frac + Scaled(w, rest);
    Piece(s, p0, w.whole, dot + more);
    Piece(s, i1, dot, more);
    Piece(s, i1 + |dot|, w.frac, Scaled(w, rest));
    if w.dot {
      assert s[i1] == s[i1..i1 + 1][0];
    }
  }

  lemma DigitsOnly(w: Written, radix: nat)
    requires 2 <= radix <= 36 && WellWritten(w, radix)
    ensures AllDigits(w.whole, radix) && AllDigits(w.frac, radix) && AllDigits(w.power, 10)
    ensures (w.whole == "" ==> w.frac != "") && (!w.dot ==> w.frac == "" && w.whole != "")
  {
    hide AllDigits, IsMark, IsSign;
  }

  lemma MantissaOf(s: string, p0: nat, start: nat, radix: nat, w: Written, rest: string)
    requires 2 <= radix <= 36 && WellWritten(w, radix) && EndsBefore(w, rest, radix)
    requires start <= p0 <= |s| && s[p0..] == Unsigned(w, rest)
    ensures var end := p0 + |w.whole| + (if w.dot then 1 else 0) + |w.frac|;
      end <= |s| && s[end..] == Scaled(w, rest) &&
      MantissaAt(s, p0, start, radix) == Mantissa(Values(w.whole) + Values(w.frac), |w.whole|, w.dot, end)
  {
    hide RunEnd, Run, ToDigit, WellWritten, EndsBefore, Unsigned, Scaled, AllDigits, Values;
    MantissaPieces(s, p0, w, rest);
    DigitsOnly(w, radix);
    var i1 := p0 + |w.whole|;
    if w.dot {
      AfterDigits(s, i1 + 1 + |w.frac|, radix, w, rest);
      DotIsNoDigit(s, i1, radix);
      RunOf(s, p0, w.whole, radix);
      RunOf(s, i1 + 1, w.frac, radix);
      if w.whole == "" {
        FirstIsDigit(s, i1 + 1, w.frac, radix);
      }
    } else {
      AfterDigits(s, i1, radix, w, rest);
      RunOf(s, p0, w.whole, radix);
      assert Values(w.whole) + Values(w.frac) == Values(w.whole);
    }
  }

  lemma FirstIsDigit(s: string, i: nat, t: string, radix: nat)
    requires radix <= 36 && t != "" && AllDigits(t, radix) && i + |t| <= |s| && s[i..i + |t|] == t
    ensures IsDigitAt(s, i, radix) && At(s, i) == s[i] == t[0]
    ensures s[i] != '+' && s[i] != '-' && s[i] != '.'
  {
    assert s[i] == s[i..i + |t|][0];
    DigitIsNoSign(s[i]);
  }

  /** Behind the digits comes neither a digit nor, when there was no dot, a dot. */
  lemma AfterDigits(s: string, i: nat, radix: nat, w: Written, rest: string)
    requires 2 <= radix <= 36 && WellWritten(w, radix) && EndsBefore(w, rest, radix)
    requires i <= |s| && s[i..] == Scaled(w, rest)
    ensures !IsDigitAt(s, i, radix) && (!w.dot ==> At(s, i) != '.')
    ensures w.mark != "" ==> i < |s| && [s[i]] == w.mark
    ensures w.mark == "" ==> !ExponentMarker(At(s, i), radix)
  {
    hide ToDigit, ExponentMarker;
    Piece(s, i, w.mark, w.expSign + (w.power + rest));
    if w.mark == "" {
      assert s[i..] == rest;
      MarkIs(At(s, i), radix);
      MarkIs('\0', radix);
    } else {
      assert w.mark == [w.mark[0]];
      MarkIs(s[i], radix);
    }
  }

  lemma ScaledPieces(s: string, i: nat, w: Written, rest: string)
    requires i <= |s| && s[i..] == Scaled(w, rest)
    ensures var j := i + |w.mark|;
      var q := j + |w.expSign|;
      q + |w.power| <= |s| && s[i..j] == w.mark && s[j..q] == w.expSign && s[q..q + |w.power|] == w.power &&
      s[q + |w.power|..] == rest
  {
    Piece(s, i, w.mark, w.expSign + (w.power + rest));
    Piece(s, i + |w.mark|, w.expSign, w.power + rest);
    Piece(s, i + |w.mark| + |w.expSign|, w.power, rest);
  }

  lemma SignRead(s: string, i: nat, t: string)
    requires IsSign(t) && i + |t| <= |s| && s[i..i + |t|] == t
    requires At(s, i + |t|) != '+' && At(s, i + |t|) != '-'
    ensures AfterSign(s, i) == i + |t| && (At(s, i) == '-' <==> t == "-")
  {
    if t != "" {
      assert s[i] == s[i..i + |t|][0];
    }
  }

  lemma ExponentOf(s: string, i: nat, start: nat, radix: nat, w: Written, rest: string)
    requires 2 <= radix <= 36 && WellWritten(w, radix) && EndsBefore(w, rest, radix)
    requires start < i <= |s| && s[i..] == Scaled(w, rest)
    ensures var n := Value(Values(w.power), 10);
      ExponentAt(s, i, start, radix) ==
        if w.mark == "" then NoExponent
        else Exponent(if w.expSign == "-" then 0 - n else n, w.mark == "p" || w.mark == "P",
          i + |w.mark| + |w.expSign| + |w.power|)
  {
    hide ToDigit, ExponentMarker, BinaryMarker, Value, RunEnd, Run, Scaled, AllDigits, Values, WellWritten, EndsBefore,
      IsMark, IsSign, AfterSign;
    AfterDigits(s, i, radix, w, rest);
    if w.mark != "" {
      ScaledPieces(s, i, w, rest);
      MarkRead(w, radix);
      var q := i + 1 + |w.expSign|;
      FirstIsDigit(s, q, w.power, 10);
      SignRead(s, i + 1, w.expSign);
      MarkIs(s[i], radix);
      EndOfPower(s, q + |w.power|, radix, w, rest);
      RunOf(s, q, w.power, 10);
    }
  }

  lemma MarkRead(w: Written, radix: nat)
    requires 2 <= radix <= 36 && WellWritten(w, radix) && w.mark != ""
    ensures |w.mark| == 1 && IsMark([w.mark[0]], radix) && IsSign(w.expSign) && w.power != "" && AllDigits(w.power, 10)
    ensures (w.mark == "p" || w.mark == "P") <==> (w.mark[0] == 'p' || w.mark[0] == 'P')
  {
    hide AllDigits, IsSign;
    assert w.mark == [w.mark[0]];
  }

  lemma EndOfPower(s: string, i: nat, radix: nat, w: Written, rest: string)
    requires 2 <= radix <= 36 && EndsBefore(w, rest, radix) && w.mark != "" && i <= |s| && s[i..] == rest
    ensures !IsDigitAt(s, i, 10)
  {
    hide ToDigit, IsMark;
    if rest != "" {
      assert s[i] == s[i..][0];
    }
  }

  lemma DigitIsNoSign(c: char)
    ensures ToDigit(c) < 36 ==> c != '+' && c != '-' && c != '.' && c != '\0'
  {
  }

  lemma Leading(s: string, w: Written, rest: string)
    requires s == TextWith(w, rest)
    ensures var p := |w.sign|;
      var p0 := p + |w.prefix|;
      p0 <= |s| && s[..p] == w.sign && s[p..p0] == w.prefix && s[p0..] == Unsigned(w, rest) &&
      s[p..] == w.prefix + Unsigned(w, rest)
  {
    hide Unsigned;
    assert s[0..] == s;
    Piece(s, 0, w.sign, w.prefix + Unsigned(w, rest));
    Piece(s, |w.sign|, w.prefix, Unsigned(w, rest));
  }

  /** The mantissa starts with a digit or a dot. */
  lemma FirstCharacter(s: string, p0: nat, radix: nat, w: Written, rest: string)
    requires 2 <= radix <= 36 && WellWritten(w, radix) && p0 <= |s| && s[p0..] == Unsigned(w, rest)
    ensures At(s, p0) != '+' && At(s, p0) != '-'
    ensures w.whole != "" ==> IsDigitAt(s, p0, radix)
  {
    hide WellWritten, Unsigned, AllDigits, ToDigit, Scaled;
    DigitsOnly(w, radix);
    MantissaPieces(s, p0, w, rest);
    if w.whole != "" {
      FirstIsDigit(s, p0, w.whole, radix);
    }
  }

  lemma PrefixRead(s: string, p: nat, radix: nat, w: Written, rest: string)
    requires 2 <= radix <= 36 && WellWritten(w, radix) && EndsBefore(w, rest, radix) && p + |w.prefix| <= |s|
    requires s[p..p + |w.prefix|] == w.prefix && s[p + |w.prefix|..] == Unsigned(w, rest)
    ensures Prefix16(s, p, radix) <==> w.prefix != ""
    ensures At(s, p) != '+' && At(s, p) != '-'
  {
    hide Unsigned, AllDigits, ToDigit, Scaled, IsMark, IsSign, EndsBefore;
    if w.prefix != "" {
      assert s[p] == s[p..p + |w.prefix|][0] && s[p + 1] == s[p..p + |w.prefix|][1];
    } else {
      NoPrefix(s, p, radix, w, rest);
      FirstCharacter(s, p, radix, w, rest);
    }
  }

  lemma SecondIsDigit(s: string, i: nat, t: string, radix: nat)
    requires radix <= 16 && |t| >= 2 && AllDigits(t, radix) && i + |t| <= |s| && s[i..i + |t|] == t
    ensures At(s, i + 1) != 'x' && At(s, i + 1) != 'X'
  {
    assert s[i + 1] == s[i..i + |t|][1];
  }

  /** A zero with an "x" behind it is a prefix: a numeral without one does not end between the two. */
  lemma NoPrefix(s: string, p: nat, radix: nat, w: Written, rest: string)
    requires 2 <= radix <= 36 && WellWritten(w, radix) && EndsBefore(w, rest, radix) && w.prefix == ""
    requires p <= |s| && s[p..] == Unsigned(w, rest)
    ensures !Prefix16(s, p, radix)
  {
    hide Unsigned, Scaled, IsMark, IsSign, AllDigits, ToDigit, WellWritten;
    DigitsOnly(w, radix);
    MantissaPieces(s, p, w, rest);
    if radix == 16 {
      if |w.whole| >= 2 {
        SecondIsDigit(s, p, w.whole, radix);
      } else if |w.whole| == 1 {
        FirstIsDigit(s, p, w.whole, radix);
        assert w.whole == [w.whole[0]];
        if !w.dot && p + 1 < |s| {
          assert s[p + 1] == s[p + 1..][0];
          NoMarkBegins(s[p + 1..], radix, w, rest);
        }
      }
    }
  }

  lemma NoMarkBegins(t: string, radix: nat, w: Written, rest: string)
    requires 2 <= radix <= 36 && WellWritten(w, radix) && t == Scaled(w, rest) && t != ""
    ensures t[0] == 'x' || t[0] == 'X' ==> w.mark == "" && t == rest
  {
    hide AllDigits;
    if w.mark != "" {
      MarkRead(w, radix);
      assert t[0] == w.mark[0];
    } else {
      assert t == "" + ("" + ("" + rest));
    }
  }

  lemma NotTheName(s: string, p: nat)
    requires p <= |s| && !("Infinity" <= s[p..])
    ensures !NamesInfinity(s, p)
  {
    if p + 8 <= |s| {
      assert s[p..p + 8] == s[p..][..8];
    }
  }

  lemma PartsRead(s: string, start: nat, p0: nat, neg: bool, radix: nat, w: Written, rest: string)
    requires 2 <= radix <= 36 && WellWritten(w, radix) && EndsBefore(w, rest, radix) && neg == (w.sign == "-")
    requires start == |w.sign| && p0 == start + |w.prefix| <= |s| && s[p0..] == Unsigned(w, rest)
    ensures ParseAt(s, neg, p0, start, radix) == Meaning(w)
  {
    hide ToDigit, MantissaAt, ExponentAt, Value, Scaled, Unsigned, AllDigits, EndsBefore, Values, IsMark, IsSign,
      WellWritten;
    Signed(w, radix);
    DigitsOnly(w, radix);
    MantissaOf(s, p0, start, radix, w, rest);
    ExponentOf(s, p0 + |w.whole| + (if w.dot then 1 else 0) + |w.frac|, start, radix, w, rest);
  }

  /** A numeral with its rest is read as what it means. */
  lemma ParseWritten(s: string, radix: nat, w: Written, rest: string)
    requires 2 <= radix <= 36 && Reads(s, radix, w, rest)
    ensures Parse(s, radix) == Meaning(w)
  {
    hide ToDigit, ParseAt, Value, Scaled, Unsigned, AllDigits, EndsBefore, Values, IsMark, IsSign, TextWith, Prefix16,
      WellWritten, NamesInfinity, Meaning, AfterSign;
    var p := |w.sign|;
    var p0 := p + |w.prefix|;
    Leading(s, w, rest);
    PrefixRead(s, p, radix, w, rest);
    Signed(w, radix);
    SignRead(s, 0, w.sign);
    NotTheName(s, p);
    if w.prefix != "" {
      FirstCharacter(s, p0, radix, w, rest);
    }
    PartsRead(s, p, p0, At(s, 0) == '-', radix, w, rest);
  }

  lemma Signed(w: Written, radix: nat)
    requires WellWritten(w, radix)
    ensures IsSign(w.sign) && (w.prefix != "" ==> |w.prefix| == 2 && w.whole != "")
    ensures w.mark == "" ==> w.expSign == "" && w.power == "" && Value(Values(w.power), 10) == 0
  {
    hide AllDigits, IsMark, IsSign;
  }

  ///// Taking a numeral apart

  lemma Cut(s: string, i: nat, j: nat)
    requires i <= j <= |s|
    ensures s[i..] == s[i..j] + s[j..]
  {
  }

  lemma RunDigits(s: string, i: nat, radix: nat)
    requires radix <= 36 && i <= |s|
    ensures AllDigits(s[i..RunEnd(s, i, radix)], radix) && !IsDigitAt(s, RunEnd(s, i, radix), radix)
    ensures IsDigitAt(s, i, radix) <==> s[i..RunEnd(s, i, radix)] != ""
  {
    hide ToDigit;
    var t := s[i..RunEnd(s, i, radix)];
    RunEndIs(s, i, radix, i);
    forall k | 0 <= k < |t|
      ensures ToDigit(t[k]) < radix
    {
      RunEndIs(s, i, radix, i + k);
    }
  }

  lemma CutAtDot(s: string, p: nat, i: nat, j: nat)
    requires p <= i < j <= |s| && s[i] == '.'
    ensures s[p..] == s[p..i] + ("." + (s[i + 1..j] + s[j..]))
  {
    Cut(s, i + 1, j);
    assert s[i..i + 1] == ".";
    Cut(s, i, i + 1);
    Cut(s, p, i);
  }

  lemma CutPlain(s: string, p: nat, i: nat)
    requires p <= i <= |s|
    ensures s[p..] == s[p..i] + ("" + ("" + s[i..]))
  {
    assert "" + ("" + s[i..]) == s[i..];
    Cut(s, p, i);
  }

  lemma MantissaParts(s: string, p0: nat, start: nat, radix: nat) returns (whole: string, dot: bool, frac: string)
    requires 2 <= radix <= 36 && start <= p0 <= |s| && (p0 > start ==> IsDigitAt(s, p0, radix))
    requires MantissaAt(s, p0, start, radix).end != start
    ensures var end := MantissaAt(s, p0, start, radix).end;
      start < end <= |s| && s[p0..] == whole + ((if dot then "." else "") + (frac + s[end..])) &&
      !IsDigitAt(s, end, radix) && (!dot ==> frac == "" && At(s, end) != '.')
    ensures AllDigits(whole, radix) && AllDigits(frac, radix) && whole + frac != ""
    ensures IsDigitAt(s, p0, radix) ==> whole != ""
  {
    hide RunEnd, Run, AllDigits, ToDigit;
    var i1 := RunEnd(s, p0, radix);
    whole, dot, frac := s[p0..i1], DotAt(s, i1, start, radix), "";
    NoZeroMark(radix);
    RunDigits(s, p0, radix);
    if dot {
      var i2 := RunEnd(s, i1 + 1, radix);
      frac := s[i1 + 1..i2];
      RunDigits(s, i1 + 1, radix);
      CutAtDot(s, p0, i1, i2);
    } else {
      NoDigits(radix);
      CutPlain(s, p0, i1);
    }
  }

  lemma NoDigits(radix: nat)
    ensures AllDigits("", radix)
  {
  }

  lemma PowerParts(s: string, i: nat) returns (expSign: string, power: string, rest: string)
    requires i <= |s| && IsDigitAt(s, AfterSign(s, i), 10)
    ensures s[i..] == expSign + (power + rest) && IsSign(expSign)
    ensures AllDigits(power, 10) && power != "" && (rest == "" || ToDigit(rest[0]) >= 10)
  {
    hide RunEnd, AllDigits, ToDigit, IsSign, AfterSign;
    var q := AfterSign(s, i);
    RunDigits(s, q, 10);
    var end := RunEnd(s, q, 10);
    expSign, power, rest := s[i..q], s[q..end], s[end..];
    Cut(s, q, end);
    Cut(s, i, q);
    SignPart(s, i);
  }

  lemma ExponentParts(s: string, i: nat, start: nat, radix: nat)
    returns (mark: string, expSign: string, power: string, rest: string)
    requires 2 <= radix <= 36 && start < i <= |s| && ExponentAt(s, i, start, radix) != BadExponent
    ensures s[i..] == mark + (expSign + (power + rest)) && IsSign(expSign) && AllDigits(power, 10)
    ensures if mark == "" then expSign == "" && power == "" && rest == s[i..] && !ExponentMarker(At(s, i), radix)
      else IsMark(mark, radix) && power != "" && (rest == "" || ToDigit(rest[0]) >= 10)
  {
    hide RunEnd, Run, AllDigits, ExponentMarker, BinaryMarker, IsMark, ToDigit, Value, AfterSign;
    if ExponentMarker(At(s, i), radix) {
      MarkIs('\0', radix);
      NoZeroMark(radix);
      MarkIs(At(s, i), radix);
      mark := [s[i]];
      expSign, power, rest := PowerParts(s, i + 1);
      Cut(s, i, i + 1);
    } else {
      NoDigits(10);
      mark, expSign, power, rest := "", "", "", s[i..];
      assert s[i..] == "" + ("" + ("" + rest));
    }
  }

  lemma SignPart(s: string, i: nat)
    requires i <= |s|
    ensures IsSign(s[i..AfterSign(s, i)])
  {
  }

  lemma NoZeroMark(radix: nat)
    requires 2 <= radix <= 36
    ensures !IsMark(['\0'], radix) && ToDigit('\0') >= 36
  {
    assert ['\0'][0] == '\0';
  }

  lemma Assembled(s: string, sign: string, prefix: string, p0: nat, start: nat, radix: nat)
    returns (w: Written, rest: string)
    requires 2 <= radix <= 36 && start <= p0 <= |s| && (p0 > start ==> IsDigitAt(s, p0, radix))
    requires IsSign(sign) && start == |sign| && p0 == start + |prefix|
    requires prefix == "" || (radix == 16 && (prefix == "0x" || prefix == "0X"))
    requires prefix == "" ==> !Prefix16(s, p0, radix)
    requires ParseAt(s, sign == "-", p0, start, radix).Numeral?
    ensures WellWritten(w, radix) && EndsBefore(w, rest, radix) && s[p0..] == Unsigned(w, rest)
    ensures w.sign == sign && w.prefix == prefix
  {
    hide MantissaAt, ExponentAt, ToDigit, IsMark, AllDigits, ExponentMarker, Prefix16;
    var whole, dot, frac := MantissaParts(s, p0, start, radix);
    var i := MantissaAt(s, p0, start, radix).end;
    var mark, expSign, power, r := ExponentParts(s, i, start, radix);
    w, rest := Written(sign, prefix, whole, dot, frac, mark, expSign, power), r;
    if mark == "" {
      RestIs(s, i, radix);
      if dot == false && whole == "0" && prefix == "" {
        NotBetween(s, p0, i, radix);
      }
    }
  }

  lemma RestIs(s: string, i: nat, radix: nat)
    requires 2 <= radix <= 36 && i <= |s| && !IsDigitAt(s, i, radix) && !ExponentMarker(At(s, i), radix)
    ensures i < |s| ==> s[i..][0] == s[i] && ToDigit(s[i]) >= radix && !IsMark([s[i]], radix)
  {
    hide IsMark, ToDigit, ExponentMarker;
    MarkIs(At(s, i), radix);
  }

  lemma NotBetween(s: string, p0: nat, i: nat, radix: nat)
    requires i == p0 + 1 <= |s| && s[p0..] == "0" + ("" + ("" + s[i..])) && !Prefix16(s, p0, radix)
    ensures radix == 16 && i < |s| ==> s[i..][0] != 'x' && s[i..][0] != 'X'
  {
    assert s[p0] == s[p0..][0] == '0';
  }

  /** Whatever is read as a numeral is one of the grammar. */
  lemma NumeralIsWritten(s: string, radix: nat) returns (w: Written, rest: string)
    requires 2 <= radix <= 36 && Parse(s, radix).Numeral?
    ensures Reads(s, radix, w, rest)
  {
    hide ParseAt, ToDigit, WellWritten, EndsBefore, Unsigned, IsSign;
    var p := AfterSign(s, 0);
    SignPart(s, 0);
    var sign := s[0..p];
    assert (At(s, 0) == '-') == (sign == "-");
    var prefix := if Prefix16(s, p, radix) then s[p..p + 2] else "";
    var p0 := p + |prefix|;
    w, rest := Assembled(s, sign, prefix, p0, p, radix);
    Cut(s, p, p0);
    Cut(s, 0, p);
    assert s[0..] == s;
    NotInfinity(s, p, radix);
  }

  lemma NameAt(s: string, p: nat)
    requires p <= |s| && "Infinity" <= s[p..]
    ensures NamesInfinity(s, p) && At(s, p) == 'I'
  {
    assert s[p..p + 8] == s[p..][..8];
    assert s[p] == s[p..][0];
  }

  lemma NotInfinity(s: string, p: nat, radix: nat)
    requires p <= |s| && (At(s, p) == '0' || !NamesInfinity(s, p))
    ensures !("Infinity" <= s[p..])
  {
    if "Infinity" <= s[p..] {
      NameAt(s, p);
    }
  }

  /** The numerals that are read are those of the grammar. */
  lemma NumeralIff(s: string, radix: nat)
    requires 2 <= radix <= 36
    ensures Parse(s, radix).Numeral? <==> exists w, rest :: Reads(s, radix, w, rest)
  {
    hide Parse, Reads;
    if Parse(s, radix).Numeral? {
      var w, rest := NumeralIsWritten(s, radix);
    }
    if w, rest :| Reads(s, radix, w, rest) {
      ParseWritten(s, radix, w, rest);
    }
  }

  /** The only name is that of infinity, with a sign or without one. */
  lemma InfinityRead(s: string, radix: nat, sign: string)
    requires 2 <= radix <= 36 && IsSign(sign) && sign + "Infinity" <= s
    ensures Parse(s, radix) == InfinityName(sign == "-", |sign| + 8)
  {
    hide ParseAt, NamesInfinity;
    var name, p := sign + "Infinity", |sign|;
    assert s == name + s[p + 8..];
    assert s[..p] == name[..p] == sign;
    assert s[p..] == "Infinity" + s[p + 8..];
    NameAt(s, p);
    SignRead(s, 0, sign);
  }

  lemma InfinityIff(s: string, radix: nat)
    requires 2 <= radix <= 36
    ensures Parse(s, radix).InfinityName? <==> exists sign :: IsSign(sign) && sign + "Infinity" <= s
  {
    hide ParseAt, IsSign;
    var p := AfterSign(s, 0);
    if Parse(s, radix).InfinityName? {
      SignPart(s, 0);
      assert s[0..p] + "Infinity" <= s;
    }
    if sign :| IsSign(sign) && sign + "Infinity" <= s {
      InfinityRead(s, radix, sign);
    }
  }
}
