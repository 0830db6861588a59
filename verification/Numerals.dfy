/** Digits, their characters and their value. */
module Numerals {
  import opened Powers

  type Digits = seq<nat>

  ghost predicate AllBelow(ds: Digits, radix: nat) {
    forall i :: 0 <= i < |ds| ==> ds[i] < radix
  }

  /** The number that digits stand for, most significant digit first. */
  ghost function Value(ds: Digits, radix: nat): nat {
    if ds == [] then 0 else Value(ds[..|ds| - 1], radix) * radix + ds[|ds| - 1]
  }

  lemma ValueSnoc(ds: Digits, c: nat, radix: nat)
    ensures Value(ds + [c], radix) == Value(ds, radix) * radix + c
  {
    assert (ds + [c])[..|ds|] == ds;
  }

  lemma {:induction false} ValueConcat(a: Digits, b: Digits, radix: nat)
    ensures Value(a + b, radix) == Value(a, radix) * Pow(radix, |b|) + Value(b, radix)
  {
    if b == [] {
      assert a + b == a;
      PowSmall(radix);
      assert Value(a, radix) * 1 == Value(a, radix);
    } else {
      var n := |b| - 1;
      var c, x, y, p := b[n], Value(a, radix), Value(b[..n], radix), Pow(radix, n);
      ValueConcat(a, b[..n], radix);
      assert a + b == (a + b[..n]) + [c];
      ValueSnoc(a + b[..n], c, radix);
      assert (x * p + y) * radix == x * (radix * p) + y * radix by {
        MulDist(x * p, y, radix);
        MulAssoc(x, p, radix);
        assert p * radix == radix * p;
      }
    }
  }

  lemma {:induction false} ValueBound(ds: Digits, radix: nat)
    requires radix > 0 && AllBelow(ds, radix)
    ensures Value(ds, radix) < Pow(radix, |ds|)
  {
    if ds != [] {
      var n := |ds| - 1;
      ValueBound(ds[..n], radix);
      MulMono(Value(ds[..n], radix) + 1, Pow(radix, n), radix);
      MulDist(Value(ds[..n], radix), 1, radix);
      assert radix * Pow(radix, n) == Pow(radix, n) * radix;
    } else {
      PowSmall(radix);
    }
  }

  /** A leading digit that is not zero. */
  lemma ValueAtLeast(ds: Digits, radix: nat)
    requires ds != [] && ds[0] > 0
    ensures Value(ds, radix) >= Pow(radix, |ds| - 1)
  {
    var rest := ds[1..];
    assert ds == [ds[0]] + rest;
    ValueConcat([ds[0]], rest, radix);
    assert Value([ds[0]], radix) == ds[0] by {
      assert [ds[0]][..0] == [];
      assert 0 * radix == 0;
    }
    MulMono(1, ds[0], Pow(radix, |rest|));
  }

  lemma {:induction false} ValueZeros(ds: Digits, radix: nat)
    requires forall i :: 0 <= i < |ds| ==> ds[i] == 0
    ensures Value(ds, radix) == 0
  {
    if ds != [] {
      ValueZeros(ds[..|ds| - 1], radix);
    }
  }

  /** `len` digits of a number. */
  function DigitsOf(n: nat, len: nat, radix: nat): (ds: Digits)
    requires radix > 0
    ensures |ds| == len && AllBelow(ds, radix)
    decreases len
  {
    if len == 0 then []
    else
      QuotientNat(n, radix);
      DigitsOf(n / radix, len - 1, radix) + [n % radix]
  }

  lemma {:induction false} ValueOfDigits(n: nat, len: nat, radix: nat)
    requires radix > 0 && n < Pow(radix, len)
    ensures Value(DigitsOf(n, len, radix), radix) == n
    decreases len
  {
    if len > 0 {
      QuotientNat(n, radix);
      assert radix * Pow(radix, len - 1) == Pow(radix, len - 1) * radix;
      DivLess(n, radix, Pow(radix, len - 1));
      ValueOfDigits(n / radix, len - 1, radix);
      ValueSnoc(DigitsOf(n / radix, len - 1, radix), n % radix, radix);
      DivModOf(n, radix);
    }
  }

  /** Digits in two groups. */
  lemma {:induction false} DigitsInGroups(n: nat, len: nat, low: nat, radix: nat)
    requires radix > 0 && low <= len
    ensures Pow(radix, low) > 0
    ensures var p := Pow(radix, low);
      DigitsOf(n, len, radix) == DigitsOf(n / p, len - low, radix) + DigitsOf(n % p, low, radix)
    decreases low
  {
    PowPos(radix, low);
    PowSmall(radix);
    if low == 0 {
      DivModIs(n, 1, n, 0);
      assert DigitsOf(0, 0, radix) == [];
    } else {
      var p := Pow(radix, low - 1);
      PowPos(radix, low - 1);
      DigitsInGroups(n / radix, len - 1, low - 1, radix);
      DivTwice(n, radix, p);
      var k := n % (radix * p);
      assert k == (n / radix % p) * radix + n % radix;
      DivModIs(k, radix, n / radix % p, n % radix);
      assert DigitsOf(k, low, radix) == DigitsOf(n / radix % p, low - 1, radix) + [n % radix];
    }
  }

  /** The number of digits does not change when leading zeros are counted. */
  lemma {:induction false} DigitsOfZero(len: nat, radix: nat)
    requires radix > 0
    ensures forall i :: 0 <= i < len ==> DigitsOf(0, len, radix)[i] == 0
    decreases len
  {
    if len > 0 {
      DivModIs(0, radix, 0, 0);
      DigitsOfZero(len - 1, radix);
    }
  }

  /** The first digit of a number of exactly `len` digits. */
  lemma FirstDigitNotZero(n: nat, len: nat, radix: nat)
    requires radix > 0 && len > 0 && Pow(radix, len - 1) <= n < Pow(radix, len)
    ensures DigitsOf(n, len, radix)[0] > 0
  {
    hide Pow, DigitsOf;
    DigitsInGroups(n, len, len - 1, radix);
    OneDigit(n / Pow(radix, len - 1), radix);
    PowAdd(radix, 1, len - 1);
    PowSmall(radix);
    var p := Pow(radix, len - 1);
    DivAtLeast(n, p, 1);
    DivLess(n, p, radix);
    DivModIs(n / p, radix, 0, n / p);
  }

  lemma OneDigit(q: nat, radix: nat)
    requires radix > 0
    ensures DigitsOf(q, 1, radix) == [q % radix]
  {
    QuotientNat(q, radix);
    assert DigitsOf(q, 1, radix) == DigitsOf(q / radix, 0, radix) + [q % radix];
  }

  ///// Characters

  function DigitChar(d: nat): char
    requires d < 36
  {
    if d < 10 then '0' + d as char else 'a' + (d - 10) as char
  }

  /** The value of a digit in any radix up to 36, and 36 for other characters. */
  function ToDigit(c: char): (d: nat)
    ensures d <= 36
  {
    if '0' <= c <= '9' then (c - '0') as nat
    else if 'A' <= c <= 'Z' then (c - 'A') as nat + 10
    else if 'a' <= c <= 'z' then (c - 'a') as nat + 10
    else 36
  }

  lemma DigitOfChar(d: nat)
    requires d < 36
    ensures ToDigit(DigitChar(d)) == d
    ensures DigitChar(d) == '0' <==> d == 0
    ensures DigitChar(d) != '.' && DigitChar(d) != '\0' && DigitChar(d) != '+' && DigitChar(d) != '-'
  {
  }

  const LOWER_DIGITS := "0123456789abcdefghijklmnopqrstuvwxyz"
  const UPPER_DIGITS := "0123456789ABCDEFGHIJKLMNOPQRSTUVWXYZ"

  /** A letter of either case is worth its place in the alphabet, after the ten decimal digits. */
  lemma DigitLetters(d: nat)
    requires d < 36
    ensures |LOWER_DIGITS| == |UPPER_DIGITS| == 36
    ensures DigitChar(d) == LOWER_DIGITS[d] && ToDigit(LOWER_DIGITS[d]) == d && ToDigit(UPPER_DIGITS[d]) == d
    ensures UPPER_DIGITS[d] == if d < 10 then '0' + d as char else 'A' + (d - 10) as char
  {
    assert LOWER_DIGITS[d] == if d < 10 then '0' + d as char else 'a' + (d - 10) as char;
    assert UPPER_DIGITS[d] == if d < 10 then '0' + d as char else 'A' + (d - 10) as char;
  }

  /** Nothing else is a digit. */
  lemma OnlyDigitLetters(c: char)
    ensures |LOWER_DIGITS| == |UPPER_DIGITS| == 36
    ensures var d := ToDigit(c); d < 36 ==> c == LOWER_DIGITS[d] || c == UPPER_DIGITS[d]
  {
    if ToDigit(c) < 36 {
      DigitLetters(ToDigit(c));
    }
  }

  function Text(ds: Digits): (s: string)
    requires AllBelow(ds, 36)
    ensures |s| == |ds|
    ensures forall i :: 0 <= i < |s| ==> s[i] == DigitChar(ds[i])
  {
    seq(|ds|, i requires 0 <= i < |ds| => DigitChar(ds[i]))
  }

  lemma TextConcat(a: Digits, b: Digits)
    requires AllBelow(a, 36) && AllBelow(b, 36)
    ensures AllBelow(a + b, 36) && Text(a + b) == Text(a) + Text(b)
  {
  }
}
