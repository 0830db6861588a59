/** Writing digits into a buffer (`limb_to_a`, `u32toa_len`, `u32toa`, `u64toa` and `output_digits` of dtoa.c). */
module DigitOutput {
  import opened Powers
  import opened Limbs
  import opened Rounding
  import opened Bignum
  import opened RadixPowers
  import opened RadixLogs
  import opened Numerals

  ///// What a buffer holds after writing at a position

  ghost predicate Written(was: seq<char>, now: seq<char>, at: nat, text: string) {
    at + |text| <= |was| && now == was[..at] + text + was[at + |text|..]
  }

  lemma WrittenThen(a: seq<char>, b: seq<char>, c: seq<char>, at: nat, s: string, t: string)
    requires Written(a, b, at, s) && Written(b, c, at + |s|, t)
    ensures Written(a, c, at, s + t)
  {
    assert b[..at + |s|] == a[..at] + s;
    assert b[at + |s| + |t|..] == a[at + |s| + |t|..];
  }

  /** Later digits first, as the loops write them. */
  lemma WrittenBefore(a: seq<char>, b: seq<char>, c: seq<char>, at: nat, s: string, t: string)
    requires Written(a, b, at + |s|, t) && Written(b, c, at, s)
    ensures Written(a, c, at, s + t)
  {
    assert b[..at] == a[..at];
    assert b[at + |s|..] == t + a[at + |s| + |t|..];
  }

  lemma WrittenNothing(a: seq<char>, at: nat)
    requires at <= |a|
    ensures Written(a, a, at, "")
  {
  }

  lemma WrittenAt(a: seq<char>, b: seq<char>, at: nat, text: string)
    requires Written(a, b, at, text)
    ensures |b| == |a| && b[at..at + |text|] == text && b[..at] == a[..at]
  {
  }

  method PutChar(buf: array<char>, at: nat, c: char)
    requires at < buf.Length
    modifies buf
    ensures Written(old(buf[..]), buf[..], at, [c])
  {
    buf[at] := c;
  }

  method PutText(buf: array<char>, at: nat, text: string)
    requires at + |text| <= buf.Length
    modifies buf
    ensures Written(old(buf[..]), buf[..], at, text)
  {
    ghost var was := buf[..];
    for i := 0 to |text|
      invariant Written(was, buf[..], at, text[..i])
    {
      hide Written;
      ghost var before := buf[..];
      PutChar(buf, at + i, text[i]);
      WrittenThen(was, before, buf[..], at, text[..i], [text[i]]);
      assert text[..i + 1] == text[..i] + [text[i]];
    }
    assert text[..|text|] == text;
  }

  ///// A given number of digits

  /** The last `len` digits of a number, written from the last to the first. */
  method PutDigits(buf: array<char>, at: nat, n: nat, radix: nat, len: nat)
    requires 2 <= radix <= 36 && at + len <= buf.Length
    modifies buf
    ensures AllBelow(DigitsOf(n, len, radix), 36)
    ensures Written(old(buf[..]), buf[..], at, Text(DigitsOf(n, len, radix)))
  {
    hide Written, DigitsOf;
    ghost var was, tail: Digits := buf[..], [];
    var i: int := len - 1;
    var rest: nat := n;
    NoDigitsYet(was, at + len, n, len, radix);
    while i >= 0
      invariant -1 <= i < len
      invariant AllBelow(tail, 36) && |tail| == len - 1 - i
      invariant DigitsOf(n, len, radix) == DigitsOf(rest, i + 1, radix) + tail
      invariant Written(was, buf[..], at + i + 1, Text(tail))
    {
      ghost var before := buf[..];
      QuotientNat(rest, radix);
      var digit := rest % radix;
      OneMoreDigit(rest, i, radix, tail);
      PutChar(buf, at + i, DigitChar(digit));
      OneText(digit, tail);
      WrittenBefore(was, before, buf[..], at + i, [DigitChar(digit)], Text(tail));
      tail := [digit] + tail;
      rest := rest / radix;
      i := i - 1;
    }
    NothingLeft(rest, radix, tail);
  }

  lemma OneText(digit: nat, tail: Digits)
    requires digit < 36 && AllBelow(tail, 36)
    ensures AllBelow([digit] + tail, 36) && Text([digit] + tail) == [DigitChar(digit)] + Text(tail)
  {
    assert Text([digit]) == [DigitChar(digit)];
    TextConcat([digit], tail);
  }

  lemma AllSmall(ds: Digits, radix: nat)
    requires radix <= 36 && AllBelow(ds, radix)
    ensures AllBelow(ds, 36)
  {
  }

  lemma OneMoreDigit(rest: nat, i: nat, radix: nat, tail: Digits)
    requires radix > 0
    ensures rest / radix >= 0
    ensures DigitsOf(rest, i + 1, radix) + tail == DigitsOf(rest / radix, i, radix) + ([rest % radix] + tail)
  {
    QuotientNat(rest, radix);
  }

  ///// As many digits as there are

  /** The number of digits of a number, at least one. */
  function CountDigits(n: nat, radix: nat): (k: nat)
    requires radix >= 2
    ensures k > 0
    decreases n
  {
    QuotientNat(n, radix);
    if n < radix then 1
    else
      SmallerQuotient(n, radix);
      CountDigits(n / radix, radix) + 1
  }

  lemma SmallerQuotient(n: nat, radix: nat)
    requires radix >= 2 && n >= radix
    ensures 0 < n / radix < n
  {
    DivModOf(n, radix);
    var q := n / radix;
    if q <= 0 {
      MulMono(q, 0, radix);
    } else {
      MulMono(2, radix, q);
    }
  }

  lemma {:induction false} CountIs(n: nat, radix: nat)
    requires radix >= 2
    ensures n < Pow(radix, CountDigits(n, radix))
    ensures n > 0 ==> Pow(radix, CountDigits(n, radix) - 1) <= n
    decreases n
  {
    PowSmall(radix);
    if n >= radix {
      SmallerQuotient(n, radix);
      CountIs(n / radix, radix);
      DivModOf(n, radix);
      var q, k := n / radix, CountDigits(n / radix, radix);
      MulMono(Pow(radix, k - 1), q, radix);
      MulMono(q + 1, Pow(radix, k), radix);
      MulDist(q, 1, radix);
      assert radix * Pow(radix, k) == Pow(radix, k) * radix && radix * Pow(radix, k - 1) == Pow(radix, k - 1) * radix;
    }
  }

  /** There is only one number of digits. */
  lemma CountOnly(n: nat, radix: nat, k: nat)
    requires radix >= 2 && k > 0 && Pow(radix, k - 1) <= n < Pow(radix, k)
    ensures CountDigits(n, radix) == k
  {
    hide Pow;
    PowPos(radix, k - 1);
    CountIs(n, radix);
    var j := CountDigits(n, radix);
    if j < k {
      PowMono(radix, j, k - 1);
    } else if k < j {
      PowMono(radix, k, j - 1);
    }
  }

  /** The digits of a number without leading zeros. */
  function AllDigits(n: nat, radix: nat): (ds: Digits)
    requires 2 <= radix <= 36
    ensures AllBelow(ds, radix) && AllBelow(ds, 36)
  {
    DigitsOf(n, CountDigits(n, radix), radix)
  }

  /** A decimal number below 2^32, by way of a local buffer of ten characters. */
  method PutU32(buf: array<char>, at: nat, n: Limb) returns (len: nat)
    requires at + 10 <= buf.Length
    modifies buf
    ensures len == CountDigits(n, 10) <= 10 && Written(old(buf[..]), buf[..], at, Text(AllDigits(n, 10)))
  {
    AtMostTen(n);
    var buf1 := new char[10](_ => ' ');
    var q := FillBack(buf1, n);
    len := 10 - q;
    PutText(buf, at, buf1[q..]);
  }

  /** Writes the digits of a number at the end of a buffer of ten characters. */
  method FillBack(buf1: array<char>, n: Limb) returns (q: nat)
    requires buf1.Length == 10
    modifies buf1
    ensures q == 10 - CountDigits(n, 10) >= 0 && buf1[q..] == Text(AllDigits(n, 10))
  {
    AtMostTen(n);
    q := 10;
    var rest: nat := n;
    ghost var tail: Digits, k := [], CountDigits(n, 10);
    assert DigitsOf(n, k, 10) == DigitsOf(rest, k, 10) + tail;
    while true
      invariant 0 < q <= 10 && rest <= n && k - |tail| == CountDigits(rest, 10) && |tail| == 10 - q && k <= 10
      invariant AllBelow(tail, 36) && DigitsOf(n, k, 10) == DigitsOf(rest, k - |tail|, 10) + tail
      invariant buf1[q..] == Text(tail)
      decreases rest
    {
      ghost var t0, j, before := tail, k - |tail| - 1, buf1[..];
      OneMoreDigit(rest, j, 10, tail);
      q := q - 1;
      var digit := rest % 10;
      buf1[q] := DigitChar(digit);
      TextConcat([digit], t0);
      assert Text([digit]) == [DigitChar(digit)];
      assert buf1[q..] == [DigitChar(digit)] + before[q + 1..];
      tail := [digit] + tail;
      rest := rest / 10;
      if rest == 0 {
        assert j == 0;
        break;
      }
    }
    assert tail == AllDigits(n, 10);
  }

  lemma AtMostTen(n: Limb)
    ensures CountDigits(n, 10) <= 10
  {
    CountIs(n, 10);
    assert Pow(10, 5) == 100000;
    PowAdd(10, 5, 5);
    if CountDigits(n, 10) > 10 {
      PowMono(10, 10, CountDigits(n, 10) - 1);
    }
  }

  const BILLION: nat := 1000000000

  lemma Billion()
    ensures Pow(10, 9) == BILLION
  {
  }

  /** A number at least a billion is its quotient followed by nine digits. */
  lemma SplitBillion(n: nat)
    requires n >= BILLION
    ensures CountDigits(n, 10) == CountDigits(n / BILLION, 10) + 9
    ensures AllDigits(n, 10) == AllDigits(n / BILLION, 10) + DigitsOf(n % BILLION, 9, 10)
  {
    Billion();
    hide Pow;
    var q := n / BILLION;
    CountIs(q, 10);
    var k := CountDigits(q, 10);
    PowAdd(10, k, 9);
    PowAdd(10, k - 1, 9);
    MulMono(Pow(10, k - 1), q, BILLION);
    MulMono(q + 1, Pow(10, k), BILLION);
    CountOnly(n, 10, k + 9);
    DigitsInGroups(n, k + 9, 9, 10);
  }

  /** A decimal number below 2^64. */
  method PutU64(buf: array<char>, at: nat, n: nat) returns (len: nat)
    requires at + 28 <= buf.Length && n < BASE * BASE
    modifies buf
    ensures len == CountDigits(n, 10) && Written(old(buf[..]), buf[..], at, Text(AllDigits(n, 10)))
  {
    hide AllDigits, CountDigits, Written;
    if n < BASE {
      len := PutU32(buf, at, n);
    } else {
      ghost var was := buf[..];
      var n1, low := n / BILLION, n % BILLION;
      SplitBillion(n);
      assert n1 < BASE * 5;
      len := PutHigh(buf, at, n1);
      ghost var mid := buf[..];
      PutDigits(buf, at + len, low, 10, 9);
      WrittenThen(was, mid, buf[..], at, Text(AllDigits(n1, 10)), Text(DigitsOf(low, 9, 10)));
      TextConcat(AllDigits(n1, 10), DigitsOf(low, 9, 10));
      len := len + 9;
    }
  }

  /** One or two digits. */
  method PutTwo(buf: array<char>, at: nat, n: nat) returns (len: nat)
    requires at + 2 <= buf.Length && n < 100
    modifies buf
    ensures len == CountDigits(n, 10) <= 2 && Written(old(buf[..]), buf[..], at, Text(AllDigits(n, 10)))
  {
    hide Written;
    SmallDigits(n);
    ghost var was := buf[..];
    if n >= 10 {
      PutChar(buf, at, DigitChar(n / 10));
      ghost var mid := buf[..];
      PutChar(buf, at + 1, DigitChar(n % 10));
      WrittenThen(was, mid, buf[..], at, [DigitChar(n / 10)], [DigitChar(n % 10)]);
      assert [DigitChar(n / 10)] + [DigitChar(n % 10)] == Text(AllDigits(n, 10));
      len := 2;
    } else {
      PutChar(buf, at, DigitChar(n));
      len := 1;
    }
  }

  /** The part of a number above its last nine digits. */
  method PutHigh(buf: array<char>, at: nat, n1: nat) returns (len: nat)
    requires at + 19 <= buf.Length && n1 < BASE * 5
    modifies buf
    ensures len == CountDigits(n1, 10) <= 11 && |AllDigits(n1, 10)| == len
    ensures Written(old(buf[..]), buf[..], at, Text(AllDigits(n1, 10)))
  {
    hide Written;
    if n1 >= BASE {
      ghost var was := buf[..];
      var n2, rest := n1 / BILLION, n1 % BILLION;
      SplitBillion(n1);
      ghost var two := AllDigits(n2, 10);
      var k := PutTwo(buf, at, n2);
      ghost var mid := buf[..];
      PutDigits(buf, at + k, rest, 10, 9);
      WrittenThen(was, mid, buf[..], at, Text(two), Text(DigitsOf(rest, 9, 10)));
      TextConcat(two, DigitsOf(rest, 9, 10));
      len := k + 9;
    } else {
      AtMostTen(n1);
      len := PutU32(buf, at, n1);
    }
  }

  lemma SmallDigits(n: nat)
    requires n < 100
    ensures AllDigits(n, 10) == if n >= 10 then [n / 10, n % 10] else [n]
    ensures n >= 10 ==> n / 10 < 10
    ensures Text(AllDigits(n, 10)) == if n >= 10 then [DigitChar(n / 10), DigitChar(n % 10)] else [DigitChar(n)]
  {
    if n >= 10 {
      assert CountDigits(n / 10, 10) == 1;
      assert DigitsOf(n, 2, 10) == DigitsOf(n / 10, 1, 10) + [n % 10];
      OneDigit(n / 10, 10);
    } else {
      OneDigit(n, 10);
    }
  }

  ///// The digits of a big number, with a dot

  function WithDot(text: string, k: nat): string
    requires k <= |text|
  {
    if k == |text| then text else text[..k] + "." + text[k..]
  }

  lemma ModOfMod(v: nat, radix: nat, n: nat, d: nat)
    requires radix > 0 && n <= d
    ensures Pow(radix, n) > 0 && Pow(radix, d) > 0 && (v % Pow(radix, d)) % Pow(radix, n) == v % Pow(radix, n)
  {
    hide Pow;
    PowPos(radix, n);
    PowPos(radix, d);
    PowAdd(radix, n, d - n);
    PowPos(radix, d - n);
    var x, y := Pow(radix, n), Pow(radix, d - n);
    DivTwice(v, x, y);
    DivModIs(v % (x * y), x, v / x % y, v % x);
  }

  /** One group of digits is written; the rest are those of the quotient. */
  lemma GroupStep(v: nat, left: nat, d: nat, n: nat, radix: nat, r: nat, v2: nat, tail: Digits)
    requires radix > 0 && d > 0 && n == (if left < d then left else d)
    requires Pow(radix, n) > 0 && r % Pow(radix, n) == v % Pow(radix, n)
    requires n == d ==> Pow(radix, d) > 0 && v2 == v / Pow(radix, d)
    ensures DigitsOf(v, left, radix) + tail == DigitsOf(v2, left - n, radix) + (DigitsOf(r, n, radix) + tail)
  {
    hide Pow;
    DigitsInGroups(v, left, n, radix);
    DigitsInGroups(r, n, n, radix);
    QuotientNat(v, Pow(radix, n));
    QuotientNat(r, Pow(radix, n));
    assert DigitsOf(r, n, radix) == DigitsOf(v % Pow(radix, n), n, radix) by {
      assert DigitsOf(r / Pow(radix, n), 0, radix) == [];
    }
    if left < d {
      assert DigitsOf(v / Pow(radix, n), 0, radix) == [] && DigitsOf(v2, 0, radix) == [];
    }
  }

  /** The lowest limb has the lowest digits. */
  lemma LowLimbDigits(s: seq<Limb>, radix: nat, bits: nat, n: nat)
    requires |s| > 0 && radix == Pow2(bits) && radix > 0 && Pow(radix, n) <= BASE && bits > 0
    ensures Pow(radix, n) > 0 && Val(s) % Pow(radix, n) == s[0] % Pow(radix, n)
  {
    hide Pow, Val, BasePow;
    PowPos(radix, n);
    PowOfPow(2, bits, n);
    AroundLimb(s, 0);
    BasePowStep(0);
    DivModIs(Val(s), 1, Val(s), 0);
    var j := bits * n;
    Pow2Of32();
    if j < BITS {
      LowBits(s[0], Val(s[1..]), j);
    } else {
      if j > BITS {
        PowStrict(2, BITS, j);
      }
      DivModIs(Val(s), BASE, Val(s[1..]), s[0]);
      DivModIs(s[0], BASE, 0, s[0]);
    }
  }

  /** One group of digits of a radix that is a power of two. */
  method PutGroupBits(buf: array<char>, at: nat, a: Mpb, radix: nat, bits: nat, n: nat)
    requires a.Valid() && 2 <= radix <= 36 && bits > 0 && radix == Pow2(bits) && Pow(radix, n) <= BASE &&
      at + n <= buf.Length
    modifies buf
    ensures a.Valid() && a.Value() == old(a.Value())
    ensures Pow(radix, n) > 0 && a.tab.Length > 0 && a.tab[0] % Pow(radix, n) == a.Value() % Pow(radix, n)
    ensures AllBelow(DigitsOf(a.tab[0], n, radix), 36) &&
      Written(old(buf[..]), buf[..], at, Text(DigitsOf(a.tab[0], n, radix)))
  {
    hide Pow, Val, Written;
    LowLimbDigits(a.tab[..a.len], radix, bits, n);
    PutDigits(buf, at, a.tab[0], radix, n);
  }

  lemma NoDigitsYet(was: seq<char>, at: nat, v: nat, n: nat, radix: nat)
    requires radix > 0 && at <= |was|
    ensures Written(was, was, at, Text([])) && DigitsOf(v, n, radix) == DigitsOf(v, n, radix) + []
  {
    WrittenNothing(was, at);
    assert Text([]) == "";
  }

  lemma NothingLeft(v: nat, radix: nat, tail: Digits)
    requires radix > 0
    ensures DigitsOf(v, 0, radix) + tail == tail
  {
  }

  lemma RoundedDown(v: nat, p: nat)
    requires p > 0
    ensures Rounded(v, p, TowardsZero) == v / p && v / p >= 0
  {
    QuotientNat(v, p);
  }

  lemma SmallerGroup(radix: nat, n: nat, d: nat)
    requires radix > 0 && n <= d && Pow(radix, d) <= BASE
    ensures Pow(radix, n) <= BASE
  {
    PowMono(radix, n, d);
  }

  /** The digits of a radix that is a power of two. */
  method PutBits(buf: array<char>, at: nat, a: Mpb, radix: nat, bits: nat, nDigits: nat)
    requires a.Valid() && 2 <= radix <= 36 && bits > 0 && radix == Pow2(bits) && nDigits > 0 &&
      at + nDigits <= buf.Length
    modifies buf, a, a.tab
    ensures AllBelow(DigitsOf(old(a.Value()), nDigits, radix), 36)
    ensures Written(old(buf[..]), buf[..], at, Text(DigitsOf(old(a.Value()), nDigits, radix)))
  {
    hide Pow, Val, Written, DigitsOf, DigitsPerLimb, Rounded, BasePow, Text;
    ghost var was, v0, tail: Digits := buf[..], a.Value(), [];
    var left, d := nDigits, DigitsPerLimb(radix);
    var groupBits := d * bits;
    ghost var base := Pow(radix, d);
    NoDigitsYet(was, at + nDigits, v0, nDigits, radix);
    PowOfPow(2, bits, d);
    assert bits * d == groupBits;
    MulPos(d, bits);
    while true
      invariant a.Valid() && 0 < left <= nDigits && AllBelow(tail, 36) && |tail| == nDigits - left
      invariant DigitsOf(v0, nDigits, radix) == DigitsOf(a.Value(), left, radix) + tail
      invariant Written(was, buf[..], at + left, Text(tail))
      decreases left
    {
      ghost var before, v := buf[..], a.Value();
      var n := if left < d then left else d;
      SmallerGroup(radix, n, d);
      left := left - n;
      PutGroupBits(buf, at + left, a, radix, bits, n);
      ghost var low: nat := a.tab[0];
      ghost var group := DigitsOf(low, n, radix);
      TextConcat(group, tail);
      WrittenBefore(was, before, buf[..], at + left, Text(group), Text(tail));
      RoundedDown(v, base);
      GroupStep(v, left + n, d, n, radix, low, v / base, tail);
      tail := group + tail;
      if left == 0 {
        NothingLeft(v / base, radix, tail);
        break;
      }
      a.ShiftDownRound(groupBits, TowardsZero);
    }
  }

  /** The digits of any other radix. */
  method PutByDivision(buf: array<char>, at: nat, a: Mpb, radix: nat, nDigits: nat)
    requires a.Valid() && 2 <= radix <= 36 && RadixBits(radix) == 0 && at + nDigits <= buf.Length
    modifies buf, a, a.tab
    ensures AllBelow(DigitsOf(old(a.Value()), nDigits, radix), 36)
    ensures Written(old(buf[..]), buf[..], at, Text(DigitsOf(old(a.Value()), nDigits, radix)))
  {
    hide Pow, Val, Written, DigitsOf, DigitsPerLimb, BasePow, Text, RadixBits;
    ghost var was, v0, tail: Digits := buf[..], a.Value(), [];
    var left, d := nDigits, DigitsPerLimb(radix);
    NoDigitsYet(was, at + nDigits, v0, nDigits, radix);
    while left != 0
      invariant a.Valid() && 0 <= left <= nDigits && AllBelow(tail, 36) && |tail| == nDigits - left
      invariant DigitsOf(v0, nDigits, radix) == DigitsOf(a.Value(), left, radix) + tail
      invariant Written(was, buf[..], at + left, Text(tail))
      decreases left
    {
      ghost var before, v := buf[..], a.Value();
      var n := if left < d then left else d;
      left := left - n;
      var r := DivideOut(a, radix);
      ModOfMod(v, radix, n, d);
      PutDigits(buf, at + left, r, radix, n);
      ghost var group := DigitsOf(r, n, radix);
      TextConcat(group, tail);
      WrittenBefore(was, before, buf[..], at + left, Text(group), Text(tail));
      GroupStep(v, left + n, d, n, radix, r, a.Value(), tail);
      tail := group + tail;
    }
    NothingLeft(a.Value(), radix, tail);
  }

  /** Divides by the base of a radix. */
  method DivideOut(a: Mpb, radix: nat) returns (r: Limb)
    requires a.Valid() && 2 <= radix <= 36 && RadixBits(radix) == 0
    modifies a, a.tab
    ensures a.Valid() && Pow(radix, DigitsPerLimb(radix)) > 0
    ensures a.Value() == old(a.Value()) / Pow(radix, DigitsPerLimb(radix))
    ensures r == old(a.Value()) % Pow(radix, DigitsPerLimb(radix))
  {
    hide Pow, Val, DigitsPerLimb, BasePow;
    ghost var v, n := a.Value(), a.len;
    var b := RadixBase(radix);
    assert b != 0 by {
      OddBase(radix);
    }
    r := DivLimb(a.tab, a.len, b, 0);
    assert 0 * BasePow(n) == 0;
    DivModIs(v, b, Val(a.tab[..n]), r);
    a.Renorm();
  }

  lemma OddBase(radix: nat)
    requires 2 <= radix <= 36 && RadixBits(radix) == 0
    ensures Pow(radix, DigitsPerLimb(radix)) < BASE
  {
    hide Pow;
    var d := DigitsPerLimb(radix);
  }

  /** Makes room for the dot. */
  method InsertDot(buf: array<char>, at: nat, n: nat, k: nat, ghost was: seq<char>, ghost text: string)
    requires |text| == n && k < n && at + n + 1 <= buf.Length == |was| && Written(was, buf[..], at, text)
    modifies buf
    ensures Written(was, buf[..], at, WithDot(text, k))
  {
    ghost var s := buf[..];
    var i: int := n - 1;
    while i >= k
      invariant k - 1 <= i < n
      invariant forall j :: at + i + 1 < j <= at + n ==> buf[j] == s[j - 1]
      invariant forall j :: 0 <= j <= at + i + 1 ==> buf[j] == s[j]
      invariant forall j :: at + n < j < buf.Length ==> buf[j] == s[j]
    {
      buf[at + i + 1] := buf[at + i];
      i := i - 1;
    }
    buf[at + k] := '.';
    DotInserted(was, s, buf[..], at, n, k, text);
  }

  lemma DotInserted(was: seq<char>, s: seq<char>, t: seq<char>, at: nat, n: nat, k: nat, text: string)
    requires |text| == n && k < n && at + n + 1 <= |s| == |t| == |was| && Written(was, s, at, text)
    requires forall j :: at + k < j <= at + n ==> t[j] == s[j - 1]
    requires forall j :: 0 <= j < at + k ==> t[j] == s[j]
    requires forall j :: at + n < j < |t| ==> t[j] == s[j]
    requires t[at + k] == '.'
    ensures Written(was, t, at, WithDot(text, k))
  {
    var u := was[..at] + WithDot(text, k) + was[at + n + 1..];
    forall j | 0 <= j < |t|
      ensures t[j] == u[j]
    {
      if j < at {
        assert s[j] == was[j];
      } else if j < at + k {
        assert s[j] == text[j - at];
      } else if at + k < j <= at + n {
        assert s[j - 1] == text[j - 1 - at];
      } else if at + n < j {
        assert s[j] == was[j];
      }
    }
    assert t == u;
  }

  /** Writes `nDigits` digits of the number, with a dot after the first `dotPos` unless it would come last. */
  method OutputDigits(buf: array<char>, at: nat, a: Mpb, radix: nat, nDigits: nat, dotPos: nat) returns (len: nat)
    requires a.Valid() && 2 <= radix <= 36 && nDigits > 0 && dotPos <= nDigits && at + nDigits + 1 <= buf.Length
    modifies buf, a, a.tab
    ensures AllBelow(DigitsOf(old(a.Value()), nDigits, radix), 36)
    ensures len == |WithDot(Text(DigitsOf(old(a.Value()), nDigits, radix)), dotPos)|
    ensures Written(old(buf[..]), buf[..], at, WithDot(Text(DigitsOf(old(a.Value()), nDigits, radix)), dotPos))
  {
    hide Pow, Val, Written, DigitsOf, RadixBits;
    ghost var was, v := buf[..], a.Value();
    var bits := RadixBits(radix);
    if bits != 0 {
      PutBits(buf, at, a, radix, bits, nDigits);
    } else {
      PutByDivision(buf, at, a, radix, nDigits);
    }
    len := nDigits;
    if dotPos != nDigits {
      InsertDot(buf, at, nDigits, dotPos, was, Text(DigitsOf(v, nDigits, radix)));
      len := len + 1;
    }
  }
}
