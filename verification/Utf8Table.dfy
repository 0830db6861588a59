/** The bytes of UTF-8 as the table of section 3 of RFC 3629 gives them, with surrogates as code points of their own,
    and the pairs of UTF-16 as section 2.1 of RFC 2781 gives them. */
module Utf8Table {
  import opened Surrogates
  import opened Utf8

  ///// The table

  predicate Row1(s: seq<Byte>, c: nat) {
    |s| == 1 && s[0] <= 0x7F && c == s[0]
  }

  predicate Row2(s: seq<Byte>, c: nat) {
    |s| == 2 && 0xC2 <= s[0] <= 0xDF && Trails(s[1]) && c == 64 * (s[0] as int - 0xC0) + (s[1] - 0x80)
  }

  predicate Row3(s: seq<Byte>, c: nat) {
    |s| == 3 && 0xE0 <= s[0] <= 0xEF && Trails(s[1]) && Trails(s[2]) && (s[0] == 0xE0 ==> s[1] >= 0xA0) &&
    c == 4096 * (s[0] as int - 0xE0) + 64 * (s[1] as int - 0x80) + (s[2] - 0x80)
  }

  predicate Row4(s: seq<Byte>, c: nat) {
    |s| == 4 && 0xF0 <= s[0] <= 0xF4 && Trails(s[1]) && Trails(s[2]) && Trails(s[3]) &&
    (s[0] == 0xF0 ==> s[1] >= 0x90) && (s[0] == 0xF4 ==> s[1] <= 0x8F) &&
    c == 262144 * (s[0] as int - 0xF0) + 4096 * (s[1] as int - 0x80) + 64 * (s[2] as int - 0x80) + (s[3] - 0x80)
  }

  predicate Trails(b: int) {
    0x80 <= b <= 0xBF
  }

  predicate Table(s: seq<Byte>, c: nat) {
    Row1(s, c) || Row2(s, c) || Row3(s, c) || Row4(s, c)
  }

  ///// The encoder

  lemma EncodedInTable(c: nat)
    requires c <= 0x10FFFF
    ensures Table(EncodeChar(c), c)
  {
    if c < 0x800 {
    } else if c < 0x10000 {
      assert c / 0x40 / 0x40 == c / 0x1000;
      assert Row3(EncodeChar(c), c);
    } else {
      assert c / 0x40 / 0x40 == c / 0x1000 && c / 0x1000 / 0x40 == c / 0x40000;
      assert Row4(EncodeChar(c), c);
    }
  }

  /** No two rows have the same code point, and no row has it twice. */
  lemma TableOnce(s: seq<Byte>, t: seq<Byte>, c: nat)
    requires Table(s, c) && Table(t, c)
    ensures s == t
  {
  }

  /** The encoder writes the bytes of the table, and the table has no others. */
  lemma EncodeIsTable(c: nat, s: seq<Byte>)
    requires c <= 0x10FFFF
    ensures s == EncodeChar(c) <==> Table(s, c)
  {
    hide EncodeChar;
    EncodedInTable(c);
    if Table(s, c) {
      TableOnce(s, EncodeChar(c), c);
    }
  }

  ///// The decoder

  /** The decoder reads the bytes of the table from the start of a string, whatever follows. */
  lemma DecodeIsTable(s: seq<Byte>, n: nat, c: nat)
    requires 0 < n <= |s| && Table(s[..n], c)
    ensures DecodeChar(s) == Char(c, n)
  {
    var t := s[..n];
    assert forall i :: 0 <= i < n ==> t[i] == s[i];
  }

  /** It reads nothing else: what is not in the table is an error. */
  lemma TableOrError(s: seq<Byte>)
    requires |s| > 0
    ensures var d := DecodeChar(s); Table(s[..d.len], d.code) || d == Char(0xFFFD, 1)
  {
    hide Table;
    var d := DecodeChar(s);
    if s[0] < 0x80 || d.len > 1 {
      EncodeDecode(s);
      EncodedInTable(d.code);
    }
  }

  ///// The order

  /** The first byte that differs is smaller. */
  predicate Before(s: seq<Byte>, t: seq<Byte>) {
    s != [] && t != [] && (s[0] < t[0] || (s[0] == t[0] && Before(s[1..], t[1..])))
  }

  /** The bytes are ordered as the code points are. */
  lemma EncodeKeepsOrder(c: nat, d: nat)
    requires c < d <= 0x10FFFF
    ensures Before(EncodeChar(c), EncodeChar(d))
  {
    hide EncodeChar;
    EncodedInTable(c);
    EncodedInTable(d);
    TableKeepsOrder(EncodeChar(c), EncodeChar(d), c, d);
  }

  lemma TableKeepsOrder(s: seq<Byte>, t: seq<Byte>, c: nat, d: nat)
    requires Table(s, c) && Table(t, d) && c < d
    ensures Before(s, t)
  {
    if s[0] == t[0] {
      BeforeRest(s, t);
    }
  }

  lemma BeforeRest(s: seq<Byte>, t: seq<Byte>)
    requires |s| == |t| && |s| <= 4
    requires exists k :: 0 <= k < |s| && s[k] < t[k] && forall j :: 0 <= j < k ==> s[j] == t[j]
    ensures Before(s, t)
  {
  }

  ///// Pairs

  /** The pair of a code point from 0x10000 on. */
  lemma PairOf(c: nat, hi: int, lo: int)
    requires 0xD800 <= hi <= 0xDBFF && 0xDC00 <= lo <= 0xDFFF
    requires c == 0x10000 + 1024 * (hi - 0xD800) + (lo - 0xDC00)
    ensures IsHiSurrogate(hi) && IsLoSurrogate(lo) && FromSurrogate(hi, lo) == c <= 0x10FFFF
    ensures HiSurrogate(c) == hi && LoSurrogate(c) == lo && UnitsOf(c) == [hi, lo]
  {
  }
}
