/** UTF-8 and UTF-16 (`utf8_*` of cutils.h): UTF-8 as in section 3 of RFC 3629, extended to surrogates on their own. */
module Utf8 {
  import opened Surrogates

  type Byte = b: int | 0 <= b <= 0xff

  const REPLACEMENT := 0xFFFD
  const MAX_CODE := 0x10FFFF

  ///// One code point

  function EncodeLen(c: nat): (n: nat)
    ensures 1 <= n <= 4
  {
    if c < 0x80 then 1 else if c < 0x800 then 2 else if c < 0x10000 then 3 else if c < 0x110000 then 4 else 3
  }

  function EncodeChar(c: nat): (s: seq<Byte>)
    ensures |s| == EncodeLen(c)
  {
    if c < 0x80 then [c]
    else if c < 0x800 then [c / 0x40 + 0xC0, c % 0x40 + 0x80]
    else if c < 0x10000 then [c / 0x1000 + 0xE0, c / 0x40 % 0x40 + 0x80, c % 0x40 + 0x80]
    else if c < 0x110000 then [c / 0x40000 + 0xF0, c / 0x1000 % 0x40 + 0x80, c / 0x40 % 0x40 + 0x80, c % 0x40 + 0x80]
    else [0xEF, 0xBF, 0xBD]
  }

  datatype Char = Char(code: nat, len: nat)

  predicate Continues(b: int, lower: int, upper: int) {
    lower <= b <= upper
  }

  function Bits2(b0: int, b1: int): int {
    (b0 - 0xC0) * 0x40 + (b1 - 0x80)
  }

  function Bits3(b0: int, b1: int, b2: int): int {
    (b0 - 0xE0) * 0x1000 + (b1 - 0x80) * 0x40 + (b2 - 0x80)
  }

  function Bits4(b0: int, b1: int, b2: int, b3: int): int {
    (b0 - 0xF0) * 0x40000 + (b1 - 0x80) * 0x1000 + (b2 - 0x80) * 0x40 + (b3 - 0x80)
  }

  const ERROR := Char(REPLACEMENT, 1)

  function Decode3(b0: int, b1: int, b2: int): (c: Char)
    requires 0xE0 <= b0 <= 0xEF
    ensures c == ERROR || (c.len == 3 && 0x800 <= c.code <= 0xFFFF)
  {
    var lower := if b0 == 0xE0 then 0xA0 else 0x80;
    if Continues(b1, lower, 0xBF) && Continues(b2, 0x80, 0xBF) then Char(Bits3(b0, b1, b2), 3) else ERROR
  }

  function Decode4(b0: int, b1: int, b2: int, b3: int): (c: Char)
    requires 0xF0 <= b0 <= 0xF4
    ensures c == ERROR || (c.len == 4 && 0x10000 <= c.code <= MAX_CODE)
  {
    var lower, upper := if b0 == 0xF0 then 0x90 else 0x80, if b0 == 0xF4 then 0x8F else 0xBF;
    if Continues(b1, lower, upper) && Continues(b2, 0x80, 0xBF) && Continues(b3, 0x80, 0xBF) then
      Char(Bits4(b0, b1, b2, b3), 4)
    else ERROR
  }

  /** The code point at the start of some bytes; an error is one byte long. */
  function DecodeChar(s: seq<Byte>): (c: Char)
    requires |s| > 0
    ensures 1 <= c.len <= |s| && c.len <= 4 && c.code <= MAX_CODE
    ensures s[0] < 0x80 ==> c == Char(s[0], 1)
    ensures s[0] >= 0x80 && c.len == 1 ==> c == ERROR
    ensures c.code > 0xFFFF ==> c.len == 4
  {
    var b := s[0];
    if b < 0x80 then Char(b, 1)
    else if |s| == 1 || (|s| == 2 && b >= 0xE0) || (|s| == 3 && b >= 0xF0) then ERROR
    else if 0xC2 <= b <= 0xDF then if Continues(s[1], 0x80, 0xBF) then Char(Bits2(b, s[1]), 2) else ERROR
    else if 0xE0 <= b <= 0xEF then Decode3(b, s[1], s[2])
    else if 0xF0 <= b <= 0xF4 then Decode4(b, s[1], s[2], s[3])
    else ERROR
  }

  lemma Encoded3(c: nat)
    requires 0x800 <= c < 0x10000
    ensures var b0, b1, b2 := c / 0x1000 + 0xE0, c / 0x40 % 0x40 + 0x80, c % 0x40 + 0x80;
      0xE0 <= b0 <= 0xEF && Decode3(b0, b1, b2) == Char(c, 3)
  {
    assert c / 0x40 / 0x40 == c / 0x1000;
  }

  lemma Encoded4(c: nat)
    requires 0x10000 <= c <= MAX_CODE
    ensures var b0, b1, b2, b3 := c / 0x40000 + 0xF0, c / 0x1000 % 0x40 + 0x80, c / 0x40 % 0x40 + 0x80, c % 0x40 + 0x80;
      0xF0 <= b0 <= 0xF4 && Decode4(b0, b1, b2, b3) == Char(c, 4)
  {
    assert c / 0x40 / 0x40 == c / 0x1000 && c / 0x1000 / 0x40 == c / 0x40000;
  }

  /** Every code point survives, surrogates included, whatever follows it. */
  lemma DecodeEncode(c: nat, rest: seq<Byte>)
    requires c <= MAX_CODE
    ensures DecodeChar(EncodeChar(c) + rest) == Char(c, EncodeLen(c))
  {
    hide Decode3, Decode4;
    var s := EncodeChar(c) + rest;
    if c < 0x80 {
    } else if c < 0x800 {
      assert s[0] == c / 0x40 + 0xC0 && s[1] == c % 0x40 + 0x80;
    } else if c < 0x10000 {
      Encoded3(c);
      assert s[0] == c / 0x1000 + 0xE0 && s[1] == c / 0x40 % 0x40 + 0x80 && s[2] == c % 0x40 + 0x80;
    } else {
      Encoded4(c);
      assert s[0] == c / 0x40000 + 0xF0 && s[1] == c / 0x1000 % 0x40 + 0x80;
      assert s[2] == c / 0x40 % 0x40 + 0x80 && s[3] == c % 0x40 + 0x80;
    }
  }

  lemma Decoded3(b0: int, b1: int, b2: int)
    requires 0xE0 <= b0 <= 0xEF && Decode3(b0, b1, b2).len == 3
    ensures var c := Decode3(b0, b1, b2).code;
      b0 == c / 0x1000 + 0xE0 && b1 == c / 0x40 % 0x40 + 0x80 && b2 == c % 0x40 + 0x80
  {
    var c := Decode3(b0, b1, b2).code;
    assert c / 0x40 == (b0 - 0xE0) * 0x40 + (b1 - 0x80);
  }

  lemma Decoded4(b0: int, b1: int, b2: int, b3: int)
    requires 0xF0 <= b0 <= 0xF4 && Decode4(b0, b1, b2, b3).len == 4
    ensures var c := Decode4(b0, b1, b2, b3).code;
      b0 == c / 0x40000 + 0xF0 && b1 == c / 0x1000 % 0x40 + 0x80 && b2 == c / 0x40 % 0x40 + 0x80 &&
      b3 == c % 0x40 + 0x80
  {
    var c := Decode4(b0, b1, b2, b3).code;
    assert c / 0x40 == (b0 - 0xF0) * 0x1000 + (b1 - 0x80) * 0x40 + (b2 - 0x80);
    assert c / 0x1000 == (b0 - 0xF0) * 0x40 + (b1 - 0x80);
  }

  /** What decodes without an error is the encoding of the result: no shorter or longer form is accepted. */
  lemma EncodeDecode(s: seq<Byte>)
    requires |s| > 0 && (s[0] < 0x80 || DecodeChar(s).len > 1)
    ensures var c := DecodeChar(s); EncodeChar(c.code) == s[..c.len]
  {
    hide Decode3, Decode4, Bits3, Bits4;
    var c := DecodeChar(s);
    if c.len == 1 {
      assert s[..1] == [s[0]];
    } else if c.len == 2 {
      assert s[..2] == [s[0], s[1]];
    } else if c.len == 3 {
      Decoded3(s[0], s[1], s[2]);
      assert s[..3] == [s[0], s[1], s[2]];
    } else {
      Decoded4(s[0], s[1], s[2], s[3]);
      assert s[..4] == [s[0], s[1], s[2], s[3]];
    }
  }

  ///// Strings of 16-bit units

  function HiSurrogate(c: nat): (u: Unit)
    requires 0x10000 <= c <= MAX_CODE
    ensures IsHiSurrogate(u)
  {
    c / 0x400 - 0x40 + 0xD800
  }

  function LoSurrogate(c: nat): (u: Unit)
    requires 0x10000 <= c <= MAX_CODE
    ensures IsLoSurrogate(u)
  {
    c % 0x400 + 0xDC00
  }

  function UnitsOf(c: nat): (u: seq<Unit>)
    requires c <= MAX_CODE
    ensures 1 <= |u| <= 2
  {
    if c > 0xFFFF then [HiSurrogate(c), LoSurrogate(c)] else [c]
  }

  /** The code point at the start of some units: a pair, or one unit, be it a surrogate. */
  function FirstChar(u: seq<Unit>): (c: Char)
    requires |u| > 0
    ensures 1 <= c.len <= 2 && c.len <= |u| && c.code <= MAX_CODE && (c.len == 2 <==> c.code > 0xFFFF)
  {
    if IsHiSurrogate(u[0]) && |u| > 1 && IsLoSurrogate(u[1]) then Char(FromSurrogate(u[0], u[1]), 2) else Char(u[0], 1)
  }

  lemma FirstCharUnits(u: seq<Unit>)
    requires |u| > 0
    ensures UnitsOf(FirstChar(u).code) == u[..FirstChar(u).len]
  {
    var c := FirstChar(u);
    if c.len == 2 {
      assert u[..2] == [u[0], u[1]];
    } else {
      assert u[..1] == [u[0]];
    }
  }

  ghost function Encoded(u: seq<Unit>): seq<Byte> {
    if u == [] then [] else
      var c := FirstChar(u);
      EncodeChar(c.code) + Encoded(u[c.len..])
  }

  ghost function Decoded(s: seq<Byte>): seq<Unit> {
    if s == [] then [] else
      var c := DecodeChar(s);
      UnitsOf(c.code) + Decoded(s[c.len..])
  }

  /** Every sequence of 16-bit units survives, lone surrogates included. */
  lemma {:induction false} DecodedEncoded(u: seq<Unit>)
    ensures Decoded(Encoded(u)) == u
    decreases |u|
  {
    hide DecodeChar, EncodeChar, FirstChar, UnitsOf;
    if u != [] {
      var c := FirstChar(u);
      var rest := Encoded(u[c.len..]);
      DecodeEncode(c.code, rest);
      FirstCharUnits(u);
      DecodedEncoded(u[c.len..]);
      assert (EncodeChar(c.code) + rest)[EncodeLen(c.code)..] == rest;
      assert u == u[..c.len] + u[c.len..];
    }
  }

  ///// Where a buffer is

  /** The bytes read so far, and what they gave. */
  ghost predicate DecodedSoFar(s: seq<Byte>, p: nat, out: seq<Unit>) {
    p <= |s| && Decoded(s) == out + Decoded(s[p..])
  }

  lemma DecodeStep(s: seq<Byte>, p: nat, out: seq<Unit>)
    requires DecodedSoFar(s, p, out) && p < |s|
    ensures var c := DecodeChar(s[p..]); DecodedSoFar(s, p + c.len, out + UnitsOf(c.code))
  {
    var c := DecodeChar(s[p..]);
    assert s[p..][c.len..] == s[p + c.len..];
  }

  function Min(a: nat, b: nat): nat {
    if a < b then a else b
  }

  /** The buffer holds the beginning of a text, as much as there is room for. */
  ghost predicate HoldsPrefix(now: seq<Unit>, was: seq<Unit>, room: nat, out: seq<Unit>) {
    |now| == |was| && room <= |was| && now[..Min(|out|, room)] == out[..Min(|out|, room)] &&
    now[Min(|out|, room)..] == was[Min(|out|, room)..]
  }

  method StoreUnit(dest: array<Unit>, destLen: nat, i: nat, u: Unit, ghost was: seq<Unit>, ghost out: seq<Unit>)
    requires HoldsPrefix(dest[..], was, destLen, out) && i == |out|
    modifies dest
    ensures HoldsPrefix(dest[..], was, destLen, out + [u])
  {
    ghost var s, n := dest[..], Min(|out|, destLen);
    if i < destLen {
      dest[i] := u;
      assert dest[..|out| + 1] == s[..|out|] + [u];
      assert dest[|out| + 1..] == s[|out|..][1..] == was[|out|..][1..] == was[|out| + 1..];
      assert (out + [u])[..|out| + 1] == out + [u] && out[..|out|] == out;
    } else {
      assert (out + [u])[..destLen] == out[..destLen];
    }
  }

  /** Decodes into 16-bit units: the number of units, of which as many are stored as there is room for. */
  method DecodeBuf16(dest: array<Unit>, destLen: nat, src: seq<Byte>) returns (i: nat)
    requires destLen <= dest.Length
    modifies dest
    ensures i == |Decoded(src)| && HoldsPrefix(dest[..], old(dest[..]), destLen, Decoded(src))
  {
    hide Decoded, HoldsPrefix, DecodeChar, UnitsOf;
    ghost var was, out: seq<Unit> := dest[..], [];
    var p := 0;
    i := 0;
    NothingDecoded(src, was, destLen);
    while p < |src|
      invariant p <= |src| && i == |out|
      invariant DecodedSoFar(src, p, out) && HoldsPrefix(dest[..], was, destLen, out)
      decreases |src| - p
    {
      DecodeStep(src, p, out);
      var d := DecodeChar(src[p..]);
      var c, next := d.code, p + d.len;
      if src[p] < 0x80 {
        c, next := src[p], p + 1;
      }
      AsciiIsItself(src[p..], c, next - p);
      UnitsAre(c);
      if c > 0xFFFF {
        StoreUnit(dest, destLen, i, HiSurrogate(c), was, out);
        out := out + [HiSurrogate(c)];
        i := i + 1;
        StoreUnit(dest, destLen, i, LoSurrogate(c), was, out);
        out := out + [LoSurrogate(c)];
      } else {
        StoreUnit(dest, destLen, i, c, was, out);
        out := out + [c];
      }
      p := next;
      i := i + 1;
    }
    AllDecoded(src, out);
  }

  lemma NothingDecoded(s: seq<Byte>, was: seq<Unit>, room: nat)
    requires room <= |was|
    ensures DecodedSoFar(s, 0, []) && HoldsPrefix(was, was, room, [])
  {
    assert s[0..] == s && [] + Decoded(s) == Decoded(s);
  }

  lemma AllDecoded(s: seq<Byte>, out: seq<Unit>)
    requires DecodedSoFar(s, |s|, out)
    ensures out == Decoded(s)
  {
    assert s[|s|..] == [];
  }

  lemma AsciiIsItself(s: seq<Byte>, c: nat, len: nat)
    requires |s| > 0
    requires if s[0] < 0x80 then c == s[0] && len == 1 else c == DecodeChar(s).code && len == DecodeChar(s).len
    ensures c == DecodeChar(s).code && len == DecodeChar(s).len && c <= MAX_CODE && 1 <= len <= |s|
  {
  }

  lemma UnitsAre(c: nat)
    requires c <= MAX_CODE
    ensures c > 0xFFFF ==> forall out: seq<Unit> :: out + UnitsOf(c) == (out + [HiSurrogate(c)]) + [LoSurrogate(c)]
    ensures c <= 0xFFFF ==> UnitsOf(c) == [c]
  {
  }

  ///// Encoding

  /** The units read so far, and what they gave. */
  ghost predicate EncodedSoFar(u: seq<Unit>, i: nat, out: seq<Byte>) {
    i <= |u| && Encoded(u) == out + Encoded(u[i..])
  }

  lemma EncodeStep(u: seq<Unit>, i: nat, out: seq<Byte>)
    requires EncodedSoFar(u, i, out) && i < |u|
    ensures var c := FirstChar(u[i..]); EncodedSoFar(u, i + c.len, out + EncodeChar(c.code))
    ensures |Encoded(u[i..])| == EncodeLen(FirstChar(u[i..]).code) + |Encoded(u[i + FirstChar(u[i..]).len..])|
  {
    hide EncodeChar, EncodeLen, FirstChar;
    var c := FirstChar(u[i..]);
    assert u[i..][c.len..] == u[i + c.len..];
  }

  lemma EncodeBegins(u: seq<Unit>)
    ensures EncodedSoFar(u, 0, [])
  {
    assert u[0..] == u && [] + Encoded(u) == Encoded(u);
  }

  lemma EncodeEnds(u: seq<Unit>, out: seq<Byte>)
    requires EncodedSoFar(u, |u|, out)
    ensures out == Encoded(u)
  {
    assert u[|u|..] == [];
  }

  /** The code point of some units, read as the loops do. */
  method ReadChar(src: seq<Unit>, i: nat) returns (c: nat, next: nat)
    requires i < |src|
    ensures var f := FirstChar(src[i..]); c == f.code && next == i + f.len
    ensures i < next <= |src| && c <= MAX_CODE && (next == i + 2 <==> c > 0xFFFF)
  {
    c, next := src[i], i + 1;
    assert src[i..][0] == src[i];
    if c >= 0x80 && IsHiSurrogate(c) && next < |src| && IsLoSurrogate(src[next]) {
      assert src[i..][1] == src[next];
      c, next := FromSurrogate(c, src[next]), next + 1;
    } else if next < |src| {
      assert src[i..][1] == src[next];
    }
  }

  /** Writes the bytes of a code point. */
  method PutChar(dest: array<Byte>, j: nat, c: nat, ghost out: seq<Byte>) returns (n: nat)
    requires j + EncodeLen(c) <= dest.Length && dest[..j] == out && |out| == j
    modifies dest
    ensures n == EncodeLen(c) && dest[..j + n] == out + EncodeChar(c)
  {
    hide EncodeChar;
    var bytes := EncodeChar(c);
    n := |bytes|;
    for k := 0 to n
      invariant dest[..j + k] == out + bytes[..k]
    {
      dest[j + k] := bytes[k];
      assert dest[..j + k + 1] == dest[..j + k] + [bytes[k]];
      assert bytes[..k + 1] == bytes[..k] + [bytes[k]];
    }
    assert bytes[..n] == bytes;
  }

  /** The buffer ends with a zero after as many whole characters as there is room for; `k` units were encoded. */
  ghost predicate Cut(now: seq<Byte>, room: nat, u: seq<Unit>, k: nat, w: nat) {
    k < |u| && w + |Encoded(u[k..])| == |Encoded(u)| && w <= |now| && now[..w] == Encoded(u)[..w] &&
    w + EncodeLen(FirstChar(u[k..]).code) >= room && (w < room ==> w < |now| && now[w] == 0)
  }

  /** Encodes 16-bit units: the number of bytes of the whole text; what does not fit is left out. */
  method EncodeBuf16(dest: array<Byte>, destLen: nat, src: seq<Unit>) returns (j: nat, ghost k: nat, ghost w: nat)
    requires destLen <= dest.Length
    modifies dest
    ensures j == |Encoded(src)|
    ensures j < destLen ==> dest[..j] == Encoded(src) && dest[j] == 0
    ensures j >= destLen && src != [] ==> Cut(dest[..], destLen, src, k, w)
  {
    hide Encoded, EncodeChar, FirstChar, EncodedSoFar;
    var i := 0;
    ghost var out: seq<Byte> := [];
    j, k, w := 0, 0, 0;
    EncodeBegins(src);
    while i < |src|
      invariant i <= |src| && j == |out| && (j < destLen || j == 0) && j <= dest.Length
      invariant EncodedSoFar(src, i, out) && dest[..j] == out
      decreases |src| - i
    {
      EncodeStep(src, i, out);
      var c, next := ReadChar(src, i);
      if j + EncodeLen(c) >= destLen {
        k, w := i, j;
        StoredSoFar(src, i, out);
        if j < destLen {
          dest[j] := 0;
        }
        assert dest[..][..w] == out;
        j := CountRest(src, i, j);
        return;
      }
      var n := PutChar(dest, j, c, out);
      out := out + EncodeChar(c);
      i := next;
      j := j + n;
    }
    EncodeEnds(src, out);
    if j < destLen {
      dest[j] := 0;
      assert dest[..j] == out;
    } else {
      NothingToEncode(src, out);
    }
  }

  lemma NothingToEncode(u: seq<Unit>, out: seq<Byte>)
    requires out == Encoded(u) && out == []
    ensures u == []
  {
    assert u != [] ==> |Encoded(u)| > 0;
  }

  lemma StoredSoFar(u: seq<Unit>, i: nat, out: seq<Byte>)
    requires EncodedSoFar(u, i, out)
    ensures |out| + |Encoded(u[i..])| == |Encoded(u)| && Encoded(u)[..|out|] == out
  {
  }

  /** Counts the bytes of the rest. */
  method CountRest(src: seq<Unit>, i0: nat, j0: nat) returns (j: nat)
    requires i0 <= |src|
    ensures j == j0 + |Encoded(src[i0..])|
  {
    hide Encoded, EncodeChar, FirstChar, EncodeLen;
    var i := i0;
    j := j0;
    while i < |src|
      invariant i <= |src| && j + |Encoded(src[i..])| == j0 + |Encoded(src[i0..])|
      decreases |src| - i
    {
      RestStep(src, i);
      var c, next := ReadChar(src, i);
      j := j + EncodeLen(c);
      i := next;
    }
    NothingRests(src);
  }

  lemma RestStep(u: seq<Unit>, i: nat)
    requires i < |u|
    ensures |Encoded(u[i..])| == EncodeLen(FirstChar(u[i..]).code) + |Encoded(u[i + FirstChar(u[i..]).len..])|
  {
    hide EncodeChar, EncodeLen, FirstChar;
    var c := FirstChar(u[i..]);
    assert u[i..][c.len..] == u[i + c.len..];
  }

  lemma NothingRests(u: seq<Unit>)
    ensures Encoded(u[|u|..]) == []
  {
  }

  /** Encoding into a buffer with enough room and decoding again gives back the units. */
  method ThereAndBack(src: seq<Unit>, bytes: array<Byte>, units: array<Unit>) returns (n: nat)
    requires bytes.Length > |Encoded(src)| && units.Length >= |src|
    modifies bytes, units
    ensures n == |src| && units[..n] == src
  {
    hide Encoded, Decoded;
    ghost var k, w;
    var j;
    j, k, w := EncodeBuf16(bytes, bytes.Length, src);
    var text := bytes[..j];
    DecodedEncoded(src);
    n := DecodeBuf16(units, units.Length, text);
  }

  ///// Scanning

  /** What a scan reports besides the length: code points from 0x80, from 0x100, from 0x10000, and errors. */
  datatype Kind = Kind(nonAscii: bool, has16Bit: bool, hasNonBmp1: bool, hasErrors: bool)

  /** The same, character by character. */
  ghost function KindOf(s: seq<Byte>): Kind {
    if s == [] then Kind(false, false, false, false) else
      var c := DecodeChar(s);
      var k := KindOf(s[c.len..]);
      Kind(k.nonAscii || s[0] >= 0x80, k.has16Bit || c.code > 0xFF, k.hasNonBmp1 || c.code > 0xFFFF,
        k.hasErrors || (s[0] >= 0x80 && c.len == 1))
  }

  ghost predicate Ascii(s: seq<Byte>) {
    forall i :: 0 <= i < |s| ==> s[i] < 0x80
  }

  lemma {:induction false} AsciiText(s: seq<Byte>)
    requires Ascii(s)
    ensures |Decoded(s)| == |s| && KindOf(s) == Kind(false, false, false, false)
  {
    if s != [] {
      AsciiText(s[1..]);
    }
  }

  /** A text that is not plain has a character that is not. */
  lemma {:induction false} NotAscii(s: seq<Byte>)
    requires !Ascii(s)
    ensures KindOf(s).nonAscii
    decreases |s|
  {
    if s[0] < 0x80 {
      var i :| 0 <= i < |s| && s[i] >= 0x80;
      assert s[1..][i - 1] == s[i];
      NotAscii(s[1..]);
    }
  }

  ghost predicate Scanned(s: seq<Byte>, p: nat, len: nat, k: Kind) {
    p <= |s| && |Decoded(s)| == len + |Decoded(s[p..])| &&
    var rest := KindOf(s[p..]); var all := KindOf(s);
    all.has16Bit == (k.has16Bit || rest.has16Bit) && all.hasNonBmp1 == (k.hasNonBmp1 || rest.hasNonBmp1) &&
    all.hasErrors == (k.hasErrors || rest.hasErrors)
  }

  lemma ScanStep(s: seq<Byte>, p: nat, len: nat, k: Kind)
    requires Scanned(s, p, len, k) && p < |s|
    ensures var c := DecodeChar(s[p..]);
      Scanned(s, p + c.len, len + (if c.code > 0xFFFF then 2 else 1),
        Kind(k.nonAscii, k.has16Bit || c.code > 0xFF, k.hasNonBmp1 || c.code > 0xFFFF,
          k.hasErrors || (s[p] >= 0x80 && c.len == 1)))
  {
    hide DecodeChar;
    var c := DecodeChar(s[p..]);
    assert s[p..][c.len..] == s[p + c.len..] && s[p..][0] == s[p];
  }

  /** The number of 16-bit units that the text decodes to, and what kinds of characters it has. */
  method Scan(s: seq<Byte>) returns (len: nat, kind: Kind)
    ensures len == |Decoded(s)| && kind == KindOf(s)
  {
    hide Decoded, KindOf, DecodeChar, Scanned;
    var high := false;
    for i := 0 to |s|
      invariant high <==> exists k :: 0 <= k < i && s[k] >= 0x80
    {
      high := high || s[i] >= 0x80;
    }
    kind := Kind(false, false, false, false);
    len := |s|;
    if !high {
      AsciiText(s);
      return;
    }
    NotAscii(s);
    var p := 0;
    kind, len := Kind(true, false, false, false), 0;
    ScanBegins(s);
    while p < |s|
      invariant p <= |s| && kind.nonAscii && Scanned(s, p, len, kind)
      decreases |s| - p
    {
      ScanStep(s, p, len, kind);
      len := len + 1;
      var d := DecodeChar(s[p..]);
      assert s[p..][0] == s[p];
      if s[p] >= 0x80 {
        var hasErrors, has16Bit, hasNonBmp1 := kind.hasErrors || d.len == 1, kind.has16Bit, kind.hasNonBmp1;
        if d.code > 0xFF {
          has16Bit := true;
          if d.code > 0xFFFF {
            len := len + 1;
            hasNonBmp1 := true;
          }
        }
        kind := Kind(true, has16Bit, hasNonBmp1, hasErrors);
        p := p + d.len;
      } else {
        p := p + 1;
      }
    }
    ScanEnds(s, len, kind);
  }

  lemma ScanBegins(s: seq<Byte>)
    ensures Scanned(s, 0, 0, Kind(true, false, false, false))
  {
    assert s[0..] == s;
  }

  lemma ScanEnds(s: seq<Byte>, len: nat, k: Kind)
    requires Scanned(s, |s|, len, k) && k.nonAscii && KindOf(s).nonAscii
    ensures len == |Decoded(s)| && k == KindOf(s)
  {
    assert s[|s|..] == [];
  }
}
