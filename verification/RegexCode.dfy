/** The byte code of the regular-expression VM: instructions, their byte encoding
    with the real opcode numbers and sizes, and decoding. */
module RegexCode {
  type byte = b: int | 0 <= b < 0x100

  const TWO16 := 0x1_0000
  const TWO32 := 0x1_0000_0000
  const TWO31 := 0x8000_0000

  // Opcode numbers, in the order of libregexp-opcode.h
  const CHAR8: byte := 1
  const CHAR16: byte := 2
  const CHAR32: byte := 3
  const DOT: byte := 4
  const ANY: byte := 5
  const LINE_START: byte := 6
  const LINE_END: byte := 7
  const GOTO: byte := 8
  const SPLIT_GOTO_FIRST: byte := 9
  const SPLIT_NEXT_FIRST: byte := 10
  const MATCH: byte := 11
  const SAVE_START: byte := 12
  const SAVE_END: byte := 13
  const SAVE_RESET: byte := 14
  const LOOP: byte := 15
  const PUSH_I32: byte := 16
  const DROP: byte := 17
  const WORD_BOUNDARY: byte := 18
  const NOT_WORD_BOUNDARY: byte := 19
  const RANGE: byte := 22
  const RANGE32: byte := 23
  const LOOKAHEAD: byte := 24
  const NEGATIVE_LOOKAHEAD: byte := 25
  const PUSH_CHAR_POS: byte := 26
  const CHECK_ADVANCE: byte := 27
  const SIMPLE_GREEDY_QUANT: byte := 29

  /** Jump offsets are relative to the end of the jump's own offset field. */
  datatype Instr =
    | IChar8(c: int)
    | IChar16(c: int)
    | IChar32(c: int)
    | IDot
    | IAny
    | ILineStart
    | ILineEnd
    | IGoto(off: int)
    | ISplit(nextFirst: bool, off: int)
    | IMatch
    | ISave(atEnd: bool, group: int)
    | ISaveReset(first: int, last: int)
    | ILoop(off: int)
    | IPushI32(v: int)
    | IDrop
    | IWordBoundary(negated: bool)
    | IRange(pairs: seq<(int, int)>)
    | IRange32(pairs: seq<(int, int)>)
    | ILook(negated: bool, off: int)
    | IPushCharPos
    | ICheckAdvance
    | ISimpleGreedy(off: int, min: int, max: int, count: int)
    | IOther

  predicate Is16(v: int) { 0 <= v < TWO16 }
  predicate Is32(v: int) { 0 <= v < TWO32 }
  predicate IsOffset(v: int) { -TWO31 <= v < TWO31 }

  predicate PairsFit(pairs: seq<(int, int)>, bound: int) {
    forall k :: 0 <= k < |pairs| ==> 0 <= pairs[k].0 < bound && 0 <= pairs[k].1 < bound
  }

  /** The operands fit the fields of the encoding. */
  predicate Fits(i: Instr) {
    match i
    case IChar8(c) => 0 <= c < 0x100
    case IChar16(c) => Is16(c)
    case IChar32(c) => Is32(c)
    case IGoto(off) => IsOffset(off)
    case ISplit(_, off) => IsOffset(off)
    case ISave(_, g) => 0 <= g < 0x100
    case ISaveReset(a, b) => 0 <= a < 0x100 && 0 <= b < 0x100
    case ILoop(off) => IsOffset(off)
    case IPushI32(v) => Is32(v)
    case IRange(pairs) => Is16(|pairs|) && PairsFit(pairs, TWO16)
    case IRange32(pairs) => Is16(|pairs|) && PairsFit(pairs, TWO32)
    case ILook(_, off) => IsOffset(off)
    case ISimpleGreedy(off, min, max, count) => IsOffset(off) && Is32(min) && Is32(max) && Is32(count)
    case IOther => false
    case _ => true
  }

  function Size(i: Instr): (n: nat)
    ensures n >= 1
  {
    match i
    case IChar8(_) => 2
    case IChar16(_) => 3
    case IChar32(_) => 5
    case IGoto(_) => 5
    case ISplit(_, _) => 5
    case ISave(_, _) => 2
    case ISaveReset(_, _) => 3
    case ILoop(_) => 5
    case IPushI32(_) => 5
    case IRange(pairs) => 3 + 4 * |pairs|
    case IRange32(pairs) => 3 + 8 * |pairs|
    case ILook(_, _) => 5
    case ISimpleGreedy(_, _, _, _) => 17
    case _ => 1
  }

  ///// Little-endian fields

  function U16(v: int): (s: seq<byte>)
    requires Is16(v)
    ensures |s| == 2
  {
    [v % 0x100, v / 0x100]
  }

  function U32(v: int): (s: seq<byte>)
    requires Is32(v)
    ensures |s| == 4
  {
    U16(v % TWO16) + U16(v / TWO16)
  }

  /** An offset as the unsigned word that `(int)` turns back into it. */
  function Wrap(off: int): (v: int)
    requires IsOffset(off)
    ensures Is32(v)
  {
    if off < 0 then off + TWO32 else off
  }

  function Unwrap(v: int): (off: int)
    requires Is32(v)
    ensures IsOffset(off)
  {
    if v >= TWO31 then v - TWO32 else v
  }

  function GetU16(bc: seq<byte>, p: nat): (v: int)
    requires p + 2 <= |bc|
    ensures Is16(v)
  {
    bc[p] as int + 0x100 * bc[p + 1] as int
  }

  function GetU32(bc: seq<byte>, p: nat): (v: int)
    requires p + 4 <= |bc|
    ensures Is32(v)
  {
    GetU16(bc, p) + TWO16 * GetU16(bc, p + 2)
  }

  /** A slice of a slice. */
  lemma SubSlice<T>(s: seq<T>, p: nat, n: nat, i: nat, j: nat)
    requires i <= j <= n && p + n <= |s|
    ensures s[p..p + n][i..j] == s[p + i..p + j]
  {
    var a, b := s[p..p + n][i..j], s[p + i..p + j];
    assert forall k :: 0 <= k < j - i ==> a[k] == b[k];
  }

  lemma GetU16Put(bc: seq<byte>, p: nat, v: int)
    requires p + 2 <= |bc| && Is16(v) && bc[p..p + 2] == U16(v)
    ensures GetU16(bc, p) == v
  {
    assert bc[p] == bc[p..p + 2][0] && bc[p + 1] == bc[p..p + 2][1];
  }

  lemma GetU32Put(bc: seq<byte>, p: nat, v: int)
    requires p + 4 <= |bc| && Is32(v) && bc[p..p + 4] == U32(v)
    ensures GetU32(bc, p) == v
  {
    assert bc[p..p + 2] == U32(v)[..2] && bc[p + 2..p + 4] == U32(v)[2..];
    GetU16Put(bc, p, v % TWO16);
    GetU16Put(bc, p + 2, v / TWO16);
  }

  ///// Encoding

  function EncodePairs16(pairs: seq<(int, int)>): (s: seq<byte>)
    requires PairsFit(pairs, TWO16)
    ensures |s| == 4 * |pairs|
  {
    if pairs == [] then [] else U16(pairs[0].0) + U16(pairs[0].1) + EncodePairs16(pairs[1..])
  }

  function EncodePairs32(pairs: seq<(int, int)>): (s: seq<byte>)
    requires PairsFit(pairs, TWO32)
    ensures |s| == 8 * |pairs|
  {
    if pairs == [] then [] else U32(pairs[0].0) + U32(pairs[0].1) + EncodePairs32(pairs[1..])
  }

  function Encode(i: Instr): (s: seq<byte>)
    requires Fits(i)
    ensures |s| == Size(i)
  {
    match i
    case IChar8(c) => [CHAR8, c]
    case IChar16(c) => [CHAR16] + U16(c)
    case IChar32(c) => [CHAR32] + U32(c)
    case IDot => [DOT]
    case IAny => [ANY]
    case ILineStart => [LINE_START]
    case ILineEnd => [LINE_END]
    case IGoto(off) => [GOTO] + U32(Wrap(off))
    case ISplit(nextFirst, off) => [if nextFirst then SPLIT_NEXT_FIRST else SPLIT_GOTO_FIRST] + U32(Wrap(off))
    case IMatch => [MATCH]
    case ISave(atEnd, g) => [if atEnd then SAVE_END else SAVE_START, g]
    case ISaveReset(a, b) => [SAVE_RESET, a, b]
    case ILoop(off) => [LOOP] + U32(Wrap(off))
    case IPushI32(v) => [PUSH_I32] + U32(v)
    case IDrop => [DROP]
    case IWordBoundary(negated) => [if negated then NOT_WORD_BOUNDARY else WORD_BOUNDARY]
    case IRange(pairs) => [RANGE] + U16(|pairs|) + EncodePairs16(pairs)
    case IRange32(pairs) => [RANGE32] + U16(|pairs|) + EncodePairs32(pairs)
    case ILook(negated, off) => [if negated then NEGATIVE_LOOKAHEAD else LOOKAHEAD] + U32(Wrap(off))
    case IPushCharPos => [PUSH_CHAR_POS]
    case ICheckAdvance => [CHECK_ADVANCE]
    case ISimpleGreedy(off, min, max, count) =>
      [SIMPLE_GREEDY_QUANT] + U32(Wrap(off)) + U32(min) + U32(max) + U32(count)
  }

  lemma LowBytes(v: int)
    requires Is32(v)
    ensures (v % 65536) % 256 == v % 256 && (v % 65536) / 256 == v / 256 % 256
  {
    var hi, mid, lo := v / 65536, v / 256 % 256, v % 256;
    assert v / 256 == 256 * hi + mid;
  }

  lemma TopByte(v: int)
    requires Is32(v)
    ensures (v / 65536) / 256 == v / 16777216
  {
  }

  /** Fields have their lowest byte first. */
  lemma FieldBytes(v: int)
    requires Is32(v)
    ensures U32(v) == [v % 256, v / 256 % 256, v / 65536 % 256, v / 16777216]
    ensures Is16(v) ==> U16(v) == [v % 256, v / 256]
  {
    LowBytes(v);
    TopByte(v);
    assert U32(v) == [(v % 65536) % 256, (v % 65536) / 256, (v / 65536) % 256, (v / 65536) / 256];
  }

  /** The number of each opcode in libregexp-opcode.h. */
  function Number(i: Instr): nat {
    match i
    case IChar8(_) => 1
    case IChar16(_) => 2
    case IChar32(_) => 3
    case IDot => 4
    case IAny => 5
    case ILineStart => 6
    case ILineEnd => 7
    case IGoto(_) => 8
    case ISplit(nextFirst, _) => if nextFirst then 10 else 9
    case IMatch => 11
    case ISave(atEnd, _) => if atEnd then 13 else 12
    case ISaveReset(_, _) => 14
    case ILoop(_) => 15
    case IPushI32(_) => 16
    case IDrop => 17
    case IWordBoundary(negated) => if negated then 19 else 18
    case IRange(_) => 22
    case IRange32(_) => 23
    case ILook(negated, _) => if negated then 25 else 24
    case IPushCharPos => 26
    case ICheckAdvance => 27
    case ISimpleGreedy(_, _, _, _) => 29
    case IOther => 0
  }

  lemma OpcodeNumbers(i: Instr)
    requires Fits(i)
    ensures Encode(i)[0] == Number(i)
  {
  }

  ///// Decoding

  function GetPairs16(bc: seq<byte>, p: nat, n: nat): (pairs: seq<(int, int)>)
    requires p + 4 * n <= |bc|
    ensures |pairs| == n && PairsFit(pairs, TWO16)
    decreases n
  {
    if n == 0 then [] else [(GetU16(bc, p), GetU16(bc, p + 2))] + GetPairs16(bc, p + 4, n - 1)
  }

  function GetPairs32(bc: seq<byte>, p: nat, n: nat): (pairs: seq<(int, int)>)
    requires p + 8 * n <= |bc|
    ensures |pairs| == n && PairsFit(pairs, TWO32)
    decreases n
  {
    if n == 0 then [] else [(GetU32(bc, p), GetU32(bc, p + 4))] + GetPairs32(bc, p + 8, n - 1)
  }

  /** The instruction at `p`; `IOther` for an unknown opcode or a truncated instruction. */
  function Fetch(bc: seq<byte>, p: int): (i: Instr)
    ensures i != IOther ==> 0 <= p && p + Size(i) <= |bc| && Fits(i)
  {
    if !(0 <= p < |bc|) then IOther
    else
      var op := bc[p];
      var room := |bc| - p;
      if op == DOT then IDot
      else if op == ANY then IAny
      else if op == LINE_START then ILineStart
      else if op == LINE_END then ILineEnd
      else if op == MATCH then IMatch
      else if op == DROP then IDrop
      else if op == WORD_BOUNDARY then IWordBoundary(false)
      else if op == NOT_WORD_BOUNDARY then IWordBoundary(true)
      else if op == PUSH_CHAR_POS then IPushCharPos
      else if op == CHECK_ADVANCE then ICheckAdvance
      else if room < 2 then IOther
      else if op == CHAR8 then IChar8(bc[p + 1])
      else if op == SAVE_START then ISave(false, bc[p + 1])
      else if op == SAVE_END then ISave(true, bc[p + 1])
      else if room < 3 then IOther
      else if op == CHAR16 then IChar16(GetU16(bc, p + 1))
      else if op == SAVE_RESET then ISaveReset(bc[p + 1], bc[p + 2])
      else if op == RANGE then
        var n := GetU16(bc, p + 1);
        if room < 3 + 4 * n then IOther else IRange(GetPairs16(bc, p + 3, n))
      else if op == RANGE32 then
        var n := GetU16(bc, p + 1);
        if room < 3 + 8 * n then IOther else IRange32(GetPairs32(bc, p + 3, n))
      else if room < 5 then IOther
      else if op == SIMPLE_GREEDY_QUANT then
        if room < 17 then IOther
        else ISimpleGreedy(Unwrap(GetU32(bc, p + 1)), GetU32(bc, p + 5), GetU32(bc, p + 9), GetU32(bc, p + 13))
      else FetchWord(op, GetU32(bc, p + 1))
  }

  /** The five-byte instructions: an opcode and a 32-bit word. */
  function FetchWord(op: byte, v: int): (i: Instr)
    requires Is32(v)
    ensures i != IOther ==> Size(i) == 5 && Fits(i)
  {
    if op == CHAR32 then IChar32(v)
    else if op == GOTO then IGoto(Unwrap(v))
    else if op == SPLIT_GOTO_FIRST then ISplit(false, Unwrap(v))
    else if op == SPLIT_NEXT_FIRST then ISplit(true, Unwrap(v))
    else if op == LOOP then ILoop(Unwrap(v))
    else if op == PUSH_I32 then IPushI32(v)
    else if op == LOOKAHEAD then ILook(false, Unwrap(v))
    else if op == NEGATIVE_LOOKAHEAD then ILook(true, Unwrap(v))
    else IOther
  }

  lemma {:induction false} GetPairs16Put(bc: seq<byte>, p: nat, pairs: seq<(int, int)>)
    requires PairsFit(pairs, TWO16) && p + 4 * |pairs| <= |bc|
    requires bc[p..p + 4 * |pairs|] == EncodePairs16(pairs)
    ensures GetPairs16(bc, p, |pairs|) == pairs
    decreases |pairs|
  {
    if pairs != [] {
      var n := 4 * |pairs|;
      SubSlice(bc, p, n, 0, 2);
      SubSlice(bc, p, n, 2, 4);
      SubSlice(bc, p, n, 4, n);
      var rest := EncodePairs16(pairs[1..]);
      assert bc[p..p + n] == U16(pairs[0].0) + U16(pairs[0].1) + rest;
      assert (U16(pairs[0].0) + U16(pairs[0].1) + rest)[4..n] == rest;
      GetU16Put(bc, p, pairs[0].0);
      GetU16Put(bc, p + 2, pairs[0].1);
      GetPairs16Put(bc, p + 4, pairs[1..]);
    }
  }

  lemma {:induction false} GetPairs32Put(bc: seq<byte>, p: nat, pairs: seq<(int, int)>)
    requires PairsFit(pairs, TWO32) && p + 8 * |pairs| <= |bc|
    requires bc[p..p + 8 * |pairs|] == EncodePairs32(pairs)
    ensures GetPairs32(bc, p, |pairs|) == pairs
    decreases |pairs|
  {
    if pairs != [] {
      var n := 8 * |pairs|;
      SubSlice(bc, p, n, 0, 4);
      SubSlice(bc, p, n, 4, 8);
      SubSlice(bc, p, n, 8, n);
      var rest := EncodePairs32(pairs[1..]);
      assert bc[p..p + n] == U32(pairs[0].0) + U32(pairs[0].1) + rest;
      assert (U32(pairs[0].0) + U32(pairs[0].1) + rest)[8..n] == rest;
      GetU32Put(bc, p, pairs[0].0);
      GetU32Put(bc, p + 4, pairs[0].1);
      GetPairs32Put(bc, p + 8, pairs[1..]);
    }
  }

  /** Decoding undoes encoding, wherever the instruction lies in the buffer. */
  lemma FetchEncoded(bc: seq<byte>, p: nat, i: Instr)
    requires Fits(i) && p + Size(i) <= |bc|
    requires bc[p..p + Size(i)] == Encode(i)
    ensures Fetch(bc, p) == i
  {
    match i
    case IRange(pairs) => FetchEncodedRange(bc, p, pairs);
    case IRange32(pairs) => FetchEncodedRange32(bc, p, pairs);
    case ISimpleGreedy(off, min, max, count) => FetchEncodedGreedy(bc, p, off, min, max, count);
    case IChar32(c) => FetchEncodedWord(bc, p, i, CHAR32, c);
    case IGoto(off) => FetchEncodedWord(bc, p, i, GOTO, Wrap(off));
    case ISplit(nextFirst, off) =>
      FetchEncodedWord(bc, p, i, if nextFirst then SPLIT_NEXT_FIRST else SPLIT_GOTO_FIRST, Wrap(off));
    case ILoop(off) => FetchEncodedWord(bc, p, i, LOOP, Wrap(off));
    case IPushI32(v) => FetchEncodedWord(bc, p, i, PUSH_I32, v);
    case ILook(negated, off) =>
      FetchEncodedWord(bc, p, i, if negated then NEGATIVE_LOOKAHEAD else LOOKAHEAD, Wrap(off));
    case _ => FetchEncodedShort(bc, p, i);
  }

  lemma FetchEncodedShort(bc: seq<byte>, p: nat, i: Instr)
    requires Fits(i) && Size(i) <= 3 && !i.IRange? && !i.IRange32? && p + Size(i) <= |bc|
    requires bc[p..p + Size(i)] == Encode(i)
    ensures Fetch(bc, p) == i
  {
    var e := bc[p..p + Size(i)];
    assert bc[p] == e[0];
    if Size(i) >= 2 { assert bc[p + 1] == e[1]; }
    if Size(i) == 3 { assert bc[p + 2] == e[2]; }
  }

  lemma FetchEncodedWord(bc: seq<byte>, p: nat, i: Instr, op: byte, v: int)
    requires Fits(i) && Size(i) == 5 && p + 5 <= |bc| && Is32(v)
    requires bc[p..p + 5] == Encode(i) == [op] + U32(v)
    requires FetchWord(op, v) == i
    ensures Fetch(bc, p) == i
  {
    assert bc[p] == bc[p..p + 5][0];
    assert bc[p + 1..p + 5] == bc[p..p + 5][1..];
    GetU32Put(bc, p + 1, v);
  }

  lemma FetchEncodedRange(bc: seq<byte>, p: nat, pairs: seq<(int, int)>)
    requires Fits(IRange(pairs)) && p + 3 + 4 * |pairs| <= |bc|
    requires bc[p..p + 3 + 4 * |pairs|] == Encode(IRange(pairs))
    ensures Fetch(bc, p) == IRange(pairs)
  {
    var n := 3 + 4 * |pairs|;
    var e, count, rest := bc[p..p + n], U16(|pairs|), EncodePairs16(pairs);
    assert bc[p] == e[0];
    SubSlice(bc, p, n, 1, 3);
    SubSlice(bc, p, n, 3, n);
    assert e == [RANGE] + count + rest;
    assert e[1..3] == count && e[3..n] == rest;
    GetU16Put(bc, p + 1, |pairs|);
    GetPairs16Put(bc, p + 3, pairs);
  }

  lemma FetchEncodedRange32(bc: seq<byte>, p: nat, pairs: seq<(int, int)>)
    requires Fits(IRange32(pairs)) && p + 3 + 8 * |pairs| <= |bc|
    requires bc[p..p + 3 + 8 * |pairs|] == Encode(IRange32(pairs))
    ensures Fetch(bc, p) == IRange32(pairs)
  {
    var n := 3 + 8 * |pairs|;
    var e, count, rest := bc[p..p + n], U16(|pairs|), EncodePairs32(pairs);
    assert bc[p] == e[0];
    SubSlice(bc, p, n, 1, 3);
    SubSlice(bc, p, n, 3, n);
    assert e == [RANGE32] + count + rest;
    assert e[1..3] == count && e[3..n] == rest;
    GetU16Put(bc, p + 1, |pairs|);
    GetPairs32Put(bc, p + 3, pairs);
  }

  lemma FetchEncodedGreedy(bc: seq<byte>, p: nat, off: int, min: int, max: int, count: int)
    requires Fits(ISimpleGreedy(off, min, max, count)) && p + 17 <= |bc|
    requires bc[p..p + 17] == Encode(ISimpleGreedy(off, min, max, count))
    ensures Fetch(bc, p) == ISimpleGreedy(off, min, max, count)
  {
    var e := bc[p..p + 17];
    assert bc[p] == e[0];
    SubSlice(bc, p, 17, 1, 5);
    SubSlice(bc, p, 17, 5, 9);
    SubSlice(bc, p, 17, 9, 13);
    SubSlice(bc, p, 17, 13, 17);
    var w0, w1, w2, w3 := U32(Wrap(off)), U32(min), U32(max), U32(count);
    assert e == [SIMPLE_GREEDY_QUANT] + w0 + w1 + w2 + w3;
    assert e[1..5] == w0 && e[5..9] == w1 && e[9..13] == w2 && e[13..17] == w3;
    GetU32Put(bc, p + 1, Wrap(off));
    GetU32Put(bc, p + 5, min);
    GetU32Put(bc, p + 9, max);
    GetU32Put(bc, p + 13, count);
  }

  ///// Code: instruction sequences

  type Code = seq<Instr>

  ghost predicate AllFit(code: Code) {
    forall k :: 0 <= k < |code| ==> Fits(code[k])
  }

  function CodeSize(code: Code): nat {
    if code == [] then 0 else Size(code[0]) + CodeSize(code[1..])
  }

  function Assemble(code: Code): (s: seq<byte>)
    requires AllFit(code)
    ensures |s| == CodeSize(code)
  {
    if code == [] then [] else Encode(code[0]) + Assemble(code[1..])
  }

  lemma {:induction false} SizeAppend(a: Code, b: Code)
    ensures CodeSize(a + b) == CodeSize(a) + CodeSize(b)
  {
    if a == [] {
      assert a + b == b;
    } else {
      SizeAppend(a[1..], b);
      assert (a + b)[1..] == a[1..] + b;
    }
  }

  lemma {:induction false} AssembleAppend(a: Code, b: Code)
    requires AllFit(a) && AllFit(b)
    ensures AllFit(a + b) && Assemble(a + b) == Assemble(a) + Assemble(b)
  {
    hide Encode, Fits;
    if a == [] {
      assert a + b == b;
    } else {
      assert (a + b)[1..] == a[1..] + b;
      AssembleAppend(a[1..], b);
      var head, tail, rest := Encode(a[0]), Assemble(a[1..]), Assemble(b);
      assert head + (tail + rest) == (head + tail) + rest;
    }
  }

  /** The buffer holds `code` at `p`, as the VM decodes it. */
  ghost predicate At(bc: seq<byte>, p: int, code: Code)
    decreases |code|
  {
    code == [] || (Fetch(bc, p) == code[0] && code[0] != IOther && At(bc, p + Size(code[0]), code[1..]))
  }

  lemma {:induction false} AtAppend(bc: seq<byte>, p: int, a: Code, b: Code)
    ensures At(bc, p, a + b) <==> At(bc, p, a) && At(bc, p + CodeSize(a), b)
    decreases |a|
  {
    hide Fetch, Size;
    if a == [] {
      assert a + b == b;
    } else {
      assert (a + b)[1..] == a[1..] + b;
      AtAppend(bc, p + Size(a[0]), a[1..], b);
    }
  }

  lemma SliceParts(bc: seq<byte>, p: nat, head: seq<byte>, rest: seq<byte>)
    requires p + |head| + |rest| <= |bc| && bc[p..p + (|head| + |rest|)] == head + rest
    ensures bc[p..p + |head|] == head && bc[p + |head|..p + |head| + |rest|] == rest
  {
    var n, size := |head|, |head| + |rest|;
    SubSlice(bc, p, size, 0, n);
    SubSlice(bc, p, size, n, size);
    assert (head + rest)[0..n] == head && (head + rest)[n..size] == rest;
  }

  /** Assembled bytes decode to the code they came from. */
  lemma {:induction false} AssembledAt(bc: seq<byte>, p: nat, code: Code)
    requires AllFit(code) && p + CodeSize(code) <= |bc|
    requires bc[p..p + CodeSize(code)] == Assemble(code)
    ensures At(bc, p, code)
    decreases |code|
  {
    hide Fetch, Encode, Size;
    if code != [] {
      var n := Size(code[0]);
      var head, rest := Encode(code[0]), Assemble(code[1..]);
      SliceParts(bc, p, head, rest);
      FetchEncoded(bc, p, code[0]);
      AssembledAt(bc, p + n, code[1..]);
    }
  }
}
