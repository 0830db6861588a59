/** The emitter: it appends to the byte buffer, inserts in front of code already emitted,
    copies code and patches offsets.  What it leaves in the buffer is the assembled `CodeOf`. */
module RegexEmit {
  import opened RegexSyntax
  import opened RegexCode
  import opened RegexCompile
  import opened RegexClass
  import opened RegexFit

  ///// Scanning emitted bytes

  /** `reopcode_info[op].size` */
  function OpSize(op: byte): nat {
    if op == CHAR8 || op == SAVE_START || op == SAVE_END then 2
    else if op == CHAR16 || op == SAVE_RESET || op == RANGE || op == RANGE32 then 3
    else if op == CHAR32 || op == GOTO || op == SPLIT_GOTO_FIRST || op == SPLIT_NEXT_FIRST || op == LOOP
         || op == PUSH_I32 || op == LOOKAHEAD || op == NEGATIVE_LOOKAHEAD then 5
    else if op == SIMPLE_GREEDY_QUANT then 17
    else 1
  }

  /** The length of the instruction at `p`, with the table of a range. */
  function InstrLength(bc: seq<byte>, p: nat): nat
    requires p < |bc| && (bc[p] == RANGE || bc[p] == RANGE32 ==> p + 3 <= |bc|)
  {
    OpSize(bc[p]) +
    if bc[p] == RANGE then 4 * GetU16(bc, p + 1) else if bc[p] == RANGE32 then 8 * GetU16(bc, p + 1) else 0
  }

  predicate IsCharOpcode(op: byte) {
    op == CHAR8 || op == CHAR16 || op == CHAR32 || op == DOT || op == ANY || op == RANGE || op == RANGE32
  }

  predicate IsAssertionOpcode(op: byte) {
    op == LINE_START || op == LINE_END || op == WORD_BOUNDARY || op == NOT_WORD_BOUNDARY
  }

  predicate IsNeutralOpcode(op: byte) {
    IsAssertionOpcode(op) || op == PUSH_I32 || op == PUSH_CHAR_POS || op == DROP
    || op == SAVE_START || op == SAVE_END || op == SAVE_RESET
  }

  lemma OpcodeFacts(bc: seq<byte>, p: nat)
    requires Fetch(bc, p) != IOther
    ensures p < |bc| && (bc[p] == RANGE || bc[p] == RANGE32 ==> p + 3 <= |bc|)
    ensures Size(Fetch(bc, p)) == InstrLength(bc, p) && p + InstrLength(bc, p) <= |bc|
    ensures IsCharOp(Fetch(bc, p)) <==> IsCharOpcode(bc[p])
    ensures IsAssertionOp(Fetch(bc, p)) <==> IsAssertionOpcode(bc[p])
    ensures Predictable(Fetch(bc, p)) <==> IsCharOpcode(bc[p]) || IsNeutralOpcode(bc[p])
  {
  }

  /** `re_is_simple_quantifier`, over the bytes from `start` on. */
  method IsSimpleQuantifier(bc: seq<byte>, start: nat, ghost code: Code) returns (count: int)
    requires start + CodeSize(code) == |bc| && At(bc, start, code)
    ensures count == SimpleScan(code)
  {
    hide Fetch, At, SimpleScan, InstrLength;
    count := 0;
    var pos := start;
    ghost var rest := code;
    while pos < |bc|
      invariant start <= pos && pos + CodeSize(rest) == |bc| && At(bc, pos, rest) && count >= 0
      invariant SimpleScan(code) == if SimpleScan(rest) < 0 then -1 else count + SimpleScan(rest)
    {
      ScanStep(bc, pos, rest);
      OpcodeFacts(bc, pos);
      if IsCharOpcode(bc[pos]) {
        count := count + 1;
      } else if !IsAssertionOpcode(bc[pos]) {
        return -1;
      }
      pos := pos + InstrLength(bc, pos);
      rest := rest[1..];
    }
    ScanEnd(rest);
  }

  lemma ScanEnd(rest: Code)
    requires CodeSize(rest) == 0
    ensures rest == [] && SimpleScan(rest) == 0 && AllPredictable(rest) && !ReadsChar(rest)
  {
  }

  lemma ScanStep(bc: seq<byte>, pos: nat, rest: Code)
    requires At(bc, pos, rest) && CodeSize(rest) > 0
    ensures rest != [] && Fetch(bc, pos) == rest[0] != IOther && At(bc, pos + Size(rest[0]), rest[1..])
    ensures CodeSize(rest) == Size(rest[0]) + CodeSize(rest[1..])
    ensures var tail := SimpleScan(rest[1..]);
      SimpleScan(rest) == if IsCharOp(rest[0]) then (if tail < 0 then -1 else tail + 1)
                          else if IsAssertionOp(rest[0]) then tail else -1
    ensures AllPredictable(rest) <==> Predictable(rest[0]) && AllPredictable(rest[1..])
    ensures ReadsChar(rest) <==> IsCharOp(rest[0]) || ReadsChar(rest[1..])
  {
    hide Fetch;
  }

  /** `re_need_check_advance`, over the bytes from `start` on. */
  method NeedCheckAdvance(bc: seq<byte>, start: nat, ghost code: Code) returns (need: bool)
    requires start + CodeSize(code) == |bc| && At(bc, start, code)
    ensures need == NeedCheck(code)
  {
    hide Fetch, At, SimpleScan, InstrLength, AllPredictable, ReadsChar;
    need := true;
    var pos := start;
    ghost var rest := code;
    while pos < |bc|
      invariant start <= pos && pos + CodeSize(rest) == |bc| && At(bc, pos, rest)
      invariant AllPredictable(code) <==> AllPredictable(rest)
      invariant ReadsChar(code) <==> !need || ReadsChar(rest)
    {
      ScanStep(bc, pos, rest);
      OpcodeFacts(bc, pos);
      if IsCharOpcode(bc[pos]) {
        need := false;
      } else if !IsNeutralOpcode(bc[pos]) {
        return true;
      }
      pos := pos + InstrLength(bc, pos);
      rest := rest[1..];
    }
    ScanEnd(rest);
  }

  ///// Bytes of instruction lists

  lemma Assemble1(i: Instr)
    requires Fits(i)
    ensures Assemble([i]) == Encode(i)
  {
    hide Encode, Fits;
    assert [i][1..] == [];
    assert Encode(i) + [] == Encode(i);
  }

  lemma Assemble2(i: Instr, j: Instr)
    requires Fits(i) && Fits(j)
    ensures Assemble([i, j]) == Encode(i) + Encode(j)
  {
    hide Encode, Fits;
    assert [i, j][1..] == [j];
    Assemble1(j);
  }

  lemma AssembleFramed(pre: Code, mid: Code, post: Code)
    requires AllFit(pre) && AllFit(mid) && AllFit(post)
    ensures AllFit(pre + mid + post)
    ensures Assemble(pre + mid + post) == Assemble(pre) + Assemble(mid) + Assemble(post)
  {
    hide Assemble, Fits;
    AssembleAppend(pre + mid, post);
    AssembleAppend(pre, mid);
  }

  /** A relative jump target, as the emitter computes it modulo 2^32. */
  lemma WrapModulo(target: int, after: int)
    requires IsOffset(target - after)
    ensures (target - after) % TWO32 == Wrap(target - after)
  {
  }

  ///// The buffer

  /** The buffer grew by the assembled code of `r`. */
  ghost predicate Appended(before: seq<byte>, after: seq<byte>, r: Regex, cc: nat)
    requires Valid(r)
  {
    AllFit(CodeOf(r, cc)) && after == before + Assemble(CodeOf(r, cc))
  }

  class Emitter {
    var buf: seq<byte>
    /** The number of the next capture group. */
    var captureCount: nat

    constructor ()
      ensures buf == [] && captureCount == 1
    {
      buf := [];
      captureCount := 1;
    }

    method EmitOp(op: byte)
      modifies this`buf
      ensures buf == old(buf) + [op]
    {
      buf := buf + [op];
    }

    method EmitBytes(bytes: seq<byte>)
      modifies this`buf
      ensures buf == old(buf) + bytes
    {
      buf := buf + bytes;
    }

    /** `re_emit_op_u32`: the result is the offset of the operand. */
    method EmitOpU32(op: byte, v: int) returns (pos: nat)
      requires Is32(v)
      modifies this`buf
      ensures buf == old(buf) + ([op] + U32(v)) && pos == |old(buf)| + 1
    {
      pos := |buf| + 1;
      buf := buf + [op];
      buf := buf + U32(v);
      assert buf == old(buf) + ([op] + U32(v));
    }

    /** `re_emit_goto`: a jump to the absolute offset `target`. */
    method EmitGoto(op: byte, target: int, ghost i: Instr)
      requires IsOffset(target - (|buf| + 5)) && Fits(i) && Encode(i) == [op] + U32(Wrap(target - (|buf| + 5)))
      modifies this`buf
      ensures buf == old(buf) + Encode(i)
    {
      var v := (target - (|buf| + 1 + 4)) % TWO32;
      WrapModulo(target, |buf| + 5);
      var _ := EmitOpU32(op, v);
    }

    method EmitInstr(i: Instr)
      requires Fits(i)
      modifies this`buf
      ensures buf == old(buf) + Encode(i)
    {
      EmitBytes(Encode(i));
    }

    /** `dbuf_insert`: make room for `n` bytes at `pos`; what the gap holds is unspecified. */
    method Insert(pos: nat, n: nat) returns (ghost gap: seq<byte>)
      requires pos <= |buf|
      modifies this`buf
      ensures |gap| == n && buf == old(buf)[..pos] + gap + old(buf)[pos..]
    {
      var fill: seq<byte> := if pos + n <= |buf| then buf[pos..pos + n] else seq(n, _ => 0);
      gap := fill;
      buf := buf[..pos] + fill + buf[pos..];
    }

    /** Overwrite bytes in a gap that starts at `pos`. */
    method Fill(pos: nat, bytes: seq<byte>, ghost pre: seq<byte>, ghost gap: seq<byte>, ghost tail: seq<byte>)
      requires buf == pre + gap + tail && pos == |pre| && |bytes| <= |gap|
      modifies this`buf
      ensures buf == (pre + bytes) + gap[|bytes|..] + tail
    {
      buf := buf[..pos] + bytes + buf[pos + |bytes|..];
      assert old(buf)[..pos] == pre;
      assert old(buf)[pos + |bytes|..] == gap[|bytes|..] + tail;
    }

    /** Patch the 32-bit word at `pos`. */
    method Patch(pos: nat, v: int, ghost front: seq<byte>, ghost hole: seq<byte>, ghost tail: seq<byte>)
      requires Is32(v) && |hole| == 4 && buf == front + hole + tail && pos == |front|
      modifies this`buf
      ensures buf == front + U32(v) + tail
    {
      Fill(pos, U32(v), front, hole, tail);
      assert hole[4..] == [];
    }

    /** `dbuf_put_self`: append a copy of `n` bytes that start at `pos`. */
    method CopyBack(pos: nat, n: nat)
      requires pos + n <= |buf|
      modifies this`buf
      ensures buf == old(buf) + old(buf)[pos..pos + n]
    {
      buf := buf + buf[pos..pos + n];
    }

    ///// Quantifiers

    /** Insert the instruction `i` at `pos` = |pre|, in front of `tail`. */
    method InsertInstr(pos: nat, i: Instr, ghost pre: seq<byte>, ghost tail: seq<byte>)
      requires buf == pre + tail && pos == |pre| && Fits(i)
      modifies this`buf
      ensures buf == pre + Encode(i) + tail
    {
      var bytes := Encode(i);
      ghost var gap := Insert(pos, |bytes|);
      assert old(buf)[..pos] == pre && old(buf)[pos..] == tail;
      Fill(pos, bytes, pre, gap, tail);
      assert gap[|bytes|..] == [];
    }

    /** The simple greedy quantifier: one inserted opcode with four operands and a `match` behind the atom. */
    method EmitSimple(start: nat, count: nat, min: nat, max: nat, ghost pre: seq<byte>, ghost atom: Code)
      requires AllFit(atom) && buf == pre + Assemble(atom) && start == |pre|
      requires count == SimpleScan(atom) && AllFit(SimpleCode(atom, min, max))
      modifies this`buf
      ensures buf == pre + Assemble(SimpleCode(atom, min, max))
    {
      hide Encode, Assemble, SimpleScan, CodeSize;
      ghost var a := Assemble(atom);
      EmitOp(MATCH);
      ghost var tail := a + [MATCH];
      assert buf == pre + tail;
      var size := |buf| - start;
      var op := ISimpleGreedy(size, min, max, count);
      assert size == CodeSize(atom) + 1;
      assert SimpleCode(atom, min, max)[0] == op;
      InsertInstr(start, op, pre, tail);
      AssembleFramed([op], atom, [IMatch]);
      Assemble1(op);
      Assemble1(IMatch);
      MatchByte();
      assert Encode(op) + (a + [MATCH]) == Encode(op) + a + [MATCH];
      assert pre + Encode(op) + tail == pre + (Encode(op) + tail);
    }

    /** `?` and `*`: a split, and where needed `push_char_pos`, inserted in front of the atom. */
    method EmitSplitAround(start: nat, len: nat, check: bool, hasGoto: bool, greedy: bool,
                           ghost pre: seq<byte>, ghost atom: Code)
      requires AllFit(atom) && buf == pre + Assemble(atom) && start == |pre| && len == CodeSize(atom)
      requires check == NeedCheck(atom)
      requires AllFit(if hasGoto then StarCode(atom, greedy) else OptionCode(atom, greedy))
      modifies this`buf
      ensures buf == pre + Assemble(if hasGoto then StarCode(atom, greedy) else OptionCode(atom, greedy))
    {
      hide Encode, Assemble, CodeSize, NeedCheck, StarCode, OptionCode, Fits;
      ghost var a := Assemble(atom);
      ghost var gap := Insert(start, 5 + (if check then 1 else 0));
      assert old(buf)[..start] == pre && old(buf)[start..] == a;
      var off := len + (if hasGoto then 5 else 0) + (if check then 2 else 0);
      SplitFacts(atom, greedy, hasGoto);
      var split := Encode(ISplit(greedy, off));
      Fill(start, split, pre, gap, a);
      if check {
        Fill(start + 5, [PUSH_CHAR_POS], pre + split, gap[5..], a);
        EmitOp(CHECK_ADVANCE);
      }
      assert gap[5..][(if check then 1 else 0)..] == [];
      ghost var body := Push(check) + a + Check(check);
      assert buf == pre + (split + body);
      if hasGoto {
        var jump := IGoto(-(off + 5));
        JumpBytes(jump);
        EmitGoto(GOTO, start, jump);
        assert buf == pre + (split + body + Encode(jump));
      }
    }

    /** `{0,max}`: additionally the counter is pushed in front, and `loop` and `drop` stand behind. */
    method EmitCountedAround(start: nat, len: nat, check: bool, max: nat, greedy: bool,
                             ghost pre: seq<byte>, ghost atom: Code)
      requires AllFit(atom) && buf == pre + Assemble(atom) && start == |pre| && len == CodeSize(atom)
      requires check == NeedCheck(atom) && AllFit(CountedCode(atom, greedy, max))
      modifies this`buf
      ensures buf == pre + Assemble(CountedCode(atom, greedy, max))
    {
      hide Encode, Assemble, CodeSize, NeedCheck, CountedCode, Fits;
      ghost var a := Assemble(atom);
      ghost var gap := Insert(start, 10 + (if check then 1 else 0));
      assert old(buf)[..start] == pre && old(buf)[start..] == a;
      var off := len + 5 + (if check then 2 else 0);
      CountedFacts(atom, greedy, max);
      var push, split := Encode(IPushI32(max)), Encode(ISplit(greedy, off));
      Fill(start, push, pre, gap, a);
      Fill(start + 5, split, pre + push, gap[5..], a);
      assert gap[5..][5..] == gap[10..];
      if check {
        Fill(start + 10, [PUSH_CHAR_POS], (pre + push) + split, gap[10..], a);
        EmitOp(CHECK_ADVANCE);
      }
      assert gap[10..][(if check then 1 else 0)..] == [];
      ghost var body := Push(check) + a + Check(check);
      assert buf == pre + (push + split + body);
      var jump := ILoop(-(off + 5));
      EmitLoopDrop(start + 5, jump);
      assert buf == pre + (push + split + body + (Encode(jump) + [DROP]));
    }

    /** `+` when the atom always advances: one split behind the atom. */
    method EmitPlus(start: nat, len: nat, greedy: bool, ghost pre: seq<byte>, ghost atom: Code)
      requires AllFit(atom) && buf == pre + Assemble(atom) && start == |pre| && len == CodeSize(atom)
      requires AllFit(PlusCode(atom, greedy))
      modifies this`buf
      ensures buf == pre + Assemble(PlusCode(atom, greedy))
    {
      hide Encode, Assemble, CodeSize, Fits;
      var jump := ISplit(!greedy, -(len + 5));
      assert PlusCode(atom, greedy)[|atom|] == jump;
      JumpBytes(jump);
      EmitGoto(if greedy then SPLIT_GOTO_FIRST else SPLIT_NEXT_FIRST, start, jump);
      AssembleAppend(atom, [jump]);
      Assemble1(jump);
      assert buf == pre + (Assemble(atom) + Encode(jump));
    }

    /** The counting loop around the mandatory iterations. */
    method EmitTimes(start: nat, len: nat, min: nat, ghost pre: seq<byte>, ghost atom: Code)
      requires AllFit(atom) && buf == pre + Assemble(atom) && start == |pre| && len == CodeSize(atom)
      requires AllFit(TimesCode(atom, min))
      modifies this`buf
      ensures buf == pre + Assemble(TimesCode(atom, min))
    {
      hide Encode, Assemble, CodeSize, Fits;
      var push, jump := IPushI32(min), ILoop(-(len + 5));
      assert TimesCode(atom, min)[0] == push;
      assert TimesCode(atom, min)[1 + |atom|] == jump;
      InsertInstr(start, push, pre, Assemble(atom));
      FiveBytes(push);
      EmitLoopDrop(start + 5, jump);
      DropByte();
      AssembleFramed([push], atom, [jump, IDrop]);
      Assemble1(push);
      Assemble2(jump, IDrop);
      assert buf == pre + (Encode(push) + Assemble(atom) + (Encode(jump) + [DROP]));
    }

    /** Behind the mandatory iterations: a loop with its own copy of the atom, which lies at `from`. */
    method EmitStarCopy(from: nat, len: nat, check: bool, greedy: bool, ghost atom: Code)
      requires AllFit(atom) && len == CodeSize(atom) && from + len <= |buf| && buf[from..from + len] == Assemble(atom)
      requires check == NeedCheck(atom) && AllFit(StarCode(atom, greedy))
      modifies this`buf
      ensures buf == old(buf) + Assemble(StarCode(atom, greedy))
    {
      hide Encode, Assemble, CodeSize, NeedCheck, StarCode, Fits;
      ghost var pre, a := buf, Assemble(atom);
      var pos := |buf|;
      var off := len + 5 + (if check then 2 else 0);
      SplitFacts(atom, greedy, true);
      EmitInstr(ISplit(greedy, off));
      EmitIteration(from, len, check, atom, a);
      ghost var split, body := Encode(ISplit(greedy, off)), Push(check) + a + Check(check);
      assert buf == pre + (split + body);
      var jump := IGoto(-(off + 5));
      JumpBytes(jump);
      EmitGoto(GOTO, pos, jump);
      assert buf == pre + (split + body + Encode(jump));
    }

    method EmitCountedCopy(from: nat, len: nat, check: bool, greedy: bool, count: nat, ghost atom: Code)
      requires AllFit(atom) && len == CodeSize(atom) && from + len <= |buf| && buf[from..from + len] == Assemble(atom)
      requires check == NeedCheck(atom) && AllFit(CountedCode(atom, greedy, count))
      modifies this`buf
      ensures buf == old(buf) + Assemble(CountedCode(atom, greedy, count))
    {
      hide Encode, Assemble, CodeSize, NeedCheck, CountedCode, Fits;
      ghost var pre, a := buf, Assemble(atom);
      var off := len + 5 + (if check then 2 else 0);
      CountedFacts(atom, greedy, count);
      ghost var push, split, body := Encode(IPushI32(count)), Encode(ISplit(greedy, off)),
        Push(check) + a + Check(check);
      EmitInstr(IPushI32(count));
      var pos := |buf|;
      EmitInstr(ISplit(greedy, off));
      ghost var front := push + split;
      assert buf == pre + front;
      EmitIteration(from, len, check, atom, a);
      assert buf == pre + (front + body);
      var jump := ILoop(-(off + 5));
      EmitLoopDrop(pos, jump);
      assert buf == pre + ((front + body) + (Encode(jump) + [DROP]));
    }

    /** The jump back and the `drop` of a counting loop. */
    method EmitLoopDrop(pos: nat, jump: Instr)
      requires Fits(jump) && jump.ILoop? && jump.off == pos - (|buf| + 5)
      modifies this`buf
      ensures buf == old(buf) + (Encode(jump) + [DROP])
    {
      hide Encode, Fits;
      JumpBytes(jump);
      EmitGoto(LOOP, pos, jump);
      EmitOp(DROP);
      assert old(buf) + Encode(jump) + [DROP] == old(buf) + (Encode(jump) + [DROP]);
    }

    method EmitIteration(from: nat, len: nat, check: bool, ghost atom: Code, ghost a: seq<byte>)
      requires from + len <= |buf| && buf[from..from + len] == a
      modifies this`buf
      ensures buf == old(buf) + (Push(check) + a + Check(check))
    {
      if check { EmitOp(PUSH_CHAR_POS); }
      assert buf[from..from + len] == a;
      CopyBack(from, len);
      if check { EmitOp(CHECK_ADVANCE); }
      assert buf == old(buf) + (Push(check) + a + Check(check));
    }

    /** The emission of a quantifier behind its atom (`re_parse_term`). */
    method EmitQuantifier(start: nat, lastCaptureCount: nat, min: nat, max: nat, greedy: bool,
                          ghost pre: seq<byte>, ghost atom: Code)
      requires AllFit(atom) && buf == pre + Assemble(atom) && start == |pre|
      requires min <= max <= INT32_MAX && lastCaptureCount <= captureCount
      requires AllFit(QuantCode(atom, lastCaptureCount, captureCount - lastCaptureCount, min, max, greedy))
      modifies this`buf
      ensures buf == pre +
        Assemble(QuantCode(atom, lastCaptureCount, captureCount - lastCaptureCount, min, max, greedy))
    {
      hide Assemble, SimpleScan, NeedCheck, CodeSize, Encode, Fits, At;
      hide SimpleCode, PlusCode, OptionCode, StarCode, CountedCode, TimesCode;
      assert buf[start..start + CodeSize(atom)] == Assemble(atom);
      AssembledAt(buf, start, atom);
      if greedy && max > 0 {
        var count := IsSimpleQuantifier(buf, start, atom);
        if count > 0 {
          EmitSimple(start, count, min, max, pre, atom);
          return;
        }
      }
      var check := NeedCheckAdvance(buf, start, atom);
      var len := |buf| - start;
      if min == 0 {
        EmitOptional(start, len, check, lastCaptureCount, max, greedy, pre, atom);
      } else if min == 1 && max == INT32_MAX && !check {
        EmitPlus(start, len, greedy, pre, atom);
      } else {
        EmitMandatoryAndRest(start, len, check, min, max, greedy, pre, atom);
      }
    }

    method EmitOptional(start: nat, len: nat, check: bool, lastCaptureCount: nat, max: nat, greedy: bool,
                        ghost pre: seq<byte>, ghost atom: Code)
      requires AllFit(atom) && buf == pre + Assemble(atom) && start == |pre| && len == CodeSize(atom)
      requires check == NeedCheck(atom) && max <= INT32_MAX && lastCaptureCount <= captureCount
      requires AllFit(ResetCode(lastCaptureCount, captureCount - lastCaptureCount) + OptionalCode(atom, max, greedy))
      modifies this`buf
      ensures buf == pre +
        Assemble(ResetCode(lastCaptureCount, captureCount - lastCaptureCount) + OptionalCode(atom, max, greedy))
    {
      hide Assemble, NeedCheck, CodeSize, Encode, Fits, OptionCode, StarCode, CountedCode;
      ghost var reset, rest := ResetCode(lastCaptureCount, captureCount - lastCaptureCount),
        OptionalCode(atom, max, greedy);
      AllFitParts(reset, rest);
      AssembleAppend(reset, rest);
      ghost var front := pre + Assemble(reset);
      var at := start;
      if lastCaptureCount != captureCount {
        var op := ISaveReset(lastCaptureCount, captureCount - 1);
        assert op == reset[0];
        InsertInstr(start, op, pre, Assemble(atom));
        Assemble1(op);
        ThreeBytes(op);
        at := start + 3;
      } else {
        AssembleNothing();
      }
      assert buf == front + Assemble(atom) && at == |front|;
      if max == 0 {
        AssembleNothing();
        buf := buf[..at];
      } else if max == 1 || max == INT32_MAX {
        EmitSplitAround(at, len, check, max == INT32_MAX, greedy, front, atom);
      } else {
        EmitCountedAround(at, len, check, max, greedy, front, atom);
      }
      assert buf == front + Assemble(rest);
      assert front + Assemble(rest) == pre + (Assemble(reset) + Assemble(rest));
    }

    method EmitMandatoryAndRest(start: nat, len: nat, check: bool, min: nat, max: nat, greedy: bool,
                                ghost pre: seq<byte>, ghost atom: Code)
      requires AllFit(atom) && buf == pre + Assemble(atom) && start == |pre| && len == CodeSize(atom)
      requires check == NeedCheck(atom) && 0 < min <= max <= INT32_MAX
      requires AllFit(MandatoryCode(atom, min) + RestCode(atom, min, max, greedy))
      modifies this`buf
      ensures buf == pre + Assemble(MandatoryCode(atom, min) + RestCode(atom, min, max, greedy))
    {
      hide Assemble, NeedCheck, CodeSize, Encode, Fits, StarCode, CountedCode, TimesCode;
      ghost var first, rest := MandatoryCode(atom, min), RestCode(atom, min, max, greedy);
      AllFitParts(first, rest);
      AssembleAppend(first, rest);
      var at := start;
      if min != 1 {
        EmitTimes(start, len, min, pre, atom);
        at := start + 5;
        TimesHoldsAtom(pre, atom, min);
      }
      ghost var front := buf;
      assert buf[at..at + len] == Assemble(atom);
      if max == INT32_MAX {
        EmitStarCopy(at, len, check, greedy, atom);
      } else if max > min {
        EmitCountedCopy(at, len, check, greedy, max - min, atom);
      } else {
        AssembleNothing();
      }
      assert buf == front + Assemble(rest);
      assert (pre + Assemble(first)) + Assemble(rest) == pre + (Assemble(first) + Assemble(rest));
    }

    ///// Terms

    /** `re_emit_range`; false for "too many ranges". */
    method EmitRange(points: seq<int>) returns (ok: bool)
      requires Canonical(points)
      modifies this`buf
      ensures ok <==> |points| / 2 < 65535
      ensures ok ==> Fits(ClassInstr(points)) && buf == old(buf) + Encode(ClassInstr(points))
    {
      if |points| / 2 >= 65535 { return false; }
      ClassFits(points);
      EmitInstr(ClassInstr(points));
      return true;
    }

    /** The code of a term (`re_parse_term`, `re_parse_alternative`, `re_parse_disjunction`);
        false for "too many captures" and "too many ranges". */
    method Emit(r: Regex) returns (ok: bool)
      requires Valid(r) && captureCount <= CAPTURE_COUNT_MAX && Small(r, captureCount)
      modifies this
      ensures ok <==> ClassesFit(r) && old(captureCount) + Captures(r) <= CAPTURE_COUNT_MAX
      ensures ok ==> captureCount == old(captureCount) + Captures(r)
      ensures ok ==> Appended(old(buf), buf, r, old(captureCount))
      decreases r
    {
      hide Assemble, CodeSize, Encode, Fits, QuantCode, AltCode, LookCode;
      ghost var pre, cc := buf, captureCount;
      match r {
        case Empty =>
          AssembleNothing();
          return true;
        case Cat(a, b) =>
          ok := EmitCat(a, b);
        case Alt(a, b) =>
          ok := EmitAlt(a, b);
        case Capture(b) =>
          ok := EmitCapture(b);
        case Look(negated, b) =>
          ok := EmitLook(negated, b);
        case Quant(b, min, max, greedy) =>
          ok := EmitQuant(b, min, max, greedy);
        case Class(points) =>
          ok := EmitRange(points);
          if !ok { return; }
          Assemble1(ClassInstr(points));
        case _ =>
          CodeFit(r, cc);
          var i := CodeOf(r, captureCount)[0];
          EmitInstr(i);
          assert CodeOf(r, cc) == [i];
          Assemble1(i);
          return true;
      }
    }

    /** `re_parse_alternative`: one term after the other. */
    method EmitCat(a: Regex, b: Regex) returns (ok: bool)
      requires Valid(a) && Valid(b) && captureCount <= CAPTURE_COUNT_MAX && Small(Cat(a, b), captureCount)
      modifies this
      ensures ok <==> ClassesFit(Cat(a, b)) && old(captureCount) + Captures(Cat(a, b)) <= CAPTURE_COUNT_MAX
      ensures ok ==> captureCount == old(captureCount) + Captures(Cat(a, b))
      ensures ok ==> Appended(old(buf), buf, Cat(a, b), old(captureCount))
      decreases Cat(a, b), 0
    {
      hide Assemble, CodeSize, Encode, Fits, QuantCode, AltCode, LookCode, ClassInstr, CharInstr;
      ghost var pre, cc := buf, captureCount;
      ok := Emit(a);
      if !ok { return; }
      ok := Emit(b);
      if !ok { return; }
      AssembleAppend(CodeOf(a, cc), CodeOf(b, cc + Captures(a)));
      assert buf == pre + (Assemble(CodeOf(a, cc)) + Assemble(CodeOf(b, cc + Captures(a))));
    }

    /** The atom, then what its quantifier puts around it. */
    method EmitQuant(b: Regex, min: nat, max: nat, greedy: bool) returns (ok: bool)
      requires Valid(Quant(b, min, max, greedy)) && captureCount <= CAPTURE_COUNT_MAX
      requires Small(Quant(b, min, max, greedy), captureCount)
      modifies this
      ensures var r := Quant(b, min, max, greedy);
        ok <==> ClassesFit(r) && old(captureCount) + Captures(r) <= CAPTURE_COUNT_MAX
      ensures ok ==> captureCount == old(captureCount) + Captures(Quant(b, min, max, greedy))
      ensures ok ==> Appended(old(buf), buf, Quant(b, min, max, greedy), old(captureCount))
      decreases Quant(b, min, max, greedy), 0
    {
      hide Assemble, CodeSize, Encode, Fits, QuantCode, AltCode, LookCode, ClassInstr, CharInstr;
      ghost var pre, cc := buf, captureCount;
      var start, lastCaptureCount := |buf|, captureCount;
      ok := Emit(b);
      if !ok { return; }
      CodeFit(Quant(b, min, max, greedy), cc);
      EmitQuantifier(start, lastCaptureCount, min, max, greedy, pre, CodeOf(b, cc));
    }

    /** `re_parse_disjunction`: the split is inserted in front of the first alternative, the goto
        behind it is patched once the length of the second is known. */
    method EmitAlt(a: Regex, b: Regex) returns (ok: bool)
      requires Valid(a) && Valid(b) && captureCount <= CAPTURE_COUNT_MAX && Small(Alt(a, b), captureCount)
      modifies this
      ensures ok <==> ClassesFit(Alt(a, b)) && old(captureCount) + Captures(Alt(a, b)) <= CAPTURE_COUNT_MAX
      ensures ok ==> captureCount == old(captureCount) + Captures(Alt(a, b))
      ensures ok ==> Appended(old(buf), buf, Alt(a, b), old(captureCount))
      decreases Alt(a, b), 0
    {
      hide Assemble, CodeSize, Encode, Fits, QuantCode, AltCode, LookCode, ClassInstr, CharInstr;
      ghost var pre, cc := buf, captureCount;
      var start := |buf|;
      ok := Emit(a);
      if !ok { return; }
      ghost var ca, cb := CodeOf(a, cc), CodeOf(b, cc + Captures(a));
      AltSizes(ca, cb);
      ghost var front;
      var pos;
      front, pos := OpenAlt(start, pre, Assemble(ca));
      ok := Emit(b);
      if !ok { return; }
      CloseAlt(pos, front, Assemble(cb));
      CodeFit(Alt(a, b), cc);
      AltBytes(ca, cb);
      AltJoin(pre, Encode(ISplit(true, CodeSize(ca) + 5)), Assemble(ca), [GOTO], U32(CodeSize(cb)), Assemble(cb));
    }

    /** Insert the split in front of the first alternative and append a goto still without a target. */
    method OpenAlt(start: nat, ghost pre: seq<byte>, ghost a: seq<byte>) returns (ghost front: seq<byte>, pos: nat)
      requires buf == pre + a && start == |pre| && IsOffset(|a| + 5)
      modifies this`buf
      ensures Fits(ISplit(true, |a| + 5)) && front == pre + Encode(ISplit(true, |a| + 5)) + a + [GOTO]
      ensures buf == front + U32(0) && pos == |front|
    {
      hide Encode;
      var len := |buf| - start;
      var split := ISplit(true, len + 5);
      SplitFits(true, len + 5);
      InsertInstr(start, split, pre, a);
      pos := EmitOpU32(GOTO, 0);
      front := pre + Encode(split) + a + [GOTO];
    }

    /** Patch the goto with the length of the second alternative. */
    method CloseAlt(pos: nat, ghost front: seq<byte>, ghost b: seq<byte>)
      requires buf == front + U32(0) + b && pos == |front| && Is32(|b|)
      modifies this`buf
      ensures buf == front + U32(|b|) + b
    {
      var len := |buf| - (pos + 4);
      Patch(pos, len, front, U32(0), b);
    }

    method EmitCapture(b: Regex) returns (ok: bool)
      requires Valid(b) && captureCount <= CAPTURE_COUNT_MAX && Small(Capture(b), captureCount)
      modifies this
      ensures ok <==> ClassesFit(b) && old(captureCount) + Captures(Capture(b)) <= CAPTURE_COUNT_MAX
      ensures ok ==> captureCount == old(captureCount) + Captures(Capture(b))
      ensures ok ==> Appended(old(buf), buf, Capture(b), old(captureCount))
      decreases Capture(b), 0
    {
      hide Assemble, CodeSize, Encode;
      if captureCount >= CAPTURE_COUNT_MAX { return false; }
      ghost var pre := buf;
      var captureIndex := captureCount;
      captureCount := captureCount + 1;
      var open, close := ISave(false, captureIndex), ISave(true, captureIndex);
      EmitInstr(open);
      ok := Emit(b);
      if !ok { return; }
      EmitInstr(close);
      ghost var cb := CodeOf(b, captureIndex + 1);
      AssembleFramed([open], cb, [close]);
      Assemble1(open);
      Assemble1(close);
      assert buf == pre + (Encode(open) + Assemble(cb) + Encode(close));
    }

    /** A lookahead: the jump behind its `match` is patched at the end. */
    method EmitLook(negated: bool, b: Regex) returns (ok: bool)
      requires Valid(b) && captureCount <= CAPTURE_COUNT_MAX && Small(Look(negated, b), captureCount)
      modifies this
      ensures ok <==> ClassesFit(b) && old(captureCount) + Captures(b) <= CAPTURE_COUNT_MAX
      ensures ok ==> captureCount == old(captureCount) + Captures(b)
      ensures ok ==> Appended(old(buf), buf, Look(negated, b), old(captureCount))
      decreases Look(negated, b), 0
    {
      hide Assemble, CodeSize, Encode, Fits, QuantCode, AltCode, LookCode, ClassInstr, CharInstr;
      ghost var pre, cc := buf, captureCount;
      var op := if negated then NEGATIVE_LOOKAHEAD else LOOKAHEAD;
      var pos := EmitOpU32(op, 0);
      ghost var front, hole := pre + [op], U32(0);
      ok := Emit(b);
      if !ok { return; }
      ghost var cb := CodeOf(b, cc);
      EmitOp(MATCH);
      ghost var tail := Assemble(cb) + [MATCH];
      assert buf == front + hole + tail && pos == |front|;
      var len := |buf| - (pos + 4);
      assert len == CodeSize(cb) + 1;
      CodeFit(Look(negated, b), cc);
      LookBytes(negated, cb);
      Patch(pos, len, front, hole, tail);
      assert buf == pre + (([op] + U32(len)) + Assemble(cb) + [MATCH]);
    }
  }

  function Push(check: bool): seq<byte> { if check then [PUSH_CHAR_POS] else [] }

  function Check(check: bool): seq<byte> { if check then [CHECK_ADVANCE] else [] }

  lemma MatchByte()
    ensures Encode(IMatch) == [MATCH] && Fits(IMatch)
  {
  }

  lemma DropByte()
    ensures Encode(IDrop) == [DROP] && Fits(IDrop)
  {
  }

  function JumpOpcode(i: Instr): byte {
    if i.ILoop? then LOOP else if i.ISplit? then (if i.nextFirst then SPLIT_NEXT_FIRST else SPLIT_GOTO_FIRST) else GOTO
  }

  lemma JumpBytes(i: Instr)
    requires Fits(i) && (i.IGoto? || i.ILoop? || i.ISplit?)
    ensures IsOffset(i.off) && Encode(i) == [JumpOpcode(i)] + U32(Wrap(i.off))
  {
  }

  lemma FiveBytes(i: Instr)
    requires Fits(i) && (i.IPushI32? || i.ISplit? || i.IGoto? || i.ILoop?)
    ensures |Encode(i)| == 5
  {
  }

  lemma IterationBytes(atom: Code)
    requires AllFit(atom)
    ensures AllFit(Iteration(atom))
    ensures var check := NeedCheck(atom); Assemble(Iteration(atom)) == Push(check) + Assemble(atom) + Check(check)
  {
    hide Assemble, NeedCheck;
    if NeedCheck(atom) {
      AssembleFramed([IPushCharPos], atom, [ICheckAdvance]);
      Assemble1(IPushCharPos);
      Assemble1(ICheckAdvance);
    }
  }

  /** The bytes of `?` and `*`. */
  lemma SplitFacts(atom: Code, greedy: bool, hasGoto: bool)
    requires AllFit(atom) && AllFit(if hasGoto then StarCode(atom, greedy) else OptionCode(atom, greedy))
    ensures var check := NeedCheck(atom);
      var off := CodeSize(atom) + (if hasGoto then 5 else 0) + (if check then 2 else 0);
      var body := Push(check) + Assemble(atom) + Check(check);
      Fits(ISplit(greedy, off)) && |Encode(ISplit(greedy, off))| == 5 &&
      if hasGoto then
        Fits(IGoto(-(off + 5))) &&
        Assemble(StarCode(atom, greedy)) == Encode(ISplit(greedy, off)) + body + Encode(IGoto(-(off + 5)))
      else Assemble(OptionCode(atom, greedy)) == Encode(ISplit(greedy, off)) + body
  {
    hide Assemble, NeedCheck, CodeSize, Encode, Iteration;
    IterationBytes(atom);
    IterationSize(atom);
    var n: int := CodeSize(Iteration(atom));
    var split := ISplit(greedy, n + (if hasGoto then 5 else 0));
    if hasGoto {
      var jump := IGoto(-(n + 10));
      var code := StarCode(atom, greedy);
      assert code[0] == split && code[|code| - 1] == jump;
      AssembleFramed([split], Iteration(atom), [jump]);
      Assemble1(jump);
    } else {
      assert OptionCode(atom, greedy)[0] == split;
      AssembleAppend([split], Iteration(atom));
    }
    Assemble1(split);
    FiveBytes(split);
  }

  lemma CountedAssembled(body: Code, push: Instr, split: Instr, jump: Instr)
    requires AllFit([push, split] + body + [jump, IDrop])
    ensures Fits(push) && Fits(split) && Fits(jump) && AllFit(body)
    ensures Assemble([push, split] + body + [jump, IDrop])
         == Encode(push) + Encode(split) + Assemble(body) + (Encode(jump) + [DROP])
  {
    hide Fits, Assemble, Encode;
    var code := [push, split] + body + [jump, IDrop];
    assert code[0] == push && code[1] == split && code[|code| - 2] == jump;
    assert forall k :: 0 <= k < |body| ==> code[k + 2] == body[k];
    DropByte();
    AssembleFramed([push, split], body, [jump, IDrop]);
    Assemble2(push, split);
    Assemble2(jump, IDrop);
  }

  /** The bytes of `{0,count}`. */
  lemma CountedFacts(atom: Code, greedy: bool, count: nat)
    requires AllFit(atom) && AllFit(CountedCode(atom, greedy, count))
    ensures var check := NeedCheck(atom);
      var off := CodeSize(atom) + 5 + (if check then 2 else 0);
      var body := Push(check) + Assemble(atom) + Check(check);
      var push, split, jump := IPushI32(count), ISplit(greedy, off), ILoop(-(off + 5));
      Fits(push) && Fits(split) && Fits(jump) && |Encode(push)| == 5 && |Encode(split)| == 5 &&
      Assemble(CountedCode(atom, greedy, count)) == Encode(push) + Encode(split) + body + (Encode(jump) + [DROP])
  {
    hide Assemble, NeedCheck, CodeSize, Encode, Iteration, Fits, AllFit, Push, Check;
    IterationBytes(atom);
    IterationSize(atom);
    var n: int := CodeSize(Iteration(atom));
    var push, split, jump := IPushI32(count), ISplit(greedy, n + 5), ILoop(-(n + 10));
    CountedAssembled(Iteration(atom), push, split, jump);
    FiveBytes(push);
    FiveBytes(split);
  }

  lemma AssembleNothing()
    ensures AllFit([]) && Assemble([]) == []
  {
  }

  lemma ThreeBytes(i: Instr)
    requires Fits(i) && i.ISaveReset?
    ensures |Encode(i)| == 3
  {
  }

  lemma AllFitParts(a: Code, b: Code)
    requires AllFit(a + b)
    ensures AllFit(a) && AllFit(b)
  {
    hide Fits;
    assert forall k :: 0 <= k < |a| ==> (a + b)[k] == a[k];
    assert forall k :: 0 <= k < |b| ==> (a + b)[|a| + k] == b[k];
  }

  /** The atom inside the counting loop can be copied. */
  lemma TimesHoldsAtom(pre: seq<byte>, atom: Code, min: nat)
    requires AllFit(atom) && AllFit(TimesCode(atom, min))
    ensures var all, p := pre + Assemble(TimesCode(atom, min)), |pre| + 5;
      p + CodeSize(atom) <= |all| && all[p..p + CodeSize(atom)] == Assemble(atom)
  {
    hide Assemble, CodeSize, Encode, Fits;
    var push, rest := IPushI32(min), [ILoop(-(CodeSize(atom) + 5)), IDrop];
    AllFitParts([push] + atom, rest);
    AllFitParts([push], atom);
    AssembleFramed([push], atom, rest);
    assert push == [push][0];
    Assemble1(push);
    FiveBytes(push);
    var all := pre + (Encode(push) + Assemble(atom) + Assemble(rest));
    assert all == (pre + Encode(push)) + Assemble(atom) + Assemble(rest);
  }

  lemma AltSizes(a: Code, b: Code)
    ensures CodeSize(AltCode(a, b)) == CodeSize(a) + CodeSize(b) + 10
  {
    hide CodeSize;
    var split, jump := ISplit(true, CodeSize(a) + 5), IGoto(CodeSize(b));
    FramedSize([split], a, [jump]);
    SizeAppend([split] + a + [jump], b);
    Size1(split);
    Size1(jump);
  }

  lemma SplitFits(nextFirst: bool, off: int)
    requires IsOffset(off)
    ensures Fits(ISplit(nextFirst, off)) && |Encode(ISplit(nextFirst, off))| == 5
  {
  }

  lemma AltBytes(a: Code, b: Code)
    requires AllFit(a) && AllFit(b) && AllFit(AltCode(a, b))
    ensures var split := ISplit(true, CodeSize(a) + 5);
      Fits(split) && Is32(CodeSize(b)) &&
      Assemble(AltCode(a, b)) == Encode(split) + Assemble(a) + ([GOTO] + U32(CodeSize(b))) + Assemble(b)
  {
    hide Assemble, CodeSize, Encode, Fits;
    var split, jump := ISplit(true, CodeSize(a) + 5), IGoto(CodeSize(b));
    AllFitParts([split] + a + [jump], b);
    AllFitParts([split] + a, [jump]);
    AllFitParts([split], a);
    assert split == [split][0] && jump == [jump][0];
    AssembleAppend([split] + a + [jump], b);
    AssembleFramed([split], a, [jump]);
    Assemble1(split);
    Assemble1(jump);
    JumpBytes(jump);
  }

  lemma AltJoin(pre: seq<byte>, split: seq<byte>, a: seq<byte>, op: seq<byte>, word: seq<byte>, b: seq<byte>)
    ensures (pre + split + a + op) + word + b == pre + (split + a + (op + word) + b)
  {
  }

  lemma LookFits(negated: bool, b: Code)
    requires AllFit(LookCode(negated, b))
    ensures var op := ILook(negated, CodeSize(b) + 1);
      LookCode(negated, b) == [op] + b + [IMatch] && AllFit([op]) && AllFit([IMatch]) && Fits(op) && Fits(IMatch)
    ensures Is32(CodeSize(b) + 1)
  {
    hide CodeSize;
    var op := ILook(negated, CodeSize(b) + 1);
    AllFitParts([op] + b, [IMatch]);
    AllFitParts([op], b);
    assert op == [op][0];
  }

  lemma LookBytes(negated: bool, b: Code)
    requires AllFit(b) && AllFit(LookCode(negated, b))
    ensures Is32(CodeSize(b) + 1)
    ensures Assemble(LookCode(negated, b)) ==
      ([if negated then NEGATIVE_LOOKAHEAD else LOOKAHEAD] + U32(CodeSize(b) + 1)) + Assemble(b) + [MATCH]
  {
    hide Assemble, CodeSize, AllFit, Fits;
    LookFits(negated, b);
    var op := ILook(negated, CodeSize(b) + 1);
    AssembleFramed([op], b, [IMatch]);
    Assemble1(op);
    Assemble1(IMatch);
  }
}
