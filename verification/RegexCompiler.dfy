/** `lre_compile` from the parsed expression on: header, search prefix, body, stack size. */
module RegexCompiler {
  import opened RegexSyntax
  import opened RegexSemantics
  import opened RegexCode
  import opened RegexCompile
  import opened RegexEmit
  import opened RegexStack

  const STACK_SIZE_MAX := 255
  const HEADER_LEN := 8

  /** Flag bit 5 of the header. */
  predicate IsSticky(flags: int)
    requires Is16(flags)
  {
    (flags / 32) % 2 == 1
  }

  function Header(flags: int, captureCount: byte, stackSize: byte, length: int): (h: seq<byte>)
    requires Is16(flags) && Is32(length)
    ensures |h| == HEADER_LEN
  {
    U16(flags) + [captureCount, stackSize] + U32(length)
  }

  /** The limits beyond which compilation fails: "too many ranges", "too many captures",
      "too many imbricated quantifiers". */
  predicate Compilable(r: Regex, sticky: bool)
    requires Valid(r)
  {
    ClassesFit(r) && 1 + Captures(r) <= CAPTURE_COUNT_MAX && StackSize(ProgramCode(r, sticky), 0) <= STACK_SIZE_MAX
  }

  /** At most 254 groups, 255 words of stack and 65534 ranges in a class. */
  lemma Limits(r: Regex, sticky: bool)
    requires Valid(r)
    ensures Compilable(r, sticky) <==>
      ClassesFit(r) && Captures(r) <= 254 && StackSize(ProgramCode(r, sticky), 0) <= 255
    ensures r.Class? ==> (ClassesFit(r) <==> |r.points| <= 2 * 65534)
  {
  }

  /** What the compiled program is: the header and the assembled code. */
  ghost predicate IsProgram(bytes: seq<byte>, r: Regex, flags: int)
    requires Valid(r) && Is16(flags)
  {
    var code := ProgramCode(r, IsSticky(flags));
    var depth := StackSize(code, 0);
    AllFit(code) && 1 + Captures(r) < 0x100 && 0 <= depth < 0x100 && CodeSize(code) < TWO31 &&
    bytes == Header(flags, 1 + Captures(r), depth, CodeSize(code)) + Assemble(code)
  }

  ///// The stack size

  predicate IsPushOpcode(op: byte) { op == PUSH_I32 || op == PUSH_CHAR_POS }

  predicate IsPopOpcode(op: byte) { op == DROP || op == CHECK_ADVANCE }

  lemma EffectOpcode(bc: seq<byte>, p: nat)
    requires Fetch(bc, p) != IOther
    ensures p < |bc|
    ensures Effect(Fetch(bc, p)) == if IsPushOpcode(bc[p]) then 1 else if IsPopOpcode(bc[p]) then -1 else 0
    ensures IsPopOpcode(bc[p]) <==> Fetch(bc, p).IDrop? || Fetch(bc, p).ICheckAdvance?
  {
  }

  lemma SizeStep(rest: Code, depth: int)
    requires rest != []
    ensures var next := StackSize(rest[1..], depth + Effect(rest[0]));
      StackSize(rest, depth) == if next > depth then next else depth
  {
  }

  /** The depth before an instruction of the straight walk. */
  lemma WalkDepth(code: Code, done: Code, rest: Code)
    requires code == done + rest && rest != [] && AllKeepDepth(code, CodeSize(done), rest)
    ensures Net(done) >= 0 && (rest[0].IDrop? || rest[0].ICheckAdvance? ==> Net(done) >= 1)
    ensures AllKeepDepth(code, CodeSize(done + [rest[0]]), rest[1..]) &&
      Net(done + [rest[0]]) == Net(done) + Effect(rest[0])
  {
    hide CodeSize, Net, DepthAt, Effect;
    DepthAtSeam(code, done, rest);
    SizeAppend(done, [rest[0]]);
    NetAppend(done, [rest[0]]);
    Net1(rest[0]);
  }

  /** `lre_compute_stack_size`: the deepest operand stack, -1 when it exceeds the limit. */
  method ComputeStackSize(bc: seq<byte>, ghost code: Code) returns (size: int)
    requires |bc| == HEADER_LEN + CodeSize(code) && At(bc, HEADER_LEN, code) && AllKeepDepth(code, 0, code)
    ensures size == if StackSize(code, 0) > STACK_SIZE_MAX then -1 else StackSize(code, 0)
  {
    hide Fetch, At, CodeSize, InstrLength, StackSize, AllKeepDepth, KeepsDepth, Net, DepthAt, Effect;
    var stackSize, stackSizeMax := 0, 0;
    var pos := HEADER_LEN;
    ghost var done: Code, rest: Code := [], code;
    NetNothing();
    assert [] + code == code;
    while pos < |bc|
      invariant HEADER_LEN <= pos && pos + CodeSize(rest) == |bc| && At(bc, pos, rest)
      invariant code == done + rest && AllKeepDepth(code, CodeSize(done), rest) && stackSize == Net(done)
      invariant stackSize <= stackSizeMax <= STACK_SIZE_MAX
      invariant var later := StackSize(rest, stackSize);
        StackSize(code, 0) == if later > stackSizeMax then later else stackSizeMax
    {
      ScanStep(bc, pos, rest);
      OpcodeFacts(bc, pos);
      EffectOpcode(bc, pos);
      SizeStep(rest, stackSize);
      WalkDepth(code, done, rest);
      done := done + [rest[0]];
      rest := rest[1..];
      var op := bc[pos];
      pos := pos + InstrLength(bc, pos);
      if IsPushOpcode(op) {
        stackSize := stackSize + 1;
        if stackSize > stackSizeMax {
          if stackSize > STACK_SIZE_MAX { return -1; }
          stackSizeMax := stackSize;
        }
      } else if IsPopOpcode(op) {
        assert stackSize > 0;
        stackSize := stackSize - 1;
      }
    }
    NothingLeft(rest, stackSize);
    return stackSizeMax;
  }

  lemma NothingLeft(rest: Code, depth: int)
    requires CodeSize(rest) == 0
    ensures rest == [] && StackSize(rest, depth) == depth
  {
  }

  ///// The driver

  lemma PrefixBytes(sticky: bool)
    ensures AllFit(SearchPrefix(sticky))
    ensures Assemble(SearchPrefix(sticky)) ==
      if sticky then [] else [SPLIT_GOTO_FIRST] + U32(6) + [ANY] + [GOTO] + U32(Wrap(-11))
  {
    AssembleNothing();
    if !sticky {
      AssembleFramed([ISplit(false, 6)], [IAny], [IGoto(-11)]);
      Assemble1(ISplit(false, 6));
      Assemble1(IAny);
      Assemble1(IGoto(-11));
    }
  }

  lemma ProgramBytes(r: Regex, sticky: bool)
    requires Valid(r) && AllFit(CodeOf(r, 1))
    ensures AllFit(ProgramCode(r, sticky))
    ensures Assemble(ProgramCode(r, sticky)) ==
      Assemble(SearchPrefix(sticky)) + [SAVE_START, 0] + Assemble(CodeOf(r, 1)) + [SAVE_END, 0] + [MATCH]
  {
    hide Assemble, CodeOf;
    PrefixBytes(sticky);
    var open, close := ISave(false, 0), [ISave(true, 0), IMatch];
    AssembleFramed([open], CodeOf(r, 1), close);
    AssembleAppend(SearchPrefix(sticky), [open] + CodeOf(r, 1) + close);
    Assemble1(open);
    Assemble2(ISave(true, 0), IMatch);
  }

  method EmitPrefix(s: Emitter, sticky: bool)
    modifies s`buf
    ensures AllFit(SearchPrefix(sticky)) && s.buf == old(s.buf) + Assemble(SearchPrefix(sticky))
  {
    hide Assemble, SearchPrefix;
    PrefixBytes(sticky);
    if !sticky {
      var _ := s.EmitOpU32(SPLIT_GOTO_FIRST, 6);
      s.EmitOp(ANY);
      var _ := s.EmitOpU32(GOTO, Wrap(-11));
    }
  }

  /** The code between the header and its end. */
  method EmitProgram(s: Emitter, r: Regex, sticky: bool) returns (ok: bool)
    requires Valid(r) && Small(r, 1) && s.captureCount == 1
    modifies s
    ensures ok <==> ClassesFit(r) && 1 + Captures(r) <= CAPTURE_COUNT_MAX
    ensures ok ==> s.captureCount == 1 + Captures(r)
    ensures ok ==> AllFit(ProgramCode(r, sticky)) && s.buf == old(s.buf) + Assemble(ProgramCode(r, sticky))
  {
    hide Assemble, CodeSize, CodeOf, SearchPrefix, ProgramCode, Fits;
    ghost var pre := s.buf;
    EmitPrefix(s, sticky);
    s.EmitBytes([SAVE_START, 0]);
    ok := s.Emit(r);
    if !ok { return; }
    s.EmitBytes([SAVE_END, 0]);
    s.EmitOp(MATCH);
    ProgramBytes(r, sticky);
    assert s.buf ==
      pre + (Assemble(SearchPrefix(sticky)) + [SAVE_START, 0] + Assemble(CodeOf(r, 1)) + [SAVE_END, 0] + [MATCH]);
  }

  /** Compile `r`; nothing when a limit is exceeded. */
  method Compile(r: Regex, flags: int) returns (program: Option<seq<byte>>)
    requires Valid(r) && Is16(flags) && Small(r, 1) && CodeSize(ProgramCode(r, IsSticky(flags))) < TWO31
    ensures program.Some? <==> Compilable(r, IsSticky(flags))
    ensures program.Some? ==> IsProgram(program.value, r, flags)
  {
    hide Assemble, CodeSize, Fetch, At, AllKeepDepth, StackSize, ProgramCode, Fits, U16, U32, Header, AllFit, Small,
      ClassesFit, Valid;
    var s := new Emitter();
    s.EmitBytes(U16(flags) + [0, 0] + U32(0));
    ghost var header := s.buf;
    var ok := EmitProgram(s, r, IsSticky(flags));
    if !ok { return None; }
    ghost var code := ProgramCode(r, IsSticky(flags));
    CodeBehindHeader(s.buf, header, code);
    ProgramKeepsDepth(r, IsSticky(flags));
    var stackSize := ComputeStackSize(s.buf, code);
    if stackSize < 0 { return None; }
    StackSizeNat(code);
    var bytes := FillHeader(s.buf, flags, s.captureCount, stackSize, Assemble(code));
    return Some(bytes);
  }

  /** Capture count, stack size and length are written into the header at the end. */
  method FillHeader(buf: seq<byte>, flags: int, captureCount: byte, stackSize: byte, ghost code: seq<byte>)
    returns (bytes: seq<byte>)
    requires Is16(flags) && Is32(|code|) && buf == U16(flags) + [0, 0] + U32(0) + code
    ensures bytes == Header(flags, captureCount, stackSize, |code|) + code
  {
    var length := |buf| - HEADER_LEN;
    bytes := buf[2 := captureCount][3 := stackSize];
    bytes := bytes[..4] + U32(length) + bytes[8..];
    HeaderPatched(buf, U16(flags) + [0, 0] + U32(0), code, flags, captureCount, stackSize, length, bytes);
  }

  lemma CodeBehindHeader(buf: seq<byte>, header: seq<byte>, code: Code)
    requires AllFit(code) && |header| == HEADER_LEN && buf == header + Assemble(code)
    ensures |buf| == HEADER_LEN + CodeSize(code) && At(buf, HEADER_LEN, code)
  {
    hide At, Assemble, CodeSize;
    assert buf[HEADER_LEN..HEADER_LEN + CodeSize(code)] == Assemble(code);
    AssembledAt(buf, HEADER_LEN, code);
  }

  lemma StackSizeNat(code: Code)
    ensures StackSize(code, 0) >= 0
  {
  }

  lemma HeaderPatched(buf: seq<byte>, header: seq<byte>, code: seq<byte>, flags: int, captureCount: byte,
        stackSize: byte, length: int, bytes: seq<byte>)
    requires Is16(flags) && Is32(length) && header == U16(flags) + [0, 0] + U32(0) && buf == header + code
    requires var b := buf[2 := captureCount][3 := stackSize]; bytes == b[..4] + U32(length) + b[8..]
    ensures bytes == Header(flags, captureCount, stackSize, length) + code
  {
    var b := buf[2 := captureCount][3 := stackSize];
    assert b[..4] == U16(flags) + [captureCount, stackSize];
    assert b[8..] == code;
  }
}
