/** The linear stack analysis of the compiler is sound for the branching machine. */
module RegexStack {
  import opened RegexSyntax
  import opened RegexSemantics
  import opened RegexCode
  import opened RegexCompile
  import opened RegexVM
  import opened RegexSearch

  ///// The analysis

  function Effect(i: Instr): int {
    if i.IPushI32? || i.IPushCharPos? then 1
    else if i.IDrop? || i.ICheckAdvance? then -1
    else 0
  }

  function Net(code: Code): int {
    if code == [] then 0 else Effect(code[0]) + Net(code[1..])
  }

  /** `lre_compute_stack_size`: the deepest stack of a straight walk through the code. */
  function StackSize(code: Code, depth: int): (max: int)
    ensures max >= depth
  {
    if code == [] then depth
    else
      var rest := StackSize(code[1..], depth + Effect(code[0]));
      if rest > depth then rest else depth
  }

  /** The depth that the straight walk, started at `depth`, has at byte offset `q`; none inside an instruction. */
  function DepthAt(code: Code, q: int, depth: int): Option<int>
    decreases |code|
  {
    if q == 0 then Some(depth)
    else if code == [] || q < Size(code[0]) then None
    else DepthAt(code[1..], q - Size(code[0]), depth + Effect(code[0]))
  }

  predicate IsJump(i: Instr) {
    i.IGoto? || i.ISplit? || i.ILoop? || i.ILook? || i.ISimpleGreedy?
  }

  /** The instruction `i` at offset `o` keeps to the analysis: its jump arrives at the same depth,
      a popped operand is there, and control does not run off the end. */
  predicate KeepsDepth(code: Code, o: int, i: Instr) {
    var d := DepthAt(code, o, 0);
    d.Some? && d.value >= 0
    && (IsJump(i) ==> DepthAt(code, o + Size(i) + i.off, 0) == d && o + Size(i) + i.off < CodeSize(code))
    && (i.IDrop? || i.ICheckAdvance? || i.ILoop? ==> d.value >= 1)
    && (!i.IMatch? ==> o + Size(i) < CodeSize(code))
  }

  predicate AllKeepDepth(code: Code, o: int, part: Code)
    decreases |part|
  {
    part == [] || (KeepsDepth(code, o, part[0]) && AllKeepDepth(code, o + Size(part[0]), part[1..]))
  }

  ///// Concatenation

  lemma {:induction false} NetAppend(a: Code, b: Code)
    ensures Net(a + b) == Net(a) + Net(b)
  {
    if a == [] {
      assert a + b == b;
    } else {
      assert (a + b)[1..] == a[1..] + b;
      NetAppend(a[1..], b);
    }
  }

  lemma {:induction false} DepthAppend(a: Code, b: Code, q: int, depth: int)
    requires q >= 0
    ensures DepthAt(a + b, CodeSize(a) + q, depth) == DepthAt(b, q, depth + Net(a))
    decreases |a|
  {
    hide Size, Effect;
    if a == [] {
      assert a + b == b;
    } else {
      assert (a + b)[1..] == a[1..] + b;
      DepthAppend(a[1..], b, q, depth + Effect(a[0]));
    }
  }

  /** At the seam of two pieces the walk has the first piece's depth. */
  lemma DepthAtSeam(code: Code, a: Code, b: Code)
    requires code == a + b
    ensures DepthAt(code, CodeSize(a), 0) == Some(Net(a)) && CodeSize(code) == CodeSize(a) + CodeSize(b)
    ensures b != [] ==> CodeSize(a) < CodeSize(code)
  {
    DepthAppend(a, b, 0, 0);
    SizeAppend(a, b);
  }

  lemma {:induction false} KeepAppend(code: Code, o: int, a: Code, b: Code)
    ensures AllKeepDepth(code, o, a + b) <==> AllKeepDepth(code, o, a) && AllKeepDepth(code, o + CodeSize(a), b)
    decreases |a|
  {
    hide KeepsDepth, Size;
    if a == [] {
      assert a + b == b;
    } else {
      assert (a + b)[1..] == a[1..] + b;
      KeepAppend(code, o + Size(a[0]), a[1..], b);
    }
  }

  ///// Pieces of compiled code in place

  /** `part` stands at offset `o` of `code`, and the walk enters it at depth `d`. */
  ghost predicate Placed(code: Code, o: int, part: Code, d: int) {
    exists pre, post :: IsPlace(code, pre, part, post) && CodeSize(pre) == o && Net(pre) == d
  }

  ghost predicate IsPlace(code: Code, pre: Code, part: Code, post: Code) {
    code == pre + part + post
  }

  lemma PlaceParts(code: Code, pre: Code, a: Code, b: Code, post: Code)
    requires IsPlace(code, pre, a + b, post)
    ensures IsPlace(code, pre, a, b + post) && IsPlace(code, pre + a, b, post)
  {
    assert pre + (a + b) + post == pre + a + (b + post);
    assert pre + (a + b) + post == (pre + a) + b + post;
  }

  lemma PlacedParts(code: Code, o: int, a: Code, b: Code, d: int)
    requires Placed(code, o, a + b, d)
    ensures Placed(code, o, a, d) && Placed(code, o + CodeSize(a), b, d + Net(a))
    ensures Net(a + b) == Net(a) + Net(b) && CodeSize(a + b) == CodeSize(a) + CodeSize(b)
  {
    hide Net, CodeSize, IsPlace;
    var pre, post :| IsPlace(code, pre, a + b, post) && CodeSize(pre) == o && Net(pre) == d;
    PlaceParts(code, pre, a, b, post);
    NetAppend(pre, a);
    SizeAppend(pre, a);
    NetAppend(a, b);
    SizeAppend(a, b);
  }

  lemma PlacedDepths(code: Code, o: int, part: Code, d: int)
    requires Placed(code, o, part, d)
    ensures DepthAt(code, o, 0) == Some(d) && DepthAt(code, o + CodeSize(part), 0) == Some(d + Net(part))
    ensures 0 <= o && o + CodeSize(part) <= CodeSize(code)
  {
    hide Net, CodeSize, DepthAt;
    var pre, post :| IsPlace(code, pre, part, post) && CodeSize(pre) == o && Net(pre) == d;
    assert code == pre + (part + post);
    DepthAtSeam(code, pre, part + post);
    DepthAtSeam(code, pre + part, post);
    SizeAppend(pre, part);
    NetAppend(pre, part);
  }

  /** `part` keeps to the analysis wherever the walk enters it at depth `least` or more,
      and the walk leaves it at the same depth. */
  ghost predicate Level(part: Code, least: nat) {
    Net(part) == 0 &&
    forall code, o, d :: d >= least && Placed(code, o, part, d) && o + CodeSize(part) < CodeSize(code) ==>
      AllKeepDepth(code, o, part)
  }

  lemma OneKeeps(code: Code, o: int, i: Instr)
    requires KeepsDepth(code, o, i)
    ensures AllKeepDepth(code, o, [i])
  {
    hide KeepsDepth;
    assert [i][1..] == [];
  }

  lemma Net1(i: Instr)
    ensures Net([i]) == Effect(i) && CodeSize([i]) == Size(i)
  {
    assert [i][1..] == [];
  }

  /** An instruction without jump. */
  lemma PlainKeeps(code: Code, o: int, i: Instr, d: int)
    requires Placed(code, o, [i], d) && o + Size(i) < CodeSize(code) && d >= 0
    requires !IsJump(i) && (i.IDrop? || i.ICheckAdvance? ==> d >= 1)
    ensures AllKeepDepth(code, o, [i])
  {
    hide Size, DepthAt, CodeSize, Placed;
    PlacedDepths(code, o, [i], d);
    OneKeeps(code, o, i);
  }

  /** A jump to a place of the same depth. */
  lemma JumpKeeps(code: Code, o: int, i: Instr, d: int)
    requires Placed(code, o, [i], d) && o + Size(i) < CodeSize(code) && d >= 0
    requires IsJump(i) && (i.ILoop? ==> d >= 1)
    requires DepthAt(code, o + Size(i) + i.off, 0) == Some(d) && o + Size(i) + i.off < CodeSize(code)
    ensures AllKeepDepth(code, o, [i])
  {
    hide Size, DepthAt, CodeSize, Placed;
    PlacedDepths(code, o, [i], d);
    OneKeeps(code, o, i);
  }

  lemma ConcatFits(a: Code, b: Code, least: nat)
    requires Level(a, least) && Level(b, least)
    ensures Level(a + b, least)
  {
    hide AllKeepDepth, Net, CodeSize, Placed, Size;
    NetAppend(a, b);
    SizeAppend(a, b);
    forall code, o, d | d >= least && Placed(code, o, a + b, d) && o + CodeSize(a + b) < CodeSize(code)
      ensures AllKeepDepth(code, o, a + b)
    {
      PlacedParts(code, o, a, b, d);
      KeepAppend(code, o, a, b);
    }
  }

  lemma NothingFits(least: nat)
    ensures Level([], least)
  {
  }

  /** An instruction without jump or pop and without effect on the depth. */
  lemma PlainFits(i: Instr, least: nat)
    requires !IsJump(i) && Effect(i) == 0
    ensures Level([i], least)
  {
    hide AllKeepDepth, Placed;
    Net1(i);
    forall code, o, d | d >= least && Placed(code, o, [i], d) && o + CodeSize([i]) < CodeSize(code)
      ensures AllKeepDepth(code, o, [i])
    {
      PlainKeeps(code, o, i, d);
    }
  }

  /** Code bracketed by a push and a pop. */
  lemma BracketFits(push: Instr, a: Code, pop: Instr)
    requires Effect(push) == 1 && Effect(pop) == -1 && Level(a, 1)
    ensures Level([push] + a + [pop], 0)
  {
    hide AllKeepDepth, Net, CodeSize, Placed, Size;
    Net1(push);
    Net1(pop);
    NetAppend([push] + a, [pop]);
    NetAppend([push], a);
    SizeAppend([push] + a, [pop]);
    SizeAppend([push], a);
    var part := [push] + a + [pop];
    forall code, o, d | d >= 0 && Placed(code, o, part, d) && o + CodeSize(part) < CodeSize(code)
      ensures AllKeepDepth(code, o, part)
    {
      PlacedParts(code, o, [push] + a, [pop], d);
      PlacedParts(code, o, [push], a, d);
      PlainKeeps(code, o, push, d);
      PlainKeeps(code, o + CodeSize([push] + a), pop, d + 1);
      KeepAppend(code, o, [push] + a, [pop]);
      KeepAppend(code, o, [push], a);
    }
  }

  /** A jump forward over `a` and the one instruction `tail`, which may jump back to the front. */
  lemma OverFits(jump: Instr, a: Code, tail: Instr, least: nat)
    requires IsJump(jump) && !jump.ILoop? && jump.off == CodeSize(a) + Size(tail) && Level(a, least) &&
      Effect(tail) == 0
    requires tail.IMatch? || ((tail.IGoto? || tail.ILoop?) && tail.off == -(Size(jump) + CodeSize(a) + Size(tail)))
    requires tail.ILoop? ==> least >= 1
    ensures Level([jump] + a + [tail], least)
  {
    hide AllKeepDepth, Net, CodeSize, Placed, Size, DepthAt;
    Net1(jump);
    Net1(tail);
    NetAppend([jump] + a, [tail]);
    NetAppend([jump], a);
    SizeAppend([jump] + a, [tail]);
    SizeAppend([jump], a);
    var part := [jump] + a + [tail];
    forall code, o, d | d >= least && Placed(code, o, part, d) && o + CodeSize(part) < CodeSize(code)
      ensures AllKeepDepth(code, o, part)
    {
      PlacedDepths(code, o, part, d);
      PlacedParts(code, o, [jump] + a, [tail], d);
      PlacedParts(code, o, [jump], a, d);
      JumpKeeps(code, o, jump, d);
      if tail.IMatch? {
        PlainKeeps(code, o + CodeSize([jump] + a), tail, d);
      } else {
        JumpKeeps(code, o + CodeSize([jump] + a), tail, d);
      }
      KeepAppend(code, o, [jump] + a, [tail]);
      KeepAppend(code, o, [jump], a);
    }
  }

  /** A jump forward over `a`. */
  lemma SkipFits(jump: Instr, a: Code)
    requires IsJump(jump) && !jump.ILoop? && jump.off == CodeSize(a) && Level(a, 0)
    ensures Level([jump] + a, 0)
  {
    hide AllKeepDepth, Net, CodeSize, Placed, Size, DepthAt;
    Net1(jump);
    NetAppend([jump], a);
    SizeAppend([jump], a);
    forall code, o, d | d >= 0 && Placed(code, o, [jump] + a, d) && o + CodeSize([jump] + a) < CodeSize(code)
      ensures AllKeepDepth(code, o, [jump] + a)
    {
      PlacedDepths(code, o, [jump] + a, d);
      PlacedParts(code, o, [jump], a, d);
      JumpKeeps(code, o, jump, d);
      KeepAppend(code, o, [jump], a);
    }
  }

  /** A jump back to the front of the body. */
  lemma BackFits(a: Code, jump: Instr, least: nat)
    requires IsJump(jump) && (jump.ILoop? ==> least >= 1) && jump.off == -(CodeSize(a) + Size(jump)) && Level(a, least)
    ensures Level(a + [jump], least)
  {
    hide AllKeepDepth, Net, CodeSize, Placed, Size, DepthAt;
    Net1(jump);
    NetAppend(a, [jump]);
    SizeAppend(a, [jump]);
    forall code, o, d | d >= least && Placed(code, o, a + [jump], d) && o + CodeSize(a + [jump]) < CodeSize(code)
      ensures AllKeepDepth(code, o, a + [jump])
    {
      PlacedDepths(code, o, a + [jump], d);
      PlacedParts(code, o, a, [jump], d);
      JumpKeeps(code, o + CodeSize(a), jump, d);
      KeepAppend(code, o, a, [jump]);
    }
  }

  lemma AltFits(a: Code, b: Code)
    requires Level(a, 0) && Level(b, 0)
    ensures Level(AltCode(a, b), 0)
  {
    hide AllKeepDepth, Net, CodeSize, Placed, Size, DepthAt;
    var split, jump := ISplit(true, CodeSize(a) + 5), IGoto(CodeSize(b));
    var front, both := [split] + a, [split] + a + [jump];
    Net1(split);
    Net1(jump);
    NetAppend(both, b);
    NetAppend(front, [jump]);
    NetAppend([split], a);
    SizeAppend(both, b);
    SizeAppend(front, [jump]);
    SizeAppend([split], a);
    assert Size(split) == 5 && Size(jump) == 5 by { FiveBytes(split); FiveBytes(jump); }
    forall code, o, d | d >= 0 && Placed(code, o, both + b, d) && o + CodeSize(both + b) < CodeSize(code)
      ensures AllKeepDepth(code, o, both + b)
    {
      PlacedDepths(code, o, both + b, d);
      PlacedParts(code, o, both, b, d);
      PlacedDepths(code, o, both, d);
      PlacedParts(code, o, front, [jump], d);
      PlacedParts(code, o, [split], a, d);
      JumpKeeps(code, o, split, d);
      JumpKeeps(code, o + CodeSize(front), jump, d);
      KeepAppend(code, o, both, b);
      KeepAppend(code, o, front, [jump]);
      KeepAppend(code, o, [split], a);
    }
  }

  lemma FiveBytes(i: Instr)
    requires IsJump(i) && !i.ISimpleGreedy?
    ensures Size(i) == 5
  {
  }

  ///// Every term

  /** Fitting at depth 0 is fitting at any depth. */
  lemma Deeper(a: Code)
    requires Level(a, 0)
    ensures Level(a, 1)
  {
    hide AllKeepDepth, Net, CodeSize, Placed;
  }

  lemma IterationFits(atom: Code)
    requires Level(atom, 0)
    ensures Level(Iteration(atom), 0)
  {
    hide Level;
    Deeper(atom);
    if NeedCheck(atom) { BracketFits(IPushCharPos, atom, ICheckAdvance); }
  }

  lemma CountedFits(atom: Code, greedy: bool, count: nat)
    requires Level(atom, 0)
    ensures Level(CountedCode(atom, greedy, count), 0)
  {
    hide Level, Iteration;
    var body := Iteration(atom);
    var n: int := CodeSize(body);
    IterationFits(atom);
    Deeper(body);
    OverFits(ISplit(greedy, n + 5), body, ILoop(-(n + 10)), 1);
    var loop := [ISplit(greedy, n + 5)] + body + [ILoop(-(n + 10))];
    BracketFits(IPushI32(count), loop, IDrop);
    assert CountedCode(atom, greedy, count) == [IPushI32(count)] + loop + [IDrop];
  }

  lemma StarKeepsDepth(atom: Code, greedy: bool)
    requires Level(atom, 0)
    ensures Level(StarCode(atom, greedy), 0)
  {
    hide Level, Iteration;
    var body := Iteration(atom);
    var n: int := CodeSize(body);
    IterationFits(atom);
    OverFits(ISplit(greedy, n + 5), body, IGoto(-(n + 10)), 0);
  }

  lemma TimesFits(atom: Code, count: nat)
    requires Level(atom, 0)
    ensures Level(TimesCode(atom, count), 0)
  {
    hide Level;
    var n: int := CodeSize(atom);
    Deeper(atom);
    BackFits(atom, ILoop(-(n + 5)), 1);
    BracketFits(IPushI32(count), atom + [ILoop(-(n + 5))], IDrop);
    assert TimesCode(atom, count) == [IPushI32(count)] + (atom + [ILoop(-(n + 5))]) + [IDrop];
  }

  lemma QuantFits(atom: Code, cc: nat, captures: nat, min: nat, max: nat, greedy: bool)
    requires Level(atom, 0)
    ensures Level(QuantCode(atom, cc, captures, min, max, greedy), 0)
  {
    hide Level, StarCode, CountedCode, TimesCode, Iteration;
    NothingFits(0);
    IterationFits(atom);
    if IsSimple(atom, max, greedy) {
      OverFits(ISimpleGreedy(CodeSize(atom) + 1, min, max, SimpleScan(atom)), atom, IMatch, 0);
    } else if min == 0 {
      PlainFits(ISaveReset(cc, cc + captures - 1), 0);
      if max == 1 {
        SkipFits(ISplit(greedy, CodeSize(Iteration(atom))), Iteration(atom));
      } else if max == INT32_MAX {
        StarKeepsDepth(atom, greedy);
      } else if max > 0 {
        CountedFits(atom, greedy, max);
      }
      ConcatFits(ResetCode(cc, captures), OptionalCode(atom, max, greedy), 0);
    } else if min == 1 && max == INT32_MAX && !NeedCheck(atom) {
      BackFits(atom, ISplit(!greedy, -(CodeSize(atom) + 5)), 0);
    } else {
      if min > 1 { TimesFits(atom, min); }
      if max == INT32_MAX {
        StarKeepsDepth(atom, greedy);
      } else if max > min {
        CountedFits(atom, greedy, max - min);
      }
      ConcatFits(MandatoryCode(atom, min), RestCode(atom, min, max, greedy), 0);
    }
  }

  /** The code of every term keeps to the analysis wherever it is placed. */
  lemma {:induction false} CodeFits(r: Regex, cc: nat)
    requires Valid(r)
    ensures Level(CodeOf(r, cc), 0)
  {
    hide Level, QuantCode, AltCode, LookCode;
    match r
    case Empty => NothingFits(0);
    case Cat(a, b) =>
      CodeFits(a, cc);
      CodeFits(b, cc + Captures(a));
      ConcatFits(CodeOf(a, cc), CodeOf(b, cc + Captures(a)), 0);
    case Alt(a, b) =>
      CodeFits(a, cc);
      CodeFits(b, cc + Captures(a));
      AltFits(CodeOf(a, cc), CodeOf(b, cc + Captures(a)));
    case Capture(b) =>
      CodeFits(b, cc + 1);
      PlainFits(ISave(false, cc), 0);
      PlainFits(ISave(true, cc), 0);
      ConcatFits([ISave(false, cc)], CodeOf(b, cc + 1), 0);
      ConcatFits([ISave(false, cc)] + CodeOf(b, cc + 1), [ISave(true, cc)], 0);
    case Look(negated, b) =>
      CodeFits(b, cc);
      LookFits(negated, CodeOf(b, cc));
    case Quant(b, min, max, greedy) =>
      CodeFits(b, cc);
      QuantFits(CodeOf(b, cc), cc, Captures(b), min, max, greedy);
    case _ =>
      PlainFits(CodeOf(r, cc)[0], 0);
  }

  lemma LookFits(negated: bool, b: Code)
    requires Level(b, 0)
    ensures Level(LookCode(negated, b), 0)
  {
    OverFits(ILook(negated, CodeSize(b) + 1), b, IMatch, 0);
  }

  ///// Every reachable state

  /** A whole program keeps to the analysis, up to its final `match`. */
  lemma ProgramKeepsDepth(r: Regex, sticky: bool)
    requires Valid(r)
    ensures AllKeepDepth(ProgramCode(r, sticky), 0, ProgramCode(r, sticky))
  {
    hide AllKeepDepth, Net, CodeSize, Placed, Level, KeepsDepth;
    var prefix, body := SearchPrefix(sticky), [ISave(false, 0)] + CodeOf(r, 1) + [ISave(true, 0)];
    var front, code := prefix + body, ProgramCode(r, sticky);
    PrefixFits(sticky);
    PlainFits(ISave(false, 0), 0);
    CodeFits(r, 1);
    PlainFits(ISave(true, 0), 0);
    ConcatFits([ISave(false, 0)], CodeOf(r, 1), 0);
    ConcatFits([ISave(false, 0)] + CodeOf(r, 1), [ISave(true, 0)], 0);
    ConcatFits(prefix, body, 0);
    assert code == front + [IMatch] by {
      assert body + [IMatch] == [ISave(false, 0)] + CodeOf(r, 1) + [ISave(true, 0), IMatch];
    }
    FrontKeeps(code, front);
  }

  lemma PrefixFits(sticky: bool)
    ensures Level(SearchPrefix(sticky), 0)
  {
    hide Level;
    NothingFits(0);
    PlainFits(IAny, 0);
    Net1(IAny);
    if !sticky {
      OverFits(ISplit(false, 6), [IAny], IGoto(-11), 0);
      assert SearchPrefix(sticky) == [ISplit(false, 6)] + [IAny] + [IGoto(-11)];
    }
  }

  lemma FrontKeeps(code: Code, front: Code)
    requires code == front + [IMatch] && Level(front, 0)
    ensures AllKeepDepth(code, 0, code)
  {
    hide AllKeepDepth, Net, CodeSize, KeepsDepth;
    NetNothing();
    assert IsPlace(code, [], front, [IMatch]);
    assert Placed(code, 0, front, 0);
    SizeAppend(front, [IMatch]);
    Net1(IMatch);
    DepthAtSeam(code, front, [IMatch]);
    KeepAppend(code, 0, front, [IMatch]);
    MatchKeeps(code, CodeSize(front));
    OneKeeps(code, CodeSize(front), IMatch);
  }

  lemma NetNothing()
    ensures Net([]) == 0 && CodeSize([]) == 0
  {
  }

  lemma MatchKeeps(code: Code, o: int)
    requires DepthAt(code, o, 0) == Some(0)
    ensures KeepsDepth(code, o, IMatch)
  {
  }

  /** The instruction at a place the walk passes: what the VM fetches there keeps to the analysis. */
  ghost predicate StepsLevel(m: Machine, code: Code, pc: int) {
    var i, d := Fetch(m.bc, pc), DepthAt(code, pc, 0);
    i != IOther && i in code && KeepsDepth(code, pc, i) &&
    (!i.IMatch? ==> DepthAt(code, pc + Size(i), 0) == Some(d.value + Effect(i)))
  }

  lemma {:induction false} WalkFetches(m: Machine, code: Code, o: int, part: Code, done: Code, pc: int)
    requires code == done + part && o == CodeSize(done) && o <= pc < CodeSize(code)
    requires At(m.bc, o, part) && AllKeepDepth(code, o, part) && DepthAt(part, pc - o, Net(done)).Some?
    ensures StepsLevel(m, code, pc)
    decreases |part|
  {
    hide Fetch, Effect, KeepsDepth;
    SizeAppend(done, part);
    if pc == o {
      SeamFetch(m, code, done, part);
    } else {
      var next := done + [part[0]];
      assert code == next + part[1..];
      SizeAppend(done, [part[0]]);
      NetAppend(done, [part[0]]);
      Net1(part[0]);
      SmallStep(part, pc - o, Net(done));
      WalkFetches(m, code, o + Size(part[0]), part[1..], next, pc);
    }
  }

  lemma SmallStep(part: Code, q: int, d: int)
    requires part != [] && q > 0 && DepthAt(part, q, d).Some?
    ensures q >= Size(part[0]) && DepthAt(part[1..], q - Size(part[0]), d + Effect(part[0])).Some?
  {
  }

  lemma SeamFetch(m: Machine, code: Code, done: Code, part: Code)
    requires code == done + part && part != []
    requires At(m.bc, CodeSize(done), part) && AllKeepDepth(code, CodeSize(done), part)
    ensures StepsLevel(m, code, CodeSize(done))
  {
    hide Fetch, Effect, KeepsDepth, DepthAt, CodeSize, Net;
    var i, next := part[0], done + [part[0]];
    assert code == next + part[1..];
    assert code[|done|] == i;
    SizeAppend(done, [i]);
    NetAppend(done, [i]);
    Net1(i);
    DepthAtSeam(code, done, part);
    DepthAtSeam(code, next, part[1..]);
  }

  /** The operand stack is as deep as the analysis says, in the configuration and in every saved state. */
  ghost predicate SavedLevel(m: Machine, code: Code, s: Saved) {
    match s.kind
    case GreedyPoint =>
      DepthAt(code, s.pc - 1, 0) == Some(|s.stack|) && s.pc - 1 < CodeSize(code) && Fetch(m.bc, s.pc - 1).ISimpleGreedy?
    case _ => DepthAt(code, s.pc, 0) == Some(|s.stack|) && s.pc < CodeSize(code)
  }

  ghost predicate AllSavedLevel(m: Machine, code: Code, saved: seq<Saved>) {
    forall k :: 0 <= k < |saved| ==> SavedLevel(m, code, saved[k])
  }

  ghost predicate ConfigLevel(m: Machine, code: Code, c: Config) {
    match c
    case Run(pc, _, stack, saved) =>
      DepthAt(code, pc, 0) == Some(|stack|) && 0 <= pc < CodeSize(code) && AllSavedLevel(m, code, saved)
    case Fail(saved) => AllSavedLevel(m, code, saved)
    case Succeed(_, saved) => AllSavedLevel(m, code, saved)
    case _ => true
  }

  lemma {:induction false} DepthBounds(code: Code, q: int, depth: int)
    requires DepthAt(code, q, depth).Some?
    ensures 0 <= q <= CodeSize(code) && DepthAt(code, q, depth).value <= StackSize(code, depth)
    decreases |code|
  {
    hide Size, Effect;
    if q != 0 { DepthBounds(code[1..], q - Size(code[0]), depth + Effect(code[0])); }
  }

  lemma LevelFetch(m: Machine, code: Code, pc: int)
    requires At(m.bc, 0, code) && AllKeepDepth(code, 0, code)
    requires DepthAt(code, pc, 0).Some? && pc < CodeSize(code)
    ensures StepsLevel(m, code, pc)
  {
    NetNothing();
    assert code == [] + code;
    DepthBounds(code, pc, 0);
    WalkFetches(m, code, 0, code, [], pc);
  }

  /** One step of the machine keeps the levels. */
  lemma StepLevel(m: Machine, code: Code, c: Config)
    requires At(m.bc, 0, code) && AllKeepDepth(code, 0, code) && ConfigLevel(m, code, c)
    ensures ConfigLevel(m, code, Step(m, c))
  {
    hide Fetch, DepthAt, CodeSize, At, AllKeepDepth, OpEnd, GreedyRun, PrevTimes;
    match c
    case Run(pc, st, stack, saved) =>
      LevelFetch(m, code, pc);
      StepRunLevel(m, code, pc, st, stack, saved);
    case Fail(saved) =>
      if saved != [] && saved[|saved| - 1].kind.GreedyPoint? {
        LevelFetch(m, code, saved[|saved| - 1].pc - 1);
        StepGreedyLevel(m, code, saved);
      } else {
        StepPointLevel(m, code, [], saved);
      }
    case Succeed(caps, saved) => StepPointLevel(m, code, caps, saved);
    case _ =>
  }

  lemma StepPointLevel(m: Machine, code: Code, caps: seq<Option<nat>>, saved: seq<Saved>)
    requires AllSavedLevel(m, code, saved)
    ensures saved == [] || !saved[|saved| - 1].kind.GreedyPoint? ==> ConfigLevel(m, code, StepFail(m, saved))
    ensures ConfigLevel(m, code, StepSucceed(caps, saved))
  {
    hide Fetch, DepthAt, CodeSize, PrevTimes;
    DepthBoundsAll(code);
    if saved != [] {
      assert SavedLevel(m, code, saved[|saved| - 1]);
    }
  }

  lemma StepGreedyLevel(m: Machine, code: Code, saved: seq<Saved>)
    requires saved != [] && saved[|saved| - 1].kind.GreedyPoint? && AllSavedLevel(m, code, saved)
    requires StepsLevel(m, code, saved[|saved| - 1].pc - 1)
    ensures ConfigLevel(m, code, StepFail(m, saved))
  {
    hide Fetch, DepthAt, CodeSize, PrevTimes;
    var s := saved[|saved| - 1];
    assert SavedLevel(m, code, s);
    DepthBoundsAll(code);
  }

  lemma DepthBoundsAll(code: Code)
    ensures forall q :: DepthAt(code, q, 0).Some? ==> 0 <= q <= CodeSize(code)
  {
    hide DepthAt, CodeSize;
    forall q | DepthAt(code, q, 0).Some? ensures 0 <= q <= CodeSize(code) { DepthBounds(code, q, 0); }
  }

  lemma StepRunLevel(m: Machine, code: Code, pc: int, st: State, stack: seq<int>, saved: seq<Saved>)
    requires StepsLevel(m, code, pc) && DepthAt(code, pc, 0) == Some(|stack|) && AllSavedLevel(m, code, saved)
    ensures ConfigLevel(m, code, StepRun(m, pc, st, stack, saved))
  {
    hide Fetch, DepthAt, CodeSize, OpEnd, GreedyRun;
    DepthBoundsAll(code);
  }

  /** In every state of a run of a compiled program the operand stack has exactly the depth the
      linear walk computed for the program counter, so it never exceeds the reported size. */
  lemma {:induction false} RunsLevel(m: Machine, r: Regex, sticky: bool, cindex: nat, n: nat)
    requires Valid(r) && Loaded(m, r, sticky)
    ensures var c := Steps(m, StartConfig(m, cindex), n);
      ConfigLevel(m, ProgramCode(r, sticky), c) &&
      (c.Run? ==> |c.stack| <= StackSize(ProgramCode(r, sticky), 0))
  {
    hide Fetch, DepthAt, CodeSize, At, AllKeepDepth, StackSize, ProgramCode;
    var code := ProgramCode(r, sticky);
    ProgramKeepsDepth(r, sticky);
    ProgramStartsLevel(m, r, sticky, cindex);
    StepsKeepLevel(m, code, StartConfig(m, cindex), n);
    var c := Steps(m, StartConfig(m, cindex), n);
    if c.Run? { DepthBounds(code, c.pc, 0); }
  }

  lemma ProgramStartsLevel(m: Machine, r: Regex, sticky: bool, cindex: nat)
    requires Valid(r)
    ensures ConfigLevel(m, ProgramCode(r, sticky), StartConfig(m, cindex))
  {
    var code := ProgramCode(r, sticky);
    assert code != [];
  }

  lemma {:induction false} StepsKeepLevel(m: Machine, code: Code, c: Config, n: nat)
    requires At(m.bc, 0, code) && AllKeepDepth(code, 0, code) && ConfigLevel(m, code, c)
    ensures ConfigLevel(m, code, Steps(m, c, n))
    decreases n
  {
    hide Step, At, AllKeepDepth, ConfigLevel;
    if n > 0 {
      StepLevel(m, code, c);
      StepsKeepLevel(m, code, Step(m, c), n - 1);
    }
  }
}
