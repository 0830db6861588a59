/** The interpreter loop: byte code, capture array, operand stack and saved states updated in
    place, step for step as the transition function says. */
module RegexExec {
  import opened RegexInput
  import opened Surrogates
  import opened RegexSyntax
  import opened RegexSemantics
  import opened RegexCode
  import opened RegexCompile
  import opened RegexVM
  import opened RegexSearch
  import opened RegexStack
  import opened RegexTables
  import opened RegexCompiler

  datatype Signal = Continue | Failed | Matched

  ///// Lengths of capture arrays

  ghost predicate SavedSized(saved: seq<Saved>, n: nat) {
    forall k :: 0 <= k < |saved| ==> |saved[k].st.caps| == n
  }

  ghost predicate Sized(c: Config, n: nat) {
    match c
    case Run(_, st, _, saved) => |st.caps| == n && SavedSized(saved, n)
    case Fail(saved) => SavedSized(saved, n)
    case Succeed(caps, saved) => |caps| == n && SavedSized(saved, n)
    case _ => true
  }

  lemma StepSized(m: Machine, c: Config, n: nat)
    requires Sized(c, n)
    ensures Sized(Step(m, c), n)
  {
    hide Fetch, OpEnd, GreedyRun, PrevTimes;
    match c
    case Run(pc, st, stack, saved) =>
    case Fail(saved) => if saved != [] { assert |saved[|saved| - 1].st.caps| == n; }
    case Succeed(caps, saved) => if saved != [] { assert |saved[|saved| - 1].st.caps| == n; }
    case _ =>
  }

  ///// A run that ends is never stuck on the way

  lemma {:induction false} EndsStay(m: Machine, c: Config, n: nat)
    requires c.Stuck? || c.Done?
    ensures Steps(m, c, n) == c
    decreases n
  {
    if n > 0 { EndsStay(m, c, n - 1); }
  }

  lemma NotStuckBefore(m: Machine, c: Config, n: nat, result: Option<seq<Option<nat>>>, k: nat)
    requires Steps(m, c, n) == Done(result) && k <= n
    ensures !Steps(m, c, k).Stuck?
    ensures Steps(m, c, k).Done? ==> Steps(m, c, k) == Done(result)
    ensures !Steps(m, c, k).Done? ==> k < n
  {
    StepsAdd(m, c, k, n - k);
    var d := Steps(m, c, k);
    if d.Stuck? || d.Done? { EndsStay(m, d, n - k); }
  }

  lemma StepsSucc(m: Machine, c: Config, k: nat)
    ensures Steps(m, c, k + 1) == Step(m, Steps(m, c, k))
  {
    StepsAdd(m, c, k, 1);
    assert Steps(m, Steps(m, c, k), 1) == Steps(m, Step(m, Steps(m, c, k)), 0);
  }

  /** The facts about a compiled program the interpreter relies on. */
  ghost predicate Sound(m: Machine, code: Code) {
    At(m.bc, 0, code) && AllKeepDepth(code, 0, code) && AllSorted(code)
  }

  /** What is fetched at a place of the straight walk is an instruction of the code; after a push the
      depth still is within the computed size. */
  lemma FetchFacts(m: Machine, code: Code, pc: int)
    requires Sound(m, code) && DepthAt(code, pc, 0).Some? && pc < CodeSize(code)
    ensures StepsLevel(m, code, pc) && SortedTable(Fetch(m.bc, pc)) && 0 <= pc
    ensures var i, d := Fetch(m.bc, pc), DepthAt(code, pc, 0).value;
      d <= StackSize(code, 0) && (i.IPushI32? || i.IPushCharPos? ==> d + 1 <= StackSize(code, 0))
  {
    hide Fetch, CodeSize, At, AllKeepDepth, DepthAt, KeepsDepth, StackSize, SortedTable;
    LevelFetch(m, code, pc);
    DepthBounds(code, pc, 0);
    var i := Fetch(m.bc, pc);
    if i.IPushI32? || i.IPushCharPos? { DepthBounds(code, pc + Size(i), 0); }
  }

  ///// Characters and assertions

  /** Does the character opcode at `pc` accept `c`?  Range tables are searched in the byte code. */
  method AcceptsAt(bc: seq<byte>, pc: nat, c: int) returns (ok: bool)
    requires IsCharOp(Fetch(bc, pc)) && SortedTable(Fetch(bc, pc))
    ensures ok == OpAccepts(Fetch(bc, pc), c)
  {
    hide SortedPairs, InPairs, RangeAccepts, GetPairs16, GetPairs32;
    var op := bc[pc];
    if op == RANGE {
      ok := SearchRange16(bc, pc + 3, GetU16(bc, pc + 1), c);
    } else if op == RANGE32 {
      ok := SearchRange32(bc, pc + 3, GetU16(bc, pc + 1), c);
    } else if op == DOT {
      ok := !IsLineTerminator(c);
    } else if op == ANY {
      ok := true;
    } else {
      var val := if op == CHAR8 then bc[pc + 1] else if op == CHAR16 then GetU16(bc, pc + 1) else GetU32(bc, pc + 1);
      ok := val == c;
    }
  }

  /** One character or assertion opcode. */
  method SimpleOp(m: Machine, pc: nat, pos: nat) returns (e: Option<nat>)
    requires (IsCharOp(Fetch(m.bc, pc)) || IsAssertionOp(Fetch(m.bc, pc))) && SortedTable(Fetch(m.bc, pc))
    requires pos <= |m.x.units|
    ensures e == OpEnd(Fetch(m.bc, pc), m.x, pos)
  {
    hide Fetch, OpAccepts, OpHolds, SortedTable, PairAt;
    var i := Fetch(m.bc, pc);
    if IsCharOp(i) {
      if pos >= |m.x.units| { return None; }
      var ok := AcceptsAt(m.bc, pc, CharAt(m.x, pos));
      if !ok { return None; }
      return Some(NextPos(m.x, pos));
    }
    if OpHolds(i, m.x, pos) { return Some(pos); }
    return None;
  }

  /** The nested, non-backtracking run of a simple quantifier's atom. */
  method RunAtom(m: Machine, start: nat, from: nat, ghost code: Code) returns (r: Inner)
    requires Sound(m, code) && DepthAt(code, start, 0).Some? && start < CodeSize(code) && from <= |m.x.units|
    ensures r == InnerRun(m, start, from)
  {
    hide Fetch, CodeSize, At, AllKeepDepth, AllSorted, DepthAt, SortedTable, OpEnd, StackSize;
    var pc: nat, pos: nat := start, from;
    while true
      invariant DepthAt(code, pc, 0).Some? && pc < CodeSize(code) && pos <= |m.x.units|
      invariant InnerRun(m, start, from) == InnerRun(m, pc, pos)
      decreases CodeSize(code) - pc
    {
      FetchFacts(m, code, pc);
      var i := Fetch(m.bc, pc);
      if i.IMatch? { return Got(pos); }
      if !(IsCharOp(i) || IsAssertionOp(i)) { return Abort; }
      var e := SimpleOp(m, pc, pos);
      if e.None? { return NoMatch; }
      pc, pos := pc + Size(i), e.value;
    }
  }

  /** Run the atom as often as possible, at most `max` times. */
  method RunAtoms(m: Machine, pc1: nat, from: nat, max: int, ghost code: Code) returns (q: nat, pos: nat)
    requires Sound(m, code) && DepthAt(code, pc1, 0).Some? && pc1 < CodeSize(code) && from <= |m.x.units|
    requires GreedyRun(m, pc1, from, 0, max).Some?
    ensures GreedyRun(m, pc1, from, 0, max) == Some(Runs(q, pos))
  {
    hide Fetch, CodeSize, At, AllKeepDepth, AllSorted, DepthAt, InnerRun;
    q, pos := 0, from;
    while true
      invariant pos <= |m.x.units| && GreedyRun(m, pc1, pos, q, max).Some?
      invariant GreedyRun(m, pc1, from, 0, max) == GreedyRun(m, pc1, pos, q, max)
      decreases |m.x.units| - pos, if GreedyRun(m, pc1, pos, q, max) == Some(Runs(q, pos)) then 0 else 1
    {
      var res := RunAtom(m, pc1, pos, code);
      if !res.Got? { return; }
      q := q + 1;
      if q >= max && max != INT32_MAX {
        pos := res.pos;
        return;
      }
      pos := res.pos;
    }
  }

  ///// The interpreter

  class Interpreter {
    const m: Machine
    const capture: array<Option<nat>>
    const stack: array<int>
    var stackLen: nat
    var pc: int
    var pos: nat
    var states: seq<Saved>

    ghost predicate Ready()
      reads this
    {
      stackLen <= stack.Length && capture.Length == 2 * m.captureCount
    }

    ghost function Now(): Config
      requires Ready()
      reads this, capture, stack
    {
      Run(pc, State(pos, capture[..]), stack[..stackLen], states)
    }

    /** The configuration a signal announces. */
    ghost function Signalled(s: Signal): Config
      requires Ready()
      reads this, capture, stack
    {
      match s
      case Continue => Now()
      case Failed => Fail(states)
      case Matched => Succeed(capture[..], states)
    }

    constructor (m: Machine, cindex: nat, stackSize: nat)
      ensures this.m == m && Ready() && fresh(capture) && fresh(stack) && stack.Length == stackSize
      ensures Now() == StartConfig(m, cindex)
    {
      this.m := m;
      capture := new Option<nat>[2 * m.captureCount](_ => None);
      stack := new int[stackSize];
      stackLen, pc, pos, states := 0, 0, cindex, [];
    }

    method PushState(kind: PointKind, at: int, count: nat)
      requires Ready()
      modifies this`states
      ensures states == old(states) + [Saved(kind, at, State(pos, capture[..]), stack[..stackLen], count)]
    {
      states := states + [Saved(kind, at, State(pos, capture[..]), stack[..stackLen], count)];
    }

    method Push(v: int)
      requires Ready() && stackLen < stack.Length
      modifies this`stackLen, stack
      ensures Ready() && stack[..stackLen] == old(stack[..stackLen]) + [v]
    {
      stack[stackLen] := v;
      stackLen := stackLen + 1;
    }

    method SaveReset(first: nat, last: nat)
      requires Ready() && last < m.captureCount
      modifies capture
      ensures capture[..] == ResetCaptures(old(capture[..]), first, last + 1)
    {
      var val := first;
      while val <= last
        invariant first <= val && (val <= last + 1 || val == first)
        invariant forall k :: 0 <= k < capture.Length ==>
          capture[k] == if 2 * first <= k < 2 * val then None else old(capture[k])
      {
        capture[2 * val] := None;
        capture[2 * val + 1] := None;
        val := val + 1;
      }
    }

    /** Copy a saved state back. */
    method Restore(s: Saved, keepCaptures: bool)
      requires Ready() && |s.st.caps| == capture.Length && |s.stack| <= stack.Length
      modifies this`stackLen, this`pc, this`pos, capture, stack
      ensures Ready() && pc == s.pc && pos == s.st.pos && stack[..stackLen] == s.stack
      ensures capture[..] == if keepCaptures then old(capture[..]) else s.st.caps
    {
      if !keepCaptures {
        forall k | 0 <= k < capture.Length { capture[k] := s.st.caps[k]; }
        assert capture[..] == s.st.caps;
      }
      pc, pos, stackLen := s.pc, s.st.pos, |s.stack|;
      forall k | 0 <= k < stackLen { stack[k] := s.stack[k]; }
      assert stack[..stackLen] == s.stack;
    }

    /** One opcode. */
    method Opcode(ghost code: Code) returns (s: Signal)
      requires Ready() && Sound(m, code) && ConfigLevel(m, code, Now()) && StackSize(code, 0) <= stack.Length
      requires !Step(m, Now()).Stuck?
      modifies this, capture, stack
      ensures Ready() && Signalled(s) == Step(m, old(Now()))
    {
      hide Fetch, DepthAt, CodeSize, StackSize, At, AllKeepDepth, AllSorted, OpEnd, GreedyRun, SortedTable, Effect;
      FetchFacts(m, code, pc);
      var i := Fetch(m.bc, pc);
      if IsCharOp(i) || IsAssertionOp(i) {
        var e := SimpleOp(m, pc, pos);
        if e.None? { return Failed; }
        pc, pos := pc + Size(i), e.value;
        return Continue;
      }
      if i.IPushI32? || i.IPushCharPos? || i.IDrop? || i.ILoop? || i.ICheckAdvance? {
        s := StackOp(code);
      } else if i.ISimpleGreedy? {
        s := GreedyOp(code);
      } else {
        s := ControlOp();
      }
    }

    method StackOp(ghost code: Code) returns (s: Signal)
      requires Ready() && !Step(m, Now()).Stuck?
      requires var i := Fetch(m.bc, pc);
        (i.IPushI32? || i.IPushCharPos? ==> stackLen < stack.Length) &&
        (i.IPushI32? || i.IPushCharPos? || i.IDrop? || i.ILoop? || i.ICheckAdvance?)
      modifies this, stack
      ensures Ready() && Signalled(s) == Step(m, old(Now()))
    {
      hide Fetch;
      var i := Fetch(m.bc, pc);
      pc := pc + Size(i);
      match i {
        case IPushI32(v) =>
          Push(v);
        case IPushCharPos =>
          Push(pos);
        case IDrop =>
          stackLen := stackLen - 1;
        case ILoop(off) =>
          stack[stackLen - 1] := stack[stackLen - 1] - 1;
          assert stack[..stackLen] == old(stack[..stackLen - 1]) + [stack[stackLen - 1]];
          if stack[stackLen - 1] != 0 { pc := pc + off; }
        case ICheckAdvance =>
          stackLen := stackLen - 1;
          if stack[stackLen] == pos { return Failed; }
      }
      return Continue;
    }

    method ControlOp() returns (s: Signal)
      requires Ready() && !Step(m, Now()).Stuck?
      requires var i := Fetch(m.bc, pc);
        i.IGoto? || i.ISplit? || i.ILook? || i.IMatch? || i.ISave? || i.ISaveReset? || i.IOther?
      modifies this, capture
      ensures Ready() && Signalled(s) == Step(m, old(Now()))
    {
      hide Fetch;
      var i := Fetch(m.bc, pc);
      var next := pc + Size(i);
      match i {
        case IGoto(off) =>
          pc := next + off;
        case ISplit(nextFirst, off) =>
          var pc1 := if nextFirst then next + off else next;
          pc := if nextFirst then next else next + off;
          PushState(SplitPoint, pc1, 0);
        case ILook(negated, off) =>
          pc := next;
          PushState(LookPoint(negated), next + off, 0);
        case IMatch =>
          return Matched;
        case ISave(atEnd, g) =>
          capture[2 * g + (if atEnd then 1 else 0)] := Some(pos);
          pc := next;
        case ISaveReset(first, last) =>
          SaveReset(first, last);
          pc := next;
        case _ =>
      }
      return Continue;
    }

    method GreedyOp(ghost code: Code) returns (s: Signal)
      requires Ready() && Sound(m, code) && !Step(m, Now()).Stuck? && Fetch(m.bc, pc).ISimpleGreedy?
      requires StepsLevel(m, code, pc) && 0 <= pc
      modifies this
      ensures Ready() && Signalled(s) == Step(m, old(Now()))
    {
      hide Fetch, DepthAt, CodeSize, At, AllKeepDepth, AllSorted, GreedyRun;
      var i := Fetch(m.bc, pc);
      var pc1 := pc + 17;
      var q, p := RunAtoms(m, pc1, pos, i.max, code);
      if q < i.min { return Failed; }
      pos := p;
      if q > i.min { PushState(GreedyPoint, pc1 - 16, q - i.min); }
      pc := pc1 + i.off;
      return Continue;
    }

    /** Unwind the saved states after a failure (`ret` false) or a `match` (`ret` true), one state. */
    method Unwind(ret: bool, ghost code: Code) returns (s: Signal)
      requires Ready() && states != [] && Sound(m, code) && StackSize(code, 0) <= stack.Length
      requires AllSavedLevel(m, code, states) && SavedSized(states, capture.Length)
      requires !Step(m, Signalled(if ret then Matched else Failed)).Stuck?
      modifies this, capture, stack
      ensures Ready() && Signalled(s) == Step(m, old(Signalled(if ret then Matched else Failed)))
    {
      hide Fetch, DepthAt, CodeSize, StackSize, At, AllKeepDepth, AllSorted, PrevTimes;
      var rs := states[|states| - 1];
      ghost var rest := states[..|states| - 1];
      SavedStackFits(m, code, rs);
      if rs.kind.SplitPoint? {
        states := states[..|states| - 1];
        if ret { return Matched; }
        Restore(rs, false);
        return Continue;
      } else if rs.kind.GreedyPoint? {
        if ret {
          states := states[..|states| - 1];
          return Matched;
        }
        s := StepBack(rs, rest);
      } else {
        states := states[..|states| - 1];
        var found := ret != rs.kind.negated;
        if !found { return Failed; }
        Restore(rs, ret);
        return Continue;
      }
    }

    /** The greedy point on top: restore, go back by the atom's characters, count down. */
    method StepBack(rs: Saved, ghost rest: seq<Saved>) returns (s: Signal)
      requires Ready() && states == rest + [rs] && rs.kind.GreedyPoint?
      requires |rs.st.caps| == capture.Length && |rs.stack| <= stack.Length
      requires !StepFail(m, states).Stuck?
      modifies this, capture, stack
      ensures Ready() && Signalled(s) == old(StepFail(m, states))
    {
      hide Fetch;
      assert states[..|states| - 1] == rest;
      Restore(rs, false);
      var i := Fetch(m.bc, rs.pc - 1);
      var charCount := i.count;
      var k := 0;
      while k < charCount
        invariant 0 <= k <= charCount && pos <= |m.x.units|
        invariant PrevTimes(m.x, rs.st.pos, charCount) == PrevTimes(m.x, pos, charCount - k)
        modifies this`pos
      {
        pos := PrevPos(m.x, pos);
        k := k + 1;
      }
      assert PrevTimes(m.x, rs.st.pos, charCount) == Some(pos);
      pc := rs.pc + 16 + i.off;
      ghost var back := State(pos, rs.st.caps);
      assert State(pos, capture[..]) == back && stack[..stackLen] == rs.stack;
      if rs.count == 1 {
        states := states[..|states| - 1];
        assert Now() == Run(pc, back, rs.stack, rest);
      } else {
        var again := Saved(GreedyPoint, rs.pc, State(pos, capture[..]), rs.stack, rs.count - 1);
        states := states[|states| - 1 := again];
        assert states == rest + [again];
        assert Now() == Run(pc, back, rs.stack, rest + [again]);
      }
      return Continue;
    }
  }

  lemma SavedStackFits(m: Machine, code: Code, s: Saved)
    requires SavedLevel(m, code, s)
    ensures |s.stack| <= StackSize(code, 0)
  {
    hide Fetch, CodeSize, DepthAt;
    if s.kind.GreedyPoint? { DepthBounds(code, s.pc - 1, 0); } else { DepthBounds(code, s.pc, 0); }
  }

  /** What the interpreter knows before its `k`-th step. */
  ghost predicate OnTrack(m: Machine, code: Code, start: Config, n: nat, k: nat, c: Config) {
    k < n && c == Steps(m, start, k) && !Step(m, c).Stuck? && ConfigLevel(m, code, c) && Sized(c, 2 * m.captureCount)
  }

  lemma Advance(m: Machine, code: Code, start: Config, n: nat, k: nat, c: Config, d: Config,
                result: Option<seq<Option<nat>>>)
    requires Sound(m, code) && OnTrack(m, code, start, n, k, c) && d == Step(m, c) && Steps(m, start, n) == Done(result)
    ensures d.Done? ==> d == Done(result)
    ensures !d.Done? ==> OnTrack(m, code, start, n, k + 1, d)
  {
    hide Step, ConfigLevel, At, AllKeepDepth, AllSorted, Sized;
    StepsSucc(m, start, k);
    NotStuckBefore(m, start, n, result, k + 1);
    StepLevel(m, code, c);
    StepSized(m, c, 2 * m.captureCount);
    if !d.Done? {
      StepsSucc(m, start, k + 1);
      NotStuckBefore(m, start, n, result, k + 2);
    }
  }

  /** `lre_exec_backtrack`: run to the end.  The captures are those of the transition function's result. */
  method Backtrack(vm: Interpreter, ghost code: Code, ghost start: Config, ghost n: nat,
                   ghost result: Option<seq<Option<nat>>>) returns (ret: bool)
    requires vm.Ready() && Sound(vm.m, code) && StackSize(code, 0) <= vm.stack.Length
    requires OnTrack(vm.m, code, start, n, 0, vm.Now()) && Steps(vm.m, start, n) == Done(result)
    modifies vm, vm.capture, vm.stack
    ensures ret == result.Some? && (ret ==> vm.capture[..] == result.value)
  {
    hide Step, Steps, ConfigLevel, Sized, StackSize, At, AllKeepDepth, AllSorted;
    ghost var k := 0;
    while true
      invariant vm.Ready() && OnTrack(vm.m, code, start, n, k, vm.Now())
      decreases n - k
    {
      ghost var before := vm.Now();
      StepOfRun(vm.m, code, before);
      var s := vm.Opcode(code);
      Advance(vm.m, code, start, n, k, before, vm.Signalled(s), result);
      k := k + 1;
      ret := s.Matched?;
      while !s.Continue? && vm.states != []
        invariant vm.Ready() && OnTrack(vm.m, code, start, n, k, vm.Signalled(s))
        invariant !s.Continue? ==> ret == s.Matched?
        decreases n - k
      {
        before := vm.Signalled(s);
        PointFacts(vm.m, code, before, 2 * vm.m.captureCount);
        s := vm.Unwind(ret, code);
        Advance(vm.m, code, start, n, k, before, vm.Signalled(s), result);
        k := k + 1;
        if !s.Continue? { ret := s.Matched?; }
      }
      if !s.Continue? {
        LastPoint(vm.m, vm.Signalled(s));
        Advance(vm.m, code, start, n, k, vm.Signalled(s), Step(vm.m, vm.Signalled(s)), result);
        return;
      }
    }
  }

  lemma StepOfRun(m: Machine, code: Code, c: Config)
    requires c.Run? && ConfigLevel(m, code, c) && !Step(m, c).Stuck?
    ensures !Step(m, c).Done?
  {
    hide Fetch, OpEnd, GreedyRun;
  }

  lemma PointFacts(m: Machine, code: Code, c: Config, n: nat)
    requires (c.Fail? || c.Succeed?) && ConfigLevel(m, code, c) && Sized(c, n)
    ensures AllSavedLevel(m, code, c.saved) && SavedSized(c.saved, n)
  {
  }

  lemma LastPoint(m: Machine, c: Config)
    requires (c.Fail? || c.Succeed?) && c.saved == []
    ensures Step(m, c) == Done(if c.Fail? then None else Some(c.caps))
  {
  }

  ///// lre_exec

  predicate IsMultiLine(flags: int)
    requires Is16(flags)
  {
    (flags / 4) % 2 == 1
  }

  predicate IsUnicode(flags: int)
    requires Is16(flags)
  {
    (flags / 16) % 2 == 1
  }

  /** How the buffer is read: 16-bit units as UTF-16 when the program has the unicode flag. */
  function KindOf(wide: bool, flags: int): Kind
    requires Is16(flags)
  {
    if !wide then Bytes else if IsUnicode(flags) then Utf16 else Words
  }

  function Bit(on: bool, weight: nat): nat {
    if on then weight else 0
  }

  lemma BitAt(low: nat, weight: nat, on: bool, high: nat)
    requires (weight == 4 || weight == 16 || weight == 32) && low < weight
    ensures (low + Bit(on, weight) + 2 * weight * high) / weight % 2 == Bit(on, 1)
  {
    var bit := Bit(on, 1) + 2 * high;
    if weight == 4 {
      assert (low + 4 * bit) / 4 == bit;
    } else if weight == 16 {
      assert (low + 16 * bit) / 16 == bit;
    } else {
      assert (low + 32 * bit) / 32 == bit;
    }
  }

  /** What the flag words 4, 16 and 32 switch; the words 1, 2, 8 and from 64 on make no difference. */
  lemma FlagsMean(low: nat, multiLine: bool, dotAll: bool, unicode: bool, sticky: bool, high: nat, wide: bool)
    requires low < 4 && high < 1024
    ensures var flags := low + Bit(multiLine, 4) + Bit(dotAll, 8) + Bit(unicode, 16) + Bit(sticky, 32) + 64 * high;
      Is16(flags) && IsMultiLine(flags) == multiLine && IsSticky(flags) == sticky &&
      KindOf(wide, flags) == if !wide then Bytes else if unicode then Utf16 else Words
  {
    var upTo8 := low + Bit(multiLine, 4) + Bit(dotAll, 8);
    var flags := upTo8 + Bit(unicode, 16) + Bit(sticky, 32) + 64 * high;
    assert IsMultiLine(flags) == multiLine by {
      BitAt(low, 4, multiLine, Bit(dotAll, 1) + Bit(unicode, 2) + Bit(sticky, 4) + 8 * high);
    }
    assert IsUnicode(flags) == unicode by {
      BitAt(upTo8, 16, unicode, Bit(sticky, 1) + 2 * high);
    }
    assert IsSticky(flags) == sticky by {
      BitAt(upTo8 + Bit(unicode, 16), 32, sticky, high);
    }
  }

  /** A line also starts behind a line terminator, and ends before one, when the flag of value 4 is set. */
  lemma MultiLineMeans(units: seq<Unit>, kind: Kind, multiLine: bool, i: nat)
    requires i <= |units|
    ensures var x := Subject(units, kind, multiLine);
      (AtomEnd(LineStart, x, i) == Some(i) <==>
        i == 0 || (multiLine && units[i - 1] in [0x0A, 0x0D, 0x2028, 0x2029])) &&
      (AtomEnd(LineEnd, x, i) == Some(i) <==>
        i == |units| || (multiLine && units[i] in [0x0A, 0x0D, 0x2028, 0x2029]))
  {
  }

  /** Run a compiled program from `cindex` on a buffer of 8-bit or 16-bit units.  The result says whether `Search` finds
      a match; if it does, the capture array holds its bounds and those of its groups. */
  method Exec(program: seq<byte>, units: seq<Unit>, wide: bool, cindex: nat, ghost r: Regex, ghost flags: int)
    returns (ret: bool, capture: seq<Option<nat>>)
    requires Valid(r) && Is16(flags) && IsProgram(program, r, flags) && cindex <= |units|
    requires Aligned(Subject(units, KindOf(wide, flags), IsMultiLine(flags)), cindex)
    ensures var x := Subject(units, KindOf(wide, flags), IsMultiLine(flags));
      var found := Search(r, x, cindex, IsSticky(flags));
      ret == found.Some? && (ret ==> Reports(capture, found.value, r, x))
  {
    hide At, Assemble, CodeSize, ProgramCode, Search, Reports, StackSize, AllKeepDepth, AllSorted, PairAt, Steps,
      ConfigLevel, Step;
    HeaderFields(program, r, flags);
    var reFlags := GetU16(program, 0);
    var x := Subject(units, KindOf(wide, reFlags), IsMultiLine(reFlags));
    var captureCount, stackSize := program[2] as nat, program[3] as nat;
    var m := Machine(program[HEADER_LEN..], x, captureCount);
    ghost var code := ProgramCode(r, IsSticky(flags));
    ProgramLoaded(program, r, flags, m);
    ghost var result := ExecCorrect(m, r, IsSticky(flags), cindex);
    ghost var start := StartConfig(m, cindex);
    ghost var n: nat := StepsTo(m, start, result);
    var vm := new Interpreter(m, cindex, stackSize);
    StartOnTrack(m, r, IsSticky(flags), cindex, n, result);
    ret := Backtrack(vm, code, start, n, result);
    capture := vm.capture[..];
  }

  lemma StepsTo(m: Machine, c: Config, result: Option<seq<Option<nat>>>) returns (n: nat)
    requires Reaches(m, c, Done(result))
    ensures Steps(m, c, n) == Done(result)
  {
    n :| Steps(m, c, n) == Done(result);
  }

  lemma HeaderFields(program: seq<byte>, r: Regex, flags: int)
    requires Valid(r) && Is16(flags) && IsProgram(program, r, flags)
    ensures var code := ProgramCode(r, IsSticky(flags));
      |program| >= HEADER_LEN && GetU16(program, 0) == flags && program[2] == 1 + Captures(r)
      && program[3] == StackSize(code, 0) && AllFit(code) && program[HEADER_LEN..] == Assemble(code)
  {
    hide Assemble, CodeSize, ProgramCode, StackSize, Fits;
    assert program[0] == U16(flags)[0] && program[1] == U16(flags)[1];
  }

  lemma ProgramLoaded(program: seq<byte>, r: Regex, flags: int, m: Machine)
    requires Valid(r) && Is16(flags) && |program| >= HEADER_LEN
    requires var code := ProgramCode(r, IsSticky(flags));
      AllFit(code) && program[HEADER_LEN..] == Assemble(code) && m.bc == program[HEADER_LEN..]
    requires m.captureCount == 1 + Captures(r)
    ensures Loaded(m, r, IsSticky(flags)) && Sound(m, ProgramCode(r, IsSticky(flags)))
  {
    hide Assemble, CodeSize, ProgramCode, Fits, At, AllKeepDepth, AllSorted;
    var code := ProgramCode(r, IsSticky(flags));
    assert m.bc[0..CodeSize(code)] == Assemble(code);
    AssembledAt(m.bc, 0, code);
    ProgramKeepsDepth(r, IsSticky(flags));
    ProgramSorted(r, IsSticky(flags));
  }

  lemma StartOnTrack(m: Machine, r: Regex, sticky: bool, cindex: nat, n: nat, result: Option<seq<Option<nat>>>)
    requires Valid(r) && Loaded(m, r, sticky)
    requires Steps(m, StartConfig(m, cindex), n) == Done(result)
    ensures OnTrack(m, ProgramCode(r, sticky), StartConfig(m, cindex), n, 0, StartConfig(m, cindex))
  {
    hide Step, ConfigLevel, At, AllKeepDepth, ProgramCode;
    var c := StartConfig(m, cindex);
    ProgramStartsLevel(m, r, sticky, cindex);
    assert Steps(m, c, 0) == c;
    NotStuckBefore(m, c, n, result, 0);
    NotStuckBefore(m, c, n, result, 1);
    StepsSucc(m, c, 0);
  }
}
