/** The backtracking virtual machine as a transition function over configurations. */
module RegexVM {
  import opened RegexInput
  import opened RegexSyntax
  import opened RegexSemantics
  import opened RegexCode
  import opened RegexCompile

  /** What stays fixed during a run: byte code, subject and number of capture groups. */
  datatype Machine = Machine(bc: seq<byte>, x: Subject, captureCount: nat)

  datatype PointKind = SplitPoint | LookPoint(negated: bool) | GreedyPoint

  /** A saved state of the explicit backtracking stack. */
  datatype Saved = Saved(kind: PointKind, pc: int, st: State, stack: seq<int>, count: nat)

  /** `Fail` and `Succeed` are the unwinding of the saved states after a failure or a `match`;
      `Stuck` is everything the source leaves undefined or reports as broken byte code. */
  datatype Config =
    | Run(pc: int, st: State, stack: seq<int>, saved: seq<Saved>)
    | Fail(saved: seq<Saved>)
    | Succeed(caps: seq<Option<nat>>, saved: seq<Saved>)
    | Done(result: Option<seq<Option<nat>>>)
    | Stuck

  ///// Single characters and assertions

  predicate InPairs(pairs: seq<(int, int)>, c: int) {
    exists k :: 0 <= k < |pairs| && pairs[k].0 <= c <= pairs[k].1
  }

  /** Does a 16-bit range table accept `c`?  A last bound of 0xffff means infinity. */
  predicate RangeAccepts(pairs: seq<(int, int)>, c: int)
    requires pairs != []
  {
    pairs[0].0 <= c && ((c >= 0xffff && pairs[|pairs| - 1].1 == 0xffff) || InPairs(pairs, c))
  }

  predicate OpAccepts(i: Instr, c: int) {
    match i
    case IChar8(v) => c == v
    case IChar16(v) => c == v
    case IChar32(v) => c == v
    case IDot => !IsLineTerminator(c)
    case IAny => true
    case IRange(pairs) => pairs != [] && RangeAccepts(pairs, c)
    case IRange32(pairs) => InPairs(pairs, c)
    case _ => false
  }

  predicate OpHolds(i: Instr, x: Subject, pos: nat)
    requires pos <= |x.units|
  {
    match i
    case ILineStart => pos == 0 || (x.multiLine && IsLineTerminator(PrevChar(x, pos)))
    case ILineEnd => pos == |x.units| || (x.multiLine && IsLineTerminator(CharAt(x, pos)))
    case IWordBoundary(negated) =>
      var before := pos != 0 && IsWordChar(PrevChar(x, pos));
      var after := pos < |x.units| && IsWordChar(CharAt(x, pos));
      (before != after) != negated
    case _ => false
  }

  /** The effect of a character or assertion opcode on the position. */
  function OpEnd(i: Instr, x: Subject, pos: nat): (e: Option<nat>)
    requires pos <= |x.units|
    ensures e.Some? ==> pos <= e.value <= |x.units|
  {
    if IsCharOp(i) then
      if pos < |x.units| && OpAccepts(i, CharAt(x, pos)) then Some(NextPos(x, pos)) else None
    else
      if OpHolds(i, x, pos) then Some(pos) else None
  }

  ///// The simple greedy quantifier

  /** How often the atom ran, and where the last run ended. */
  datatype Runs = Runs(count: nat, pos: nat)

  datatype Inner = Got(pos: nat) | NoMatch | Abort

  /** A nested run without backtracking: characters and assertions up to `match`. */
  function InnerRun(m: Machine, pc: int, pos: nat): (r: Inner)
    requires pos <= |m.x.units|
    ensures r.Got? ==> pos <= r.pos <= |m.x.units|
    decreases |m.bc| - pc
  {
    var i := Fetch(m.bc, pc);
    if i.IMatch? then Got(pos)
    else if IsCharOp(i) || IsAssertionOp(i) then
      var e := OpEnd(i, m.x, pos);
      if e.None? then NoMatch else InnerRun(m, pc + Size(i), e.value)
    else Abort
  }

  /** Run the atom as often as possible, at most `max` times; the number of runs and the end position. */
  function GreedyRun(m: Machine, pc: int, pos: nat, q: nat, max: int): (r: Option<Runs>)
    requires pos <= |m.x.units|
    ensures r.Some? ==> q <= r.value.count && pos <= r.value.pos <= |m.x.units|
    decreases |m.x.units| - pos
  {
    match InnerRun(m, pc, pos)
    case NoMatch => Some(Runs(q, pos))
    case Abort => None
    case Got(p) =>
      if q + 1 >= max && max != INT32_MAX then Some(Runs(q + 1, p))
      else if p == pos then None
      else GreedyRun(m, pc, p, q + 1, max)
  }

  /** PREV_CHAR `n` times; nothing when that would leave the subject. */
  function PrevTimes(x: Subject, pos: nat, n: nat): (r: Option<nat>)
    requires pos <= |x.units|
    ensures r.Some? ==> r.value <= pos
    decreases n
  {
    if n == 0 then Some(pos)
    else if pos == 0 then None
    else PrevTimes(x, PrevPos(x, pos), n - 1)
  }

  ///// One opcode

  function StepRun(m: Machine, pc: int, st: State, stack: seq<int>, saved: seq<Saved>): Config {
    var i := Fetch(m.bc, pc);
    var next := pc + Size(i);
    if st.pos > |m.x.units| then Stuck
    else if IsCharOp(i) || IsAssertionOp(i) then
      var e := OpEnd(i, m.x, st.pos);
      if e.None? then Fail(saved) else Run(next, State(e.value, st.caps), stack, saved)
    else
      match i
      case IGoto(off) => Run(next + off, st, stack, saved)
      case ISplit(nextFirst, off) =>
        if nextFirst then Run(next, st, stack, saved + [Saved(SplitPoint, next + off, st, stack, 0)])
        else Run(next + off, st, stack, saved + [Saved(SplitPoint, next, st, stack, 0)])
      case ILook(negated, off) => Run(next, st, stack, saved + [Saved(LookPoint(negated), next + off, st, stack, 0)])
      case IMatch => Succeed(st.caps, saved)
      case ISave(atEnd, g) =>
        if !(0 <= g < m.captureCount) then Stuck
        else Run(next, State(st.pos, SetCapture(st.caps, 2 * g + (if atEnd then 1 else 0), Some(st.pos))), stack, saved)
      case ISaveReset(a, b) =>
        if !(0 <= a && 0 <= b < m.captureCount) then Stuck
        else Run(next, State(st.pos, ResetCaptures(st.caps, a, b + 1)), stack, saved)
      case IPushI32(v) => Run(next, st, stack + [v], saved)
      case IDrop => if stack == [] then Stuck else Run(next, st, stack[..|stack| - 1], saved)
      case ILoop(off) =>
        if stack == [] || stack[|stack| - 1] == 0 then Stuck
        else
          var top := stack[|stack| - 1] - 1;
          Run(if top != 0 then next + off else next, st, stack[..|stack| - 1] + [top], saved)
      case IPushCharPos => Run(next, st, stack + [st.pos], saved)
      case ICheckAdvance =>
        if stack == [] then Stuck
        else if stack[|stack| - 1] == st.pos then Fail(saved)
        else Run(next, st, stack[..|stack| - 1], saved)
      case ISimpleGreedy(off, min, max, _) =>
        var r := GreedyRun(m, next, st.pos, 0, max);
        if r.None? then Stuck
        else
          var Runs(q, p) := r.value;
          if q < min then Fail(saved)
          else if q == min then Run(next + off, State(p, st.caps), stack, saved)
          else Run(next + off, State(p, st.caps), stack,
                   saved + [Saved(GreedyPoint, pc + 1, State(p, st.caps), stack, q - min)])
      case _ => Stuck
  }

  function StepFail(m: Machine, saved: seq<Saved>): Config {
    if saved == [] then Done(None)
    else
      var rest, s := saved[..|saved| - 1], saved[|saved| - 1];
      match s.kind
      case SplitPoint => Run(s.pc, s.st, s.stack, rest)
      case LookPoint(negated) => if negated then Run(s.pc, s.st, s.stack, rest) else Fail(rest)
      case GreedyPoint =>
        var i := Fetch(m.bc, s.pc - 1);
        if !i.ISimpleGreedy? || s.st.pos > |m.x.units| || s.count == 0 then Stuck
        else
          var p := PrevTimes(m.x, s.st.pos, i.count);
          if p.None? then Stuck
          else
            var back := State(p.value, s.st.caps);
            Run(s.pc + 16 + i.off, back, s.stack,
                if s.count == 1 then rest else rest + [Saved(GreedyPoint, s.pc, back, s.stack, s.count - 1)])
  }

  function StepSucceed(caps: seq<Option<nat>>, saved: seq<Saved>): Config {
    if saved == [] then Done(Some(caps))
    else
      var rest, s := saved[..|saved| - 1], saved[|saved| - 1];
      match s.kind
      case LookPoint(negated) => if negated then Fail(rest) else Run(s.pc, State(s.st.pos, caps), s.stack, rest)
      case _ => Succeed(caps, rest)
  }

  function Step(m: Machine, c: Config): Config {
    match c
    case Run(pc, st, stack, saved) => StepRun(m, pc, st, stack, saved)
    case Fail(saved) => StepFail(m, saved)
    case Succeed(caps, saved) => StepSucceed(caps, saved)
    case _ => c
  }

  function Steps(m: Machine, c: Config, n: nat): Config
    decreases n
  {
    if n == 0 then c else Steps(m, Step(m, c), n - 1)
  }

  ghost predicate Reaches(m: Machine, c: Config, d: Config) {
    exists n: nat :: Steps(m, c, n) == d
  }

  lemma {:induction false} StepsAdd(m: Machine, c: Config, k: nat, n: nat)
    ensures Steps(m, c, k + n) == Steps(m, Steps(m, c, k), n)
    decreases k
  {
    if k > 0 { StepsAdd(m, Step(m, c), k - 1, n); }
  }

  lemma ReachesSelf(m: Machine, c: Config)
    ensures Reaches(m, c, c)
  {
    assert Steps(m, c, 0) == c;
  }

  lemma ReachesStep(m: Machine, c: Config, d: Config)
    requires Step(m, c) == d
    ensures Reaches(m, c, d)
  {
    assert Steps(m, c, 1) == Steps(m, Step(m, c), 0);
  }

  lemma ReachesTrans(m: Machine, c: Config, d: Config, e: Config)
    requires Reaches(m, c, d) && Reaches(m, d, e)
    ensures Reaches(m, c, e)
  {
    var k: nat :| Steps(m, c, k) == d;
    var n: nat :| Steps(m, d, n) == e;
    StepsAdd(m, c, k, n);
  }
}
