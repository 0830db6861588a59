/** The simple greedy quantifier -- run the atom without backtracking, then step back
    character by character -- offers the same states as the generic greedy loop. */
module RegexSimple {
  import opened RegexInput
  import opened RegexSyntax
  import opened RegexSemantics
  import opened RegexCode
  import opened RegexCompile
  import opened RegexVM
  import opened RegexYields
  import opened RegexAtoms
  import opened RegexCorrect
  import opened RegexLoops
  import opened RegexQuant

  /** The atom's code, `count` characters long, ends in `match`; every start position is handled
      without backtracking and undone by `count` steps back. */
  ghost predicate SimpleLoop(m: Machine, b: Regex, cc: nat, p: int, count: nat) {
    count > 0 &&
    forall st :: Good(m, st) ==>
      var ss := Matches(b, cc, m.x, st);
      if ss == [] then InnerRun(m, p, st.pos) == NoMatch
      else
        |ss| == 1 && ss[0].caps == st.caps && st.pos < ss[0].pos && InnerRun(m, p, st.pos) == Got(ss[0].pos)
        && PrevTimes(m.x, ss[0].pos, count) == Some(st.pos)
  }

  lemma SimpleCodeLoops(m: Machine, b: Regex, cc: nat, p: int)
    requires Valid(b) && SimpleScan(CodeOf(b, cc)) > 0 && At(m.bc, p, CodeOf(b, cc) + [IMatch])
    ensures SimpleLoop(m, b, cc, p, SimpleScan(CodeOf(b, cc)))
  {
    hide Matches, CodeOf, Fetch, PrevTimes, PairAt, At, SimpleScan;
    var code := CodeOf(b, cc);
    AtAppend(m.bc, p, code, [IMatch]);
    var q := p + CodeSize(code);
    MatchAt(m.bc, q);
    forall st | Good(m, st)
      ensures var ss := Matches(b, cc, m.x, st);
        if ss == [] then InnerRun(m, p, st.pos) == NoMatch
        else
          |ss| == 1 && ss[0].caps == st.caps && st.pos < ss[0].pos && InnerRun(m, p, st.pos) == Got(ss[0].pos)
          && PrevTimes(m.x, ss[0].pos, SimpleScan(code)) == Some(st.pos)
    {
      SimpleSound(m, b, cc, p, st);
    }
  }

  lemma MatchAt(bc: seq<byte>, p: int)
    requires At(bc, p, [IMatch])
    ensures Fetch(bc, p) == IMatch
  {
    hide Fetch;
  }

  ///// The states offered while stepping back

  /** `pos`, then `count` characters back, and so on, `k` steps in all. */
  function BackStates(x: Subject, pos: nat, caps: seq<Option<nat>>, count: nat, k: nat): (ss: seq<State>)
    requires pos <= |x.units|
    decreases k
  {
    var here := State(pos, caps);
    if k == 0 then [here]
    else
      var back := PrevTimes(x, pos, count);
      if back.None? then [here] else [here] + BackStates(x, back.value, caps, count, k - 1)
  }

  lemma {:induction false} BackStatesExtend(x: Subject, pos: nat, caps: seq<Option<nat>>, count: nat, k: nat,
        start: nat)
    requires pos <= |x.units| && PrevTimes(x, pos, (k + 1) * count) == Some(start)
    ensures BackStates(x, pos, caps, count, k + 1) == BackStates(x, pos, caps, count, k) + [State(start, caps)]
    decreases k
  {
    hide PrevTimes;
    assert (k + 1) * count == count + k * count;
    PrevTimesSplit(x, pos, count, k * count);
    var back := PrevTimes(x, pos, count).value;
    if k == 0 {
      PrevTimesNone(x, back);
      assert BackStates(x, back, caps, count, 0) == [State(back, caps)];
    } else {
      BackStatesExtend(x, back, caps, count, k - 1, start);
      var here, front := [State(pos, caps)], BackStates(x, back, caps, count, k - 1);
      assert here + (front + [State(start, caps)]) == (here + front) + [State(start, caps)];
    }
  }

  lemma PrevTimesNone(x: Subject, pos: nat)
    requires pos <= |x.units|
    ensures PrevTimes(x, pos, 0) == Some(pos)
  {
  }

  lemma {:induction false} PrevTimesSplit(x: Subject, pos: nat, a: nat, b: nat)
    requires pos <= |x.units| && PrevTimes(x, pos, a + b).Some?
    ensures PrevTimes(x, pos, a).Some? && PrevTimes(x, PrevTimes(x, pos, a).value, b) == PrevTimes(x, pos, a + b)
    decreases a
  {
    hide PairAt;
    if a > 0 { PrevTimesSplit(x, PrevPos(x, pos), a - 1, b); }
  }

  /** Counting the runs from `q + 1` is counting one more. */
  lemma {:induction false} GreedyShift(m: Machine, pc: int, pos: nat, q: nat, max: nat)
    requires pos <= |m.x.units| && 2 <= max <= INT32_MAX && (max != INT32_MAX ==> q + 1 < max)
    ensures var r, s := GreedyRun(m, pc, pos, q, Lower(max)), GreedyRun(m, pc, pos, q + 1, max);
      s == if r.None? then None else Some(Runs(r.value.count + 1, r.value.pos))
    decreases |m.x.units| - pos
  {
    hide InnerRun;
    match InnerRun(m, pc, pos)
    case Got(p) =>
      if !(q + 2 >= max && max != INT32_MAX) && p != pos {
        GreedyShift(m, pc, p, q + 1, max);
      }
    case _ =>
  }

  /** What the forward loop returns, and how RepeatMatcher's list follows from it. */
  ghost predicate GreedyMeans(m: Machine, b: Regex, cc: nat, pc: int, count: nat, min: nat, max: nat, st: State)
    requires st.pos <= |m.x.units|
  {
    var r := GreedyRun(m, pc, st.pos, 0, max);
    r.Some? &&
    PrevTimes(m.x, r.value.pos, r.value.count * count) == Some(st.pos) &&
    Repeat(b, cc, m.x, min, max, true, st) ==
    if r.value.count < min then [] else BackStates(m.x, r.value.pos, st.caps, count, r.value.count - min)
  }

  lemma {:induction false} GreedyLists(m: Machine, b: Regex, cc: nat, pc: int, count: nat, min: nat, max: nat,
        st: State)
    requires SimpleLoop(m, b, cc, pc, count) && Good(m, st) && min <= max && 0 < max <= INT32_MAX
    ensures GreedyMeans(m, b, cc, pc, count, min, max, st)
    decreases |m.x.units| - st.pos
  {
    hide InnerRun, Matches, PairAt, Repeat, PrevTimes, Optional;
    var ss := Matches(b, cc, m.x, st);
    PrevTimesNone(m.x, st.pos);
    if ss == [] {
      RepeatOfNone(b, cc, m.x, min, max, st);
    } else {
      MatchesAligned(b, cc, m.x, st);
      var y := ss[0];
      RepeatOfOne(b, cc, m.x, min, max, st, y);
      if max == 1 {
        GreedyLast(m, b, cc, pc, count, min, st, y);
      } else {
        GreedyLists(m, b, cc, pc, count, if min == 0 then 0 else min - 1, Lower(max), y);
        GreedyShift(m, pc, y.pos, 0, max);
        GreedyMore(m, b, cc, pc, count, min, max, st, y);
      }
    }
  }

  lemma RepeatOfNone(b: Regex, cc: nat, x: Subject, min: nat, max: nat, st: State)
    requires st.pos <= |x.units| && max > 0 && Matches(b, cc, x, st) == []
    ensures Repeat(b, cc, x, min, max, true, st) == if min > 0 then [] else [st]
  {
    hide Matches;
    assert AdvancedStates(st.pos, [], |x.units|, |st.caps|) == [];
    if min == 0 {
      assert Optional(b, cc, x, max, true, st) == [];
    }
  }

  lemma RepeatOfOne(b: Regex, cc: nat, x: Subject, min: nat, max: nat, st: State, y: State)
    requires st.pos <= |x.units| && max > 0 && Matches(b, cc, x, st) == [y] && st.pos < y.pos <= |x.units|
    ensures Repeat(b, cc, x, min, max, true, st) ==
      Repeat(b, cc, x, if min == 0 then 0 else min - 1, Lower(max), true, y) + (if min > 0 then [] else [st])
  {
    hide Matches;
    var ss := Matches(b, cc, x, st);
    assert ss[1..] == [];
    if min > 0 {
      assert RepeatEach(b, cc, x, min - 1, Lower(max), true, st.pos, |st.caps|, ss[1..]) == [];
      assert RepeatEach(b, cc, x, min - 1, Lower(max), true, st.pos, |st.caps|, ss)
          == Repeat(b, cc, x, min - 1, Lower(max), true, y) + [];
    } else {
      AllAdvanced(st.pos, ss, |x.units|, |st.caps|);
      assert RepeatEach(b, cc, x, 0, Lower(max), true, st.pos + 1, |st.caps|, ss[1..]) == [];
      assert RepeatEach(b, cc, x, 0, Lower(max), true, st.pos + 1, |st.caps|, ss)
          == Repeat(b, cc, x, 0, Lower(max), true, y) + [];
    }
  }

  /** The last allowed run. */
  lemma GreedyLast(m: Machine, b: Regex, cc: nat, pc: int, count: nat, min: nat, st: State, y: State)
    requires Good(m, st) && Good(m, y) && min <= 1 && y.caps == st.caps && count > 0
    requires InnerRun(m, pc, st.pos) == Got(y.pos) && PrevTimes(m.x, y.pos, count) == Some(st.pos)
    requires Repeat(b, cc, m.x, min, 1, true, st) ==
      Repeat(b, cc, m.x, 0, 0, true, y) + (if min > 0 then [] else [st])
    ensures GreedyMeans(m, b, cc, pc, count, min, 1, st)
  {
    hide InnerRun, PairAt, Repeat, PrevTimes;
    RepeatStop(b, cc, m.x, true, y);
    assert 1 * count == count;
    if min == 0 {
      BackStatesExtend(m.x, y.pos, st.caps, count, 0, st.pos);
    }
    assert BackStates(m.x, y.pos, st.caps, count, 0) == [y];
  }

  /** One run in front of a longer one. */
  lemma GreedyMore(m: Machine, b: Regex, cc: nat, pc: int, count: nat, min: nat, max: nat, st: State, y: State)
    requires Good(m, st) && Good(m, y) && min <= max && 2 <= max <= INT32_MAX && y.caps == st.caps && st.pos < y.pos
    requires InnerRun(m, pc, st.pos) == Got(y.pos) && PrevTimes(m.x, y.pos, count) == Some(st.pos)
    requires GreedyMeans(m, b, cc, pc, count, if min == 0 then 0 else min - 1, Lower(max), y)
    requires var r, s := GreedyRun(m, pc, y.pos, 0, Lower(max)), GreedyRun(m, pc, y.pos, 1, max);
      s == if r.None? then None else Some(Runs(r.value.count + 1, r.value.pos))
    requires Repeat(b, cc, m.x, min, max, true, st) ==
      Repeat(b, cc, m.x, if min == 0 then 0 else min - 1, Lower(max), true, y) + (if min > 0 then [] else [st])
    ensures GreedyMeans(m, b, cc, pc, count, min, max, st)
  {
    hide InnerRun, PairAt, Repeat, PrevTimes, BackStates;
    var Runs(q, e) := GreedyRun(m, pc, y.pos, 0, Lower(max)).value;
    assert GreedyRun(m, pc, st.pos, 0, max) == Some(Runs(q + 1, e));
    assert (q + 1) * count == q * count + count;
    PrevTimesAdd(m.x, e, q * count, count);
    if min == 0 {
      BackStatesExtend(m.x, e, st.caps, count, q, st.pos);
    }
  }

  ///// The opcode

  lemma PrevTimesFirst(x: Subject, pos: nat, count: nat, k: nat)
    requires pos <= |x.units| && k > 0 && PrevTimes(x, pos, k * count).Some?
    ensures PrevTimes(x, pos, count).Some? && PrevTimes(x, PrevTimes(x, pos, count).value, (k - 1) * count).Some?
  {
    assert k * count == count + (k - 1) * count;
    PrevTimesSplit(x, pos, count, (k - 1) * count);
  }

  lemma BackStep(m: Machine, p: int, off: int, min: int, max: int, count: nat, k: nat,
                 pos: nat, caps: seq<Option<nat>>, stack: seq<int>, S: seq<Saved>)
    requires Fetch(m.bc, p) == ISimpleGreedy(off, min, max, count) && pos <= |m.x.units| && k > 0
    requires PrevTimes(m.x, pos, count).Some?
    ensures var here, back := State(pos, caps), State(PrevTimes(m.x, pos, count).value, caps);
      Step(m, Fail(S + [Saved(GreedyPoint, p + 1, here, stack, k)])) ==
      Run(p + 17 + off, back, stack, if k == 1 then S else S + [Saved(GreedyPoint, p + 1, back, stack, k - 1)])
  {
    hide Fetch, PrevTimes;
    var T := S + [Saved(GreedyPoint, p + 1, State(pos, caps), stack, k)];
    assert T[..|T| - 1] == S;
  }

  lemma {:induction false} BackYields(m: Machine, p: int, off: int, min: int, max: int, count: nat, k: nat,
                                      pos: nat, caps: seq<Option<nat>>, stack: seq<int>, S: seq<Saved>)
    requires Fetch(m.bc, p) == ISimpleGreedy(off, min, max, count) && pos <= |m.x.units|
    requires PrevTimes(m.x, pos, k * count).Some?
    ensures var end := p + 17 + off;
      Yields(m, Run(end, State(pos, caps), stack,
                    if k == 0 then S else S + [Saved(GreedyPoint, p + 1, State(pos, caps), stack, k)]),
             end, stack, BackStates(m.x, pos, caps, count, k), S)
    decreases k
  {
    hide Yields, Fetch, Reaches, PrevTimes, PairAt, Step;
    var end, here := p + 17 + off, State(pos, caps);
    if k == 0 {
      YieldsOne(m, end, stack, here, S);
    } else {
      PrevTimesFirst(m.x, pos, count, k);
      var back := PrevTimes(m.x, pos, count).value;
      var T := S + [Saved(GreedyPoint, p + 1, here, stack, k)];
      var rest := BackStates(m.x, back, caps, count, k - 1);
      BackYields(m, p, off, min, max, count, k - 1, back, caps, stack, S);
      BackStep(m, p, off, min, max, count, k, pos, caps, stack, S);
      YieldsAfterStep(m, Fail(T), end, stack, rest, S);
      ReachesSelf(m, Run(end, here, stack, T));
      YieldsCons(m, Run(end, here, stack, T), end, stack, here, T, rest, S);
    }
  }

  lemma SimplePerforms(m: Machine, b: Regex, cc: nat, p: int, off: int, min: nat, max: nat, count: nat,
                       st: State, stack: seq<int>, S: seq<Saved>)
    requires Fetch(m.bc, p) == ISimpleGreedy(off, min, max, count) && SimpleLoop(m, b, cc, p + 17, count)
    requires Good(m, st) && min <= max && 0 < max <= INT32_MAX
    ensures Yields(m, Run(p, st, stack, S), p + 17 + off, stack, Repeat(b, cc, m.x, min, max, true, st), S)
  {
    hide Yields, Fetch, Reaches, PrevTimes, PairAt, Repeat, SimpleLoop, GreedyRun, BackStates;
    GreedyLists(m, b, cc, p + 17, count, min, max, st);
    var c, end := Run(p, st, stack, S), p + 17 + off;
    var Runs(q, e) := GreedyRun(m, p + 17, st.pos, 0, max).value;
    if q < min {
      YieldsNone(m, c, end, stack, S);
    } else {
      var k := q - min;
      assert q * count == k * count + min * count;
      PrevTimesSplit(m.x, e, k * count, min * count);
      BackYields(m, p, off, min, max, count, k, e, st.caps, stack, S);
      YieldsAfterStep(m, c, end, stack, BackStates(m.x, e, st.caps, count, k), S);
    }
  }

  lemma SimpleRepeats(m: Machine, b: Regex, cc: nat, p: int, off: int, min: nat, max: nat, count: nat)
    requires Fetch(m.bc, p) == ISimpleGreedy(off, min, max, count) && SimpleLoop(m, b, cc, p + 17, count)
    requires min <= max && 0 < max <= INT32_MAX
    ensures Repeats(m, b, cc, min, max, true, p, p + 17 + off)
  {
    hide Yields, Fetch, Reaches, PairAt, Repeat, SimpleLoop;
    var end := p + 17 + off;
    forall st, stack: seq<int>, S | Good(m, st)
      ensures Yields(m, Run(p, st, stack, S), end, stack, Repeat(b, cc, m.x, min, max, true, st), S)
    {
      SimplePerforms(m, b, cc, p, off, min, max, count, st, stack, S);
    }
  }
}
