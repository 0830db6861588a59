/** Quantifiers: every loop shape the compiler emits performs RepeatMatcher. */
module RegexLoops {
  import opened RegexInput
  import opened RegexSyntax
  import opened RegexSemantics
  import opened RegexCode
  import opened RegexCompile
  import opened RegexVM
  import opened RegexYields
  import opened RegexAtoms
  import opened RegexCorrect

  ///// One optional iteration

  /** From `p` the machine offers at `end` the matches of `b` that advance. */
  ghost predicate Iterates(m: Machine, b: Regex, cc: nat, p: int, end: int) {
    forall st, stack, S :: Good(m, st) ==>
      Yields(m, Run(p, st, stack, S), end, stack,
             AdvancedStates(st.pos, Matches(b, cc, m.x, st), |m.x.units|, |st.caps|), S)
  }

  lemma {:induction false} CheckYields(m: Machine, c: Config, end: int, stack: seq<int>, ss: seq<State>, S: seq<Saved>,
                                       i: nat, n: nat)
    requires Yields(m, c, end, stack + [i], ss, S) && StatesBetween(i, ss, |m.x.units|, n)
    requires Fetch(m.bc, end) == ICheckAdvance
    ensures Yields(m, c, end + 1, stack, AdvancedStates(i, ss, |m.x.units|, n), S)
    decreases |ss|
  {
    hide Fetch, Reaches, Extends;
    if ss != [] {
      var T :| Extends(S, T) && Reaches(m, c, Run(end, ss[0], stack + [i], T)) &&
        Yields(m, Fail(T), end, stack + [i], ss[1..], S);
      CheckYields(m, Fail(T), end, stack, ss[1..], S, i, n);
      var rest := AdvancedStates(i, ss[1..], |m.x.units|, n);
      var here := Run(end, ss[0], stack + [i], T);
      assert (stack + [i])[..|stack + [i]| - 1] == stack;
      if ss[0].pos == i {
        YieldsAfterStep(m, here, end + 1, stack, rest, S);
        YieldsAfter(m, c, here, end + 1, stack, rest, S);
        assert [] + rest == rest;
      } else {
        ReachesStep(m, here, Run(end + 1, ss[0], stack, T));
        ReachesTrans(m, c, here, Run(end + 1, ss[0], stack, T));
        YieldsCons(m, c, end + 1, stack, ss[0], T, rest, S);
      }
    }
  }

  lemma CheckedIterates(m: Machine, b: Regex, cc: nat, p: int, n: nat)
    requires Fetch(m.bc, p) == IPushCharPos && Fetch(m.bc, p + 1 + n) == ICheckAdvance
    requires Performs(m, b, cc, p + 1, p + 1 + n)
    ensures Iterates(m, b, cc, p, p + 2 + n)
  {
    hide Fetch, Yields, Reaches, Matches, AdvancedStates, PairAt;
    var end := p + 2 + n;
    forall st, stack: seq<int>, S | Good(m, st)
      ensures Yields(m, Run(p, st, stack, S), end, stack,
                     AdvancedStates(st.pos, Matches(b, cc, m.x, st), |m.x.units|, |st.caps|), S)
    {
      var ss := Matches(b, cc, m.x, st);
      var inside := Run(p + 1, st, stack + [st.pos], S);
      assert Yields(m, inside, p + 1 + n, stack + [st.pos], ss, S);
      CheckYields(m, inside, p + 1 + n, stack, ss, S, st.pos, |st.caps|);
      assert Step(m, Run(p, st, stack, S)) == inside;
      YieldsAfterStep(m, Run(p, st, stack, S), p + 2 + n, stack,
                      AdvancedStates(st.pos, ss, |m.x.units|, |st.caps|), S);
    }

  }

  /** Without the test every match advances anyway. */
  lemma UncheckedIterates(m: Machine, b: Regex, cc: nat, p: int, end: int)
    requires Valid(b) && !NeedCheck(CodeOf(b, cc)) && Performs(m, b, cc, p, end)
    ensures Iterates(m, b, cc, p, end)
  {
    hide Yields, Reaches, Matches, AdvancedStates, PairAt, CodeOf;
    forall st, stack: seq<int>, S | Good(m, st)
      ensures Yields(m, Run(p, st, stack, S), end, stack,
                     AdvancedStates(st.pos, Matches(b, cc, m.x, st), |m.x.units|, |st.caps|), S)
    {
      PredictableAdvances(b, cc, m.x, st);
      AllAdvanced(st.pos, Matches(b, cc, m.x, st), |m.x.units|, |st.caps|);
    }
  }

  lemma IterationIterates(m: Machine, b: Regex, cc: nat, p: int)
    requires Valid(b) && At(m.bc, p, Iteration(CodeOf(b, cc)))
    requires var q := p + (if NeedCheck(CodeOf(b, cc)) then 1 else 0);
      Performs(m, b, cc, q, q + CodeSize(CodeOf(b, cc)))
    ensures Iterates(m, b, cc, p, p + CodeSize(Iteration(CodeOf(b, cc))))
  {
    hide Fetch, CodeOf, Performs, Iterates, NeedCheck;
    var atom := CodeOf(b, cc);
    if NeedCheck(atom) {
      AtAppend(m.bc, p, [IPushCharPos] + atom, [ICheckAdvance]);
      AtAppend(m.bc, p, [IPushCharPos], atom);
      SizeAppend([IPushCharPos] + atom, [ICheckAdvance]);
      SizeAppend([IPushCharPos], atom);
      assert [IPushCharPos][1..] == [] && [ICheckAdvance][1..] == [];
      CheckedIterates(m, b, cc, p, CodeSize(atom));
    } else {
      UncheckedIterates(m, b, cc, p, p + CodeSize(atom));
    }
  }

  ///// Unfolding RepeatMatcher

  lemma RepeatZero(b: Regex, cc: nat, x: Subject, max: nat, greedy: bool, st: State)
    requires st.pos <= |x.units| && max > 0
    ensures Repeat(b, cc, x, 0, max, greedy, st) ==
            if greedy then Optional(b, cc, x, max, greedy, st) + [st] else [st] + Optional(b, cc, x, max, greedy, st)
  {
  }

  lemma RepeatStop(b: Regex, cc: nat, x: Subject, greedy: bool, st: State)
    requires st.pos <= |x.units|
    ensures Repeat(b, cc, x, 0, 0, greedy, st) == [st]
  {
  }

  /** The split in front of an optional iteration: iterate or leave, in the order greediness asks for. */
  lemma OptionalSplit(m: Machine, p: int, greedy: bool, off: int, st: State, stack: seq<int>, S: seq<Saved>,
                      end: int, stack2: seq<int>, more: seq<State>)
    requires Fetch(m.bc, p) == ISplit(greedy, off) && st.pos <= |m.x.units|
    requires var T := S + [Saved(SplitPoint, p + 5 + off, st, stack, 0)];
      greedy ==> Yields(m, Run(p + 5, st, stack, T), end, stack2, more, T) &&
                 Yields(m, Run(p + 5 + off, st, stack, S), end, stack2, [st], S)
    requires var T := S + [Saved(SplitPoint, p + 5, st, stack, 0)];
      !greedy ==> Yields(m, Run(p + 5, st, stack, S), end, stack2, more, S) &&
                  Yields(m, Run(p + 5 + off, st, stack, T), end, stack2, [st], T)
    ensures Yields(m, Run(p, st, stack, S), end, stack2, if greedy then more + [st] else [st] + more, S)
  {
    hide Yields, Fetch, Reaches;
    if greedy {
      SplitYields(m, p, greedy, off, st, stack, S, end, stack2, more, [st]);
    } else {
      SplitYields(m, p, greedy, off, st, stack, S, end, stack2, [st], more);
    }
  }

  ///// `?`

  lemma OptionPerforms(m: Machine, b: Regex, cc: nat, greedy: bool, p: int, n: nat, st: State, stack: seq<int>,
        S: seq<Saved>)
    requires Fetch(m.bc, p) == ISplit(greedy, n) && Iterates(m, b, cc, p + 5, p + 5 + n) && Good(m, st)
    ensures Yields(m, Run(p, st, stack, S), p + 5 + n, stack, Repeat(b, cc, m.x, 0, 1, greedy, st), S)
  {
    hide Yields, Fetch, Reaches, Matches, Repeat, AdvancedStates, PairAt;
    var end := p + 5 + n;
    var ahead := AdvancedStates(st.pos, Matches(b, cc, m.x, st), |m.x.units|, |st.caps|);
    RepeatEachZero(b, cc, m.x, greedy, st.pos + 1, |st.caps|, ahead);
    RepeatZero(b, cc, m.x, 1, greedy, st);
    var T := S + [Saved(SplitPoint, if greedy then end else p + 5, st, stack, 0)];
    YieldsOne(m, end, stack, st, S);
    YieldsOne(m, end, stack, st, T);
    assert Yields(m, Run(p + 5, st, stack, S), end, stack, ahead, S);
    assert Yields(m, Run(p + 5, st, stack, T), end, stack, ahead, T);
    OptionalSplit(m, p, greedy, n, st, stack, S, end, stack, ahead);
  }

  ///// `*`

  lemma {:induction false} StarPerforms(m: Machine, b: Regex, cc: nat, greedy: bool, p: int, n: nat,
                                        st: State, stack: seq<int>, S: seq<Saved>)
    requires Fetch(m.bc, p) == ISplit(greedy, n + 5) && Fetch(m.bc, p + 5 + n) == IGoto(-(n + 10))
    requires Iterates(m, b, cc, p + 5, p + 5 + n) && Good(m, st)
    ensures Yields(m, Run(p, st, stack, S), p + 10 + n, stack, Repeat(b, cc, m.x, 0, INT32_MAX, greedy, st), S)
    decreases |m.x.units| - st.pos, 1
  {
    hide Yields, Fetch, Reaches, Matches, Repeat, Optional, AdvancedStates, PairAt;
    var end, more := p + 10 + n, Optional(b, cc, m.x, INT32_MAX, greedy, st);
    RepeatZero(b, cc, m.x, INT32_MAX, greedy, st);
    var T := S + [Saved(SplitPoint, if greedy then end else p + 5, st, stack, 0)];
    YieldsOne(m, end, stack, st, S);
    YieldsOne(m, end, stack, st, T);
    StarBody(m, b, cc, greedy, p, n, st, stack, S);
    StarBody(m, b, cc, greedy, p, n, st, stack, T);
    OptionalSplit(m, p, greedy, n + 5, st, stack, S, end, stack, more);
  }

  lemma {:induction false} StarBody(m: Machine, b: Regex, cc: nat, greedy: bool, p: int, n: nat,
                                    st: State, stack: seq<int>, S: seq<Saved>)
    requires Fetch(m.bc, p) == ISplit(greedy, n + 5) && Fetch(m.bc, p + 5 + n) == IGoto(-(n + 10))
    requires Iterates(m, b, cc, p + 5, p + 5 + n) && Good(m, st)
    ensures Yields(m, Run(p + 5, st, stack, S), p + 10 + n, stack, Optional(b, cc, m.x, INT32_MAX, greedy, st), S)
    decreases |m.x.units| - st.pos, 0
  {
    hide Yields, Fetch, Reaches, Matches, Repeat, AdvancedStates, PairAt;
    var c, end := Run(p + 5, st, stack, S), p + 10 + n;
    var ahead := AheadAligned(m, b, cc, st);
    assert Yields(m, c, p + 5 + n, stack, ahead, S);
    YieldsThrough(m, c, p + 5 + n, stack, ahead, S, p, stack);
    forall k, T | 0 <= k < |ahead|
      ensures Yields(m, Run(p, ahead[k], stack, T), end, stack, Repeat(b, cc, m.x, 0, INT32_MAX, greedy, ahead[k]), T)
    {
      StarPerforms(m, b, cc, greedy, p, n, ahead[k], stack, T);
    }
    BindRepeat(m, c, p, stack, ahead, S, b, cc, 0, INT32_MAX, greedy, st.pos + 1, |st.caps|, end, stack);
  }

  /** The advancing matches are good start states again. */
  lemma AheadAligned(m: Machine, b: Regex, cc: nat, st: State) returns (ahead: seq<State>)
    requires Good(m, st)
    ensures ahead == AdvancedStates(st.pos, Matches(b, cc, m.x, st), |m.x.units|, |st.caps|)
    ensures AllGood(m, ahead) && StatesBetween(st.pos + 1, ahead, |m.x.units|, |st.caps|)
  {
    hide Matches, PairAt, AdvancedStates;
    var ss := Matches(b, cc, m.x, st);
    MatchesAligned(b, cc, m.x, st);
    AdvancedAligned(st.pos, ss, m.x, |m.x.units|, |st.caps|);
    ahead := AdvancedStates(st.pos, ss, |m.x.units|, |st.caps|);
  }

  ///// `{0,count}`

  /** The loop `split; iteration; loop; drop` with the counter on top of the operand stack. */
  ghost predicate CountedLoop(m: Machine, b: Regex, cc: nat, greedy: bool, p: int, n: nat) {
    Fetch(m.bc, p) == ISplit(greedy, n + 5) && Fetch(m.bc, p + 5 + n) == ILoop(-(n + 10))
    && Fetch(m.bc, p + 10 + n) == IDrop && Iterates(m, b, cc, p + 5, p + 5 + n)
  }

  lemma DropYields(m: Machine, p: int, st: State, stack: seq<int>, v: int, S: seq<Saved>)
    requires Fetch(m.bc, p) == IDrop && st.pos <= |m.x.units|
    ensures Yields(m, Run(p, st, stack + [v], S), p + 1, stack, [st], S)
  {
    hide Yields, Fetch, Reaches;
    assert (stack + [v])[..|stack + [v]| - 1] == stack;
    assert Step(m, Run(p, st, stack + [v], S)) == Run(p + 1, st, stack, S);
    YieldsOne(m, p + 1, stack, st, S);
    YieldsAfterStep(m, Run(p, st, stack + [v], S), p + 1, stack, [st], S);
  }

  lemma {:induction false} CountedPerforms(m: Machine, b: Regex, cc: nat, greedy: bool, p: int, n: nat, count: nat,
                                           st: State, stack: seq<int>, S: seq<Saved>)
    requires CountedLoop(m, b, cc, greedy, p, n) && Good(m, st) && 0 < count < INT32_MAX
    ensures Yields(m, Run(p, st, stack + [count], S), p + 11 + n, stack, Repeat(b, cc, m.x, 0, count, greedy, st), S)
    decreases count, 1
  {
    hide Yields, Fetch, Reaches, Matches, Repeat, Optional, PairAt;
    var end, more := p + 11 + n, Optional(b, cc, m.x, count, greedy, st);
    RepeatZero(b, cc, m.x, count, greedy, st);
    var T := S + [Saved(SplitPoint, if greedy then p + 10 + n else p + 5, st, stack + [count], 0)];
    DropYields(m, p + 10 + n, st, stack, count, S);
    DropYields(m, p + 10 + n, st, stack, count, T);
    CountedBody(m, b, cc, greedy, p, n, count, st, stack, S);
    CountedBody(m, b, cc, greedy, p, n, count, st, stack, T);
    OptionalSplit(m, p, greedy, n + 5, st, stack + [count], S, end, stack, more);
  }

  lemma {:induction false} CountedBody(m: Machine, b: Regex, cc: nat, greedy: bool, p: int, n: nat, count: nat,
                                       st: State, stack: seq<int>, S: seq<Saved>)
    requires CountedLoop(m, b, cc, greedy, p, n) && Good(m, st) && 0 < count < INT32_MAX
    ensures Yields(m, Run(p + 5, st, stack + [count], S), p + 11 + n, stack, Optional(b, cc, m.x, count, greedy, st), S)
    decreases count, 0
  {
    hide Yields, Fetch, Reaches, Matches, Repeat, AdvancedStates, PairAt;
    var c, mid, end := Run(p + 5, st, stack + [count], S), p + 5 + n, p + 11 + n;
    var stack2 := stack + [count];
    var ahead := AheadAligned(m, b, cc, st);
    assert Yields(m, c, mid, stack2, ahead, S);
    forall k, T | 0 <= k < |ahead|
      ensures Yields(m, Run(mid, ahead[k], stack2, T), end, stack,
                     Repeat(b, cc, m.x, 0, count - 1, greedy, ahead[k]), T)
    {
      CountedNext(m, b, cc, greedy, p, n, count, ahead[k], stack, T);
    }
    BindRepeat(m, c, mid, stack2, ahead, S, b, cc, 0, count - 1, greedy, st.pos + 1, |st.caps|, end, stack);
  }

  /** At the `loop` opcode: count down, and go round or fall through to `drop`. */
  lemma {:induction false} CountedNext(m: Machine, b: Regex, cc: nat, greedy: bool, p: int, n: nat, count: nat,
                                       st: State, stack: seq<int>, S: seq<Saved>)
    requires CountedLoop(m, b, cc, greedy, p, n) && Good(m, st) && 0 < count < INT32_MAX
    ensures Yields(m, Run(p + 5 + n, st, stack + [count], S), p + 11 + n, stack,
                   Repeat(b, cc, m.x, 0, count - 1, greedy, st), S)
    decreases count - 1, 2
  {
    hide Yields, Fetch, Reaches, Matches, Repeat, PairAt;
    var here := Run(p + 5 + n, st, stack + [count], S);
    assert (stack + [count])[..|stack + [count]| - 1] == stack;
    if count == 1 {
      assert Step(m, here) == Run(p + 10 + n, st, stack + [0], S);
      DropYields(m, p + 10 + n, st, stack, 0, S);
      RepeatStop(b, cc, m.x, greedy, st);
    } else {
      assert Step(m, here) == Run(p, st, stack + [count - 1], S);
      CountedPerforms(m, b, cc, greedy, p, n, count - 1, st, stack, S);
    }
    YieldsAfterStep(m, here, p + 11 + n, stack, Repeat(b, cc, m.x, 0, count - 1, greedy, st), S);
  }

  ///// `+` without a test

  lemma PlusUnfold(b: Regex, cc: nat, x: Subject, greedy: bool, st: State)
    requires Valid(b) && !NeedCheck(CodeOf(b, cc)) && st.pos <= |x.units|
    ensures StatesBetween(st.pos + 1, Matches(b, cc, x, st), |x.units|, |st.caps|)
    ensures Repeat(b, cc, x, 1, INT32_MAX, greedy, st) == Optional(b, cc, x, INT32_MAX, greedy, st)
  {
    hide Matches, RepeatEach, CodeOf;
    var ss := Matches(b, cc, x, st);
    PredictableAdvances(b, cc, x, st);
    AllAdvanced(st.pos, ss, |x.units|, |st.caps|);
    RepeatEachLo(b, cc, x, 0, INT32_MAX, greedy, st.pos, st.pos + 1, |st.caps|, ss);
  }

  lemma {:induction false} RepeatEachLo(b: Regex, cc: nat, x: Subject, min: nat, max: nat, greedy: bool, lo: nat,
        lo2: nat, n: nat, ps: seq<State>)
    requires StatesBetween(lo, ps, |x.units|, n) && StatesBetween(lo2, ps, |x.units|, n)
    ensures RepeatEach(b, cc, x, min, max, greedy, lo, n, ps) == RepeatEach(b, cc, x, min, max, greedy, lo2, n, ps)
    decreases |ps|
  {
    hide Repeat;
    if ps != [] { RepeatEachLo(b, cc, x, min, max, greedy, lo, lo2, n, ps[1..]); }
  }

  lemma {:induction false} PlusPerforms(m: Machine, b: Regex, cc: nat, greedy: bool, p: int, n: nat,
                                        st: State, stack: seq<int>, S: seq<Saved>)
    requires Fetch(m.bc, p + n) == ISplit(!greedy, -(n + 5)) && Performs(m, b, cc, p, p + n)
    requires Valid(b) && !NeedCheck(CodeOf(b, cc)) && Good(m, st)
    ensures Yields(m, Run(p, st, stack, S), p + n + 5, stack, Repeat(b, cc, m.x, 1, INT32_MAX, greedy, st), S)
    decreases |m.x.units| - st.pos
  {
    hide Yields, Fetch, Reaches, Matches, Repeat, PairAt, CodeOf, NeedCheck;
    var c, mid, end, ss := Run(p, st, stack, S), p + n, p + n + 5, Matches(b, cc, m.x, st);
    assert Yields(m, c, mid, stack, ss, S);
    PlusUnfold(b, cc, m.x, greedy, st);
    MatchesAligned(b, cc, m.x, st);
    forall k, T | 0 <= k < |ss|
      ensures Yields(m, Run(mid, ss[k], stack, T), end, stack, Repeat(b, cc, m.x, 0, INT32_MAX, greedy, ss[k]), T)
    {
      var U := T + [Saved(SplitPoint, if greedy then end else p, ss[k], stack, 0)];
      PlusPerforms(m, b, cc, greedy, p, n, ss[k], stack, T);
      PlusPerforms(m, b, cc, greedy, p, n, ss[k], stack, U);
      PlusChoice(m, b, cc, greedy, p, n, ss[k], stack, T);
    }
    BindRepeat(m, c, mid, stack, ss, S, b, cc, 0, INT32_MAX, greedy, st.pos, |st.caps|, end, stack);
    RepeatOneOrMore(b, cc, m.x, greedy, st);
  }

  lemma RepeatOneOrMore(b: Regex, cc: nat, x: Subject, greedy: bool, st: State)
    requires st.pos <= |x.units|
    ensures Repeat(b, cc, x, 1, INT32_MAX, greedy, st)
         == RepeatEach(b, cc, x, 0, INT32_MAX, greedy, st.pos, |st.caps|, Matches(b, cc, x, st))
  {
  }

  /** The split behind the atom: once more from `p`, or leave. */
  lemma PlusChoice(m: Machine, b: Regex, cc: nat, greedy: bool, p: int, n: nat, st: State, stack: seq<int>,
        S: seq<Saved>)
    requires Fetch(m.bc, p + n) == ISplit(!greedy, -(n + 5)) && st.pos <= |m.x.units|
    requires Valid(b) && !NeedCheck(CodeOf(b, cc))
    requires var T := S + [Saved(SplitPoint, if greedy then p + n + 5 else p, st, stack, 0)];
      var again := Repeat(b, cc, m.x, 1, INT32_MAX, greedy, st);
      Yields(m, Run(p, st, stack, S), p + n + 5, stack, again, S) &&
      Yields(m, Run(p, st, stack, T), p + n + 5, stack, again, T)
    ensures Yields(m, Run(p + n, st, stack, S), p + n + 5, stack, Repeat(b, cc, m.x, 0, INT32_MAX, greedy, st), S)
  {
    hide Yields, Fetch, Reaches, Matches, Repeat, Optional, CodeOf, NeedCheck;
    var end, again := p + n + 5, Repeat(b, cc, m.x, 1, INT32_MAX, greedy, st);
    PlusUnfold(b, cc, m.x, greedy, st);
    RepeatZero(b, cc, m.x, INT32_MAX, greedy, st);
    var T := S + [Saved(SplitPoint, if greedy then end else p, st, stack, 0)];
    YieldsOne(m, end, stack, st, S);
    YieldsOne(m, end, stack, st, T);
    if greedy {
      SplitYields(m, p + n, false, -(n + 5), st, stack, S, end, stack, again, [st]);
    } else {
      SplitYields(m, p + n, true, -(n + 5), st, stack, S, end, stack, [st], again);
    }
  }
}
