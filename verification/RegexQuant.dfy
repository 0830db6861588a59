/** The code of a quantifier as a whole. */
module RegexQuant {
  import opened RegexInput
  import opened RegexSyntax
  import opened RegexSemantics
  import opened RegexCode
  import opened RegexCompile
  import opened RegexVM
  import opened RegexYields
  import opened RegexAtoms
  import opened RegexCorrect
  import opened RegexLoops

  /** From `p` the machine offers at `end` what RepeatMatcher asks for. */
  ghost predicate Repeats(m: Machine, b: Regex, cc: nat, min: nat, max: nat, greedy: bool, p: int, end: int) {
    forall st, stack: seq<int>, S :: Good(m, st) ==>
      Yields(m, Run(p, st, stack, S), end, stack, Repeat(b, cc, m.x, min, max, greedy, st), S)
  }

  ///// Exactly `k` iterations

  function Times(b: Regex, cc: nat, x: Subject, k: nat, st: State): (ss: seq<State>)
    requires st.pos <= |x.units|
    ensures StatesBetween(st.pos, ss, |x.units|, |st.caps|)
    decreases k, 0
  {
    if k == 0 then [st] else TimesEach(b, cc, x, k - 1, st.pos, |st.caps|, Matches(b, cc, x, st))
  }

  function TimesEach(b: Regex, cc: nat, x: Subject, k: nat, lo: nat, ghost n: nat, ps: seq<State>): (ss: seq<State>)
    requires StatesBetween(lo, ps, |x.units|, n)
    ensures StatesBetween(lo, ss, |x.units|, n)
    decreases k, 1 + |ps|
  {
    if ps == [] then [] else Times(b, cc, x, k, ps[0]) + TimesEach(b, cc, x, k, lo, n, ps[1..])
  }

  lemma {:induction false} TimesEachZero(b: Regex, cc: nat, x: Subject, lo: nat, n: nat, ps: seq<State>)
    requires StatesBetween(lo, ps, |x.units|, n)
    ensures TimesEach(b, cc, x, 0, lo, n, ps) == ps
    decreases |ps|
  {
    if ps != [] { TimesEachZero(b, cc, x, lo, n, ps[1..]); }
  }

  lemma {:induction false} TimesAligned(b: Regex, cc: nat, x: Subject, k: nat, st: State)
    requires st.pos <= |x.units| && Aligned(x, st.pos)
    ensures AllAligned(x, Times(b, cc, x, k, st))
    decreases k, 0
  {
    hide Matches, PairAt;
    if k > 0 {
      MatchesAligned(b, cc, x, st);
      TimesEachAligned(b, cc, x, k - 1, st.pos, |st.caps|, Matches(b, cc, x, st));
    }
  }

  lemma {:induction false} TimesEachAligned(b: Regex, cc: nat, x: Subject, k: nat, lo: nat, n: nat, ps: seq<State>)
    requires StatesBetween(lo, ps, |x.units|, n) && AllAligned(x, ps)
    ensures AllAligned(x, TimesEach(b, cc, x, k, lo, n, ps))
    decreases k, 1 + |ps|
  {
    hide PairAt;
    if ps != [] {
      TimesAligned(b, cc, x, k, ps[0]);
      TimesEachAligned(b, cc, x, k, lo, n, ps[1..]);
    }
  }

  function Beyond(max: nat, min: nat): nat
    requires min <= max
  {
    if max == INT32_MAX then INT32_MAX else max - min
  }

  /** RepeatMatcher is `min` mandatory iterations followed by optional ones. */
  lemma {:induction false} RepeatIsTimesThen(b: Regex, cc: nat, x: Subject, min: nat, max: nat, greedy: bool, st: State)
    requires st.pos <= |x.units| && min <= max <= INT32_MAX
    ensures Repeat(b, cc, x, min, max, greedy, st)
         == RepeatEach(b, cc, x, 0, Beyond(max, min), greedy, st.pos, |st.caps|, Times(b, cc, x, min, st))
    decreases min, 0
  {
    hide Matches;
    if min == 0 {
      var rest := RepeatEach(b, cc, x, 0, Beyond(max, 0), greedy, st.pos, |st.caps|, [st][1..]);
      assert rest == [];
    } else {
      RepeatEachIsTimesThen(b, cc, x, min - 1, Lower(max), greedy, st.pos, |st.caps|, Matches(b, cc, x, st));
    }
  }

  lemma {:induction false} RepeatEachIsTimesThen(b: Regex, cc: nat, x: Subject, min: nat, max: nat, greedy: bool,
                                                 lo: nat, n: nat, ps: seq<State>)
    requires StatesBetween(lo, ps, |x.units|, n) && min <= max <= INT32_MAX
    ensures RepeatEach(b, cc, x, min, max, greedy, lo, n, ps)
         == RepeatEach(b, cc, x, 0, Beyond(max, min), greedy, lo, n, TimesEach(b, cc, x, min, lo, n, ps))
    decreases min, 1 + |ps|
  {
    hide Repeat, Times;
    if ps != [] {
      var p := ps[0];
      var first, rest := Times(b, cc, x, min, p), TimesEach(b, cc, x, min, lo, n, ps[1..]);
      RepeatIsTimesThen(b, cc, x, min, max, greedy, p);
      RepeatEachLo(b, cc, x, 0, Beyond(max, min), greedy, p.pos, lo, n, first);
      RepeatEachIsTimesThen(b, cc, x, min, max, greedy, lo, n, ps[1..]);
      RepeatEachAppend(b, cc, x, 0, Beyond(max, min), greedy, lo, n, first, rest);
    }
  }

  lemma {:induction false} RepeatEachAppend(b: Regex, cc: nat, x: Subject, min: nat, max: nat, greedy: bool,
                                            lo: nat, n: nat, ps: seq<State>, qs: seq<State>)
    requires StatesBetween(lo, ps, |x.units|, n) && StatesBetween(lo, qs, |x.units|, n)
    ensures RepeatEach(b, cc, x, min, max, greedy, lo, n, ps + qs)
         == RepeatEach(b, cc, x, min, max, greedy, lo, n, ps) + RepeatEach(b, cc, x, min, max, greedy, lo, n, qs)
    decreases |ps|
  {
    hide Repeat;
    if ps == [] {
      assert ps + qs == qs;
    } else {
      assert (ps + qs)[1..] == ps[1..] + qs;
      RepeatEachAppend(b, cc, x, min, max, greedy, lo, n, ps[1..], qs);
      var f, g, h := Repeat(b, cc, x, min, max, greedy, ps[0]), RepeatEach(b, cc, x, min, max, greedy, lo, n, ps[1..]),
                     RepeatEach(b, cc, x, min, max, greedy, lo, n, qs);
      assert f + (g + h) == (f + g) + h;
    }
  }

  ///// The counting loop around the mandatory iterations

  ghost predicate TimesLoop(m: Machine, b: Regex, cc: nat, p: int, n: nat) {
    Performs(m, b, cc, p, p + n) && Fetch(m.bc, p + n) == ILoop(-(n + 5)) && Fetch(m.bc, p + n + 5) == IDrop
  }

  lemma {:induction false} TimesPerforms(m: Machine, b: Regex, cc: nat, p: int, n: nat, k: nat,
                                         st: State, stack: seq<int>, S: seq<Saved>)
    requires TimesLoop(m, b, cc, p, n) && Good(m, st) && k > 0
    ensures Yields(m, Run(p, st, stack + [k], S), p + n + 6, stack, Times(b, cc, m.x, k, st), S)
    decreases k, 0
  {
    hide Yields, Fetch, Reaches, Matches, PairAt;
    var ss := Matches(b, cc, m.x, st);
    MatchesAligned(b, cc, m.x, st);
    var c, mid, stack2 := Run(p, st, stack + [k], S), p + n, stack + [k];
    assert Yields(m, c, mid, stack2, ss, S);
    TimesBind(m, b, cc, p, n, k, c, ss, st.pos, |st.caps|, stack, S);
  }

  lemma {:induction false} TimesBind(m: Machine, b: Regex, cc: nat, p: int, n: nat, k: nat, c: Config,
                                     ps: seq<State>, lo: nat, caps: nat, stack: seq<int>, S: seq<Saved>)
    requires TimesLoop(m, b, cc, p, n) && AllGood(m, ps) && StatesBetween(lo, ps, |m.x.units|, caps) && k > 0
    requires Yields(m, c, p + n, stack + [k], ps, S)
    ensures Yields(m, c, p + n + 6, stack, TimesEach(b, cc, m.x, k - 1, lo, caps, ps), S)
    decreases k - 1, 2 + |ps|
  {
    hide Step, Reaches, Extends, Matches, Aligned, Times, Fetch;
    if ps != [] {
      var mid, stack2, end := p + n, stack + [k], p + n + 6;
      var T :| Extends(S, T) && Reaches(m, c, Run(mid, ps[0], stack2, T)) &&
        Yields(m, Fail(T), mid, stack2, ps[1..], S);
      assert Good(m, ps[0]);
      var first, rest := Times(b, cc, m.x, k - 1, ps[0]), TimesEach(b, cc, m.x, k - 1, lo, caps, ps[1..]);
      TimesNext(m, b, cc, p, n, k, ps[0], stack, T);
      YieldsAfter(m, c, Run(mid, ps[0], stack2, T), end, stack, first, T);
      TimesBind(m, b, cc, p, n, k, Fail(T), ps[1..], lo, caps, stack, S);
      YieldsAppend(m, c, end, stack, first, T, rest, S);
    }
  }

  lemma {:induction false} TimesNext(m: Machine, b: Regex, cc: nat, p: int, n: nat, k: nat,
                                     st: State, stack: seq<int>, S: seq<Saved>)
    requires TimesLoop(m, b, cc, p, n) && Good(m, st) && k > 0
    ensures Yields(m, Run(p + n, st, stack + [k], S), p + n + 6, stack, Times(b, cc, m.x, k - 1, st), S)
    decreases k - 1, 1
  {
    hide Yields, Fetch, Reaches, Matches, PairAt, Performs;
    var here := Run(p + n, st, stack + [k], S);
    assert (stack + [k])[..|stack + [k]| - 1] == stack;
    if k == 1 {
      assert Step(m, here) == Run(p + n + 5, st, stack + [0], S);
      DropYields(m, p + n + 5, st, stack, 0, S);
    } else {
      assert Step(m, here) == Run(p, st, stack + [k - 1], S);
      TimesPerforms(m, b, cc, p, n, k - 1, st, stack, S);
    }
    YieldsAfterStep(m, here, p + n + 6, stack, Times(b, cc, m.x, k - 1, st), S);
  }

  ///// The pieces as `Repeats`

  lemma StarRepeats(m: Machine, b: Regex, cc: nat, greedy: bool, p: int, n: nat)
    requires Fetch(m.bc, p) == ISplit(greedy, n + 5) && Fetch(m.bc, p + 5 + n) == IGoto(-(n + 10))
    requires Iterates(m, b, cc, p + 5, p + 5 + n)
    ensures Repeats(m, b, cc, 0, INT32_MAX, greedy, p, p + 10 + n)
  {
    hide Yields, Fetch, Reaches, Matches, Repeat, PairAt, Iterates;
    var end := p + 10 + n;
    forall st, stack: seq<int>, S | Good(m, st)
      ensures Yields(m, Run(p, st, stack, S), end, stack, Repeat(b, cc, m.x, 0, INT32_MAX, greedy, st), S)
    {
      StarPerforms(m, b, cc, greedy, p, n, st, stack, S);
    }
  }

  lemma OptionRepeats(m: Machine, b: Regex, cc: nat, greedy: bool, p: int, n: nat)
    requires Fetch(m.bc, p) == ISplit(greedy, n) && Iterates(m, b, cc, p + 5, p + 5 + n)
    ensures Repeats(m, b, cc, 0, 1, greedy, p, p + 5 + n)
  {
    hide Yields, Fetch, Reaches, Matches, Repeat, PairAt, Iterates;
    var end := p + 5 + n;
    forall st, stack: seq<int>, S | Good(m, st)
      ensures Yields(m, Run(p, st, stack, S), end, stack, Repeat(b, cc, m.x, 0, 1, greedy, st), S)
    {
      OptionPerforms(m, b, cc, greedy, p, n, st, stack, S);
    }
  }

  lemma CountedRepeats(m: Machine, b: Regex, cc: nat, greedy: bool, p: int, n: nat, count: nat)
    requires Fetch(m.bc, p) == IPushI32(count) && CountedLoop(m, b, cc, greedy, p + 5, n) && 0 < count < INT32_MAX
    ensures Repeats(m, b, cc, 0, count, greedy, p, p + 16 + n)
  {
    hide Yields, Fetch, Reaches, Matches, Repeat, PairAt, CountedLoop;
    var end := p + 16 + n;
    forall st, stack: seq<int>, S | Good(m, st)
      ensures Yields(m, Run(p, st, stack, S), end, stack, Repeat(b, cc, m.x, 0, count, greedy, st), S)
    {
      CountedPerforms(m, b, cc, greedy, p + 5, n, count, st, stack, S);
      assert Step(m, Run(p, st, stack, S)) == Run(p + 5, st, stack + [count], S);
      YieldsAfterStep(m, Run(p, st, stack, S), end, stack, Repeat(b, cc, m.x, 0, count, greedy, st), S);
    }
  }

  lemma PlusRepeats(m: Machine, b: Regex, cc: nat, greedy: bool, p: int, n: nat)
    requires Fetch(m.bc, p + n) == ISplit(!greedy, -(n + 5)) && Performs(m, b, cc, p, p + n)
    requires Valid(b) && !NeedCheck(CodeOf(b, cc))
    ensures Repeats(m, b, cc, 1, INT32_MAX, greedy, p, p + n + 5)
  {
    hide Yields, Fetch, Reaches, Matches, Repeat, PairAt, Performs, CodeOf, NeedCheck;
    var end := p + n + 5;
    forall st, stack: seq<int>, S | Good(m, st)
      ensures Yields(m, Run(p, st, stack, S), end, stack, Repeat(b, cc, m.x, 1, INT32_MAX, greedy, st), S)
    {
      PlusPerforms(m, b, cc, greedy, p, n, st, stack, S);
    }
  }

  lemma NothingRepeats(m: Machine, b: Regex, cc: nat, greedy: bool, p: int)
    ensures Repeats(m, b, cc, 0, 0, greedy, p, p)
  {
    hide Yields, Fetch, Reaches, Matches, Repeat, PairAt;
    forall st, stack: seq<int>, S | Good(m, st)
      ensures Yields(m, Run(p, st, stack, S), p, stack, Repeat(b, cc, m.x, 0, 0, greedy, st), S)
    {
      RepeatStop(b, cc, m.x, greedy, st);
      YieldsOne(m, p, stack, st, S);
    }
  }

  /** The code in front of the optional iterations runs the atom exactly `min` times. */
  ghost predicate Counts(m: Machine, b: Regex, cc: nat, min: nat, p: int, end: int) {
    forall st, stack: seq<int>, S :: Good(m, st) ==>
      Yields(m, Run(p, st, stack, S), end, stack, Times(b, cc, m.x, min, st), S)
  }

  lemma OnceCounts(m: Machine, b: Regex, cc: nat, p: int, end: int)
    requires Performs(m, b, cc, p, end)
    ensures Counts(m, b, cc, 1, p, end)
  {
    hide Yields, Fetch, Reaches, Matches, PairAt;
    forall st, stack: seq<int>, S | Good(m, st)
      ensures Yields(m, Run(p, st, stack, S), end, stack, Times(b, cc, m.x, 1, st), S)
    {
      TimesEachZero(b, cc, m.x, st.pos, |st.caps|, Matches(b, cc, m.x, st));
    }
  }

  lemma LoopCounts(m: Machine, b: Regex, cc: nat, min: nat, p: int, n: nat)
    requires Fetch(m.bc, p) == IPushI32(min) && TimesLoop(m, b, cc, p + 5, n) && min > 0
    ensures Counts(m, b, cc, min, p, p + n + 11)
  {
    hide Yields, Fetch, Reaches, Matches, PairAt, TimesLoop, Times;
    var end := p + n + 11;
    forall st, stack: seq<int>, S | Good(m, st)
      ensures Yields(m, Run(p, st, stack, S), end, stack, Times(b, cc, m.x, min, st), S)
    {
      TimesPerforms(m, b, cc, p + 5, n, min, st, stack, S);
      assert Step(m, Run(p, st, stack, S)) == Run(p + 5, st, stack + [min], S);
      YieldsAfterStep(m, Run(p, st, stack, S), end, stack, Times(b, cc, m.x, min, st), S);
    }
  }

  lemma CountsThenRepeats(m: Machine, b: Regex, cc: nat, min: nat, max: nat, greedy: bool, p: int, mid: int, end: int)
    requires min <= max <= INT32_MAX
    requires Counts(m, b, cc, min, p, mid) && Repeats(m, b, cc, 0, Beyond(max, min), greedy, mid, end)
    ensures Repeats(m, b, cc, min, max, greedy, p, end)
  {
    hide Yields, Fetch, Reaches, Matches, PairAt, Times, Repeat, Beyond;
    forall st, stack: seq<int>, S | Good(m, st)
      ensures Yields(m, Run(p, st, stack, S), end, stack, Repeat(b, cc, m.x, min, max, greedy, st), S)
    {
      var ss := Times(b, cc, m.x, min, st);
      TimesAligned(b, cc, m.x, min, st);
      assert Yields(m, Run(p, st, stack, S), mid, stack, ss, S);
      forall k, T | 0 <= k < |ss|
        ensures var offered := Repeat(b, cc, m.x, 0, Beyond(max, min), greedy, ss[k]);
          Yields(m, Run(mid, ss[k], stack, T), end, stack, offered, T)
      {
        assert Good(m, ss[k]);
      }
      BindRepeat(m, Run(p, st, stack, S), mid, stack, ss, S, b, cc, 0, Beyond(max, min), greedy, st.pos, |st.caps|, end,
        stack);
      RepeatIsTimesThen(b, cc, m.x, min, max, greedy, st);
    }
  }
}
