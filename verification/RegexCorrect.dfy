/** The emitted code of every term offers exactly the term's matches, in order. */
module RegexCorrect {
  import opened RegexInput
  import opened RegexSyntax
  import opened RegexSemantics
  import opened RegexCode
  import opened RegexCompile
  import opened RegexVM
  import opened RegexYields
  import opened RegexClass
  import opened RegexAtoms

  ghost predicate Good(m: Machine, st: State) {
    st.pos <= |m.x.units| && Aligned(m.x, st.pos)
  }

  ghost predicate AllGood(m: Machine, ss: seq<State>) {
    forall k :: 0 <= k < |ss| ==> Good(m, ss[k])
  }

  /** From `p`, whatever lies on the stacks, the machine offers at `end` the matches of `r`. */
  ghost predicate Performs(m: Machine, r: Regex, cc: nat, p: int, end: int) {
    forall st, stack, S :: Good(m, st) ==> Yields(m, Run(p, st, stack, S), end, stack, Matches(r, cc, m.x, st), S)
  }

  ///// Sequencing

  /** Every result of the first piece is continued by the second piece, which starts at `mid`. */
  lemma {:induction false} BindMatches(m: Machine, c: Config, mid: int, stack: seq<int>, ps: seq<State>, S: seq<Saved>,
                                       b: Regex, cc: nat, lo: nat, n: nat, end: int)
    requires Yields(m, c, mid, stack, ps, S) && AllGood(m, ps)
    requires StatesBetween(lo, ps, |m.x.units|, n)
    requires Performs(m, b, cc, mid, end)
    ensures Yields(m, c, end, stack, MatchesEach(b, cc, m.x, lo, n, ps), S)
    decreases |ps|
  {
    hide Step, Reaches, Extends, Matches, Aligned;
    if ps != [] {
      var T :| Extends(S, T) && Reaches(m, c, Run(mid, ps[0], stack, T)) && Yields(m, Fail(T), mid, stack, ps[1..], S);
      assert Good(m, ps[0]);
      var first, rest := Matches(b, cc, m.x, ps[0]), MatchesEach(b, cc, m.x, lo, n, ps[1..]);
      assert Yields(m, Run(mid, ps[0], stack, T), end, stack, first, T);
      YieldsAfter(m, c, Run(mid, ps[0], stack, T), end, stack, first, T);
      BindMatches(m, Fail(T), mid, stack, ps[1..], S, b, cc, lo, n, end);
      YieldsAppend(m, c, end, stack, first, T, rest, S);
    }
  }

  /** The same for the remaining iterations of a loop that starts at `mid` with operand stack `stack`. */
  lemma {:induction false} BindRepeat(m: Machine, c: Config, mid: int, stack: seq<int>, ps: seq<State>, S: seq<Saved>,
                                      b: Regex, cc: nat, min: nat, max: nat, greedy: bool, lo: nat, n: nat,
                                      end: int, stack2: seq<int>)
    requires Yields(m, c, mid, stack, ps, S) && StatesBetween(lo, ps, |m.x.units|, n)
    requires forall k, T :: 0 <= k < |ps| ==>
      Yields(m, Run(mid, ps[k], stack, T), end, stack2, Repeat(b, cc, m.x, min, max, greedy, ps[k]), T)
    ensures Yields(m, c, end, stack2, RepeatEach(b, cc, m.x, min, max, greedy, lo, n, ps), S)
    decreases |ps|
  {
    hide Step, Reaches, Extends, Matches, Aligned, Repeat;
    if ps != [] {
      var T :| Extends(S, T) && Reaches(m, c, Run(mid, ps[0], stack, T)) && Yields(m, Fail(T), mid, stack, ps[1..], S);
      var first, rest := Repeat(b, cc, m.x, min, max, greedy, ps[0]),
                         RepeatEach(b, cc, m.x, min, max, greedy, lo, n, ps[1..]);
      assert Yields(m, Run(mid, ps[0], stack, T), end, stack2, first, T);
      YieldsAfter(m, c, Run(mid, ps[0], stack, T), end, stack2, first, T);
      BindRepeat(m, Fail(T), mid, stack, ps[1..], S, b, cc, min, max, greedy, lo, n, end, stack2);
      YieldsAppend(m, c, end, stack2, first, T, rest, S);
    }
  }

  ///// Choice

  function SplitFirst(p: int, nextFirst: bool, off: int): int {
    if nextFirst then p + 5 else p + 5 + off
  }

  /** A split offers the results of its first branch, then those of its second. */
  lemma SplitYields(m: Machine, p: int, nextFirst: bool, off: int, st: State, stack: seq<int>, S: seq<Saved>,
                    end: int, stack2: seq<int>, A: seq<State>, B: seq<State>)
    requires Fetch(m.bc, p) == ISplit(nextFirst, off) && st.pos <= |m.x.units|
    requires Yields(m, Run(SplitFirst(p, nextFirst, off), st, stack,
                           S + [Saved(SplitPoint, SplitFirst(p, !nextFirst, off), st, stack, 0)]), end, stack2, A,
                    S + [Saved(SplitPoint, SplitFirst(p, !nextFirst, off), st, stack, 0)])
    requires Yields(m, Run(SplitFirst(p, !nextFirst, off), st, stack, S), end, stack2, B, S)
    ensures Yields(m, Run(p, st, stack, S), end, stack2, A + B, S)
  {
    hide Yields, Fetch, Reaches;
    var second := SplitFirst(p, !nextFirst, off);
    var T := S + [Saved(SplitPoint, second, st, stack, 0)];
    assert Step(m, Run(p, st, stack, S)) == Run(SplitFirst(p, nextFirst, off), st, stack, T);
    assert T[..|T| - 1] == S;
    assert Step(m, Fail(T)) == Run(second, st, stack, S);
    YieldsAfterStep(m, Fail(T), end, stack2, B, S);
    assert Extends(S, T);
    YieldsAppend(m, Run(SplitFirst(p, nextFirst, off), st, stack, T), end, stack2, A, T, B, S);
    YieldsAfterStep(m, Run(p, st, stack, S), end, stack2, A + B, S);
  }

  lemma CatPerforms(m: Machine, a: Regex, b: Regex, cc: nat, p: int, mid: int, end: int)
    requires Performs(m, a, cc, p, mid) && Performs(m, b, cc + Captures(a), mid, end)
    ensures Performs(m, Cat(a, b), cc, p, end)
  {
    hide Yields, Matches, PairAt;
    forall st, stack, S | Good(m, st)
      ensures Yields(m, Run(p, st, stack, S), end, stack, Matches(Cat(a, b), cc, m.x, st), S)
    {
      MatchesCat(a, b, cc, m.x, st);
      MatchesAligned(a, cc, m.x, st);
      BindMatches(m, Run(p, st, stack, S), mid, stack, Matches(a, cc, m.x, st), S, b, cc + Captures(a), st.pos,
        |st.caps|, end);
    }
  }

  lemma AltPerforms(m: Machine, a: Regex, b: Regex, cc: nat, p: int, na: nat, nb: nat)
    requires Fetch(m.bc, p) == ISplit(true, na + 5) && Fetch(m.bc, p + 5 + na) == IGoto(nb)
    requires Performs(m, a, cc, p + 5, p + 5 + na)
    requires Performs(m, b, cc + Captures(a), p + 10 + na, p + 10 + na + nb)
    ensures Performs(m, Alt(a, b), cc, p, p + 10 + na + nb)
  {
    hide Fetch, Yields, Reaches, Matches, PairAt;
    var end := p + 10 + na + nb;
    forall st, stack, S | Good(m, st)
      ensures Yields(m, Run(p, st, stack, S), end, stack, Matches(Alt(a, b), cc, m.x, st), S)
    {
      MatchesAlt(a, b, cc, m.x, st);
      var A, B := Matches(a, cc, m.x, st), Matches(b, cc + Captures(a), m.x, st);
      var T := S + [Saved(SplitPoint, p + 10 + na, st, stack, 0)];
      assert SplitFirst(p, true, na + 5) == p + 5 && SplitFirst(p, false, na + 5) == p + 10 + na;
      assert Yields(m, Run(p + 5, st, stack, T), p + 5 + na, stack, A, T);
      YieldsThrough(m, Run(p + 5, st, stack, T), p + 5 + na, stack, A, T, end, stack);
      SplitYields(m, p, true, na + 5, st, stack, S, end, stack, A, B);
    }
  }

  lemma CapturePerforms(m: Machine, b: Regex, cc: nat, p: int, n: nat)
    requires Fetch(m.bc, p) == ISave(false, cc) && Fetch(m.bc, p + 2 + n) == ISave(true, cc) && cc < m.captureCount
    requires Performs(m, b, cc + 1, p + 2, p + 2 + n)
    ensures Performs(m, Capture(b), cc, p, p + 4 + n)
  {
    hide Fetch, Yields, Reaches;
    forall st, stack, S | Good(m, st)
      ensures Yields(m, Run(p, st, stack, S), p + 4 + n, stack, Matches(Capture(b), cc, m.x, st), S)
    {
      var started := State(st.pos, SetCapture(st.caps, 2 * cc, Some(st.pos)));
      var ss := Matches(b, cc + 1, m.x, started);
      assert Yields(m, Run(p + 2, started, stack, S), p + 2 + n, stack, ss, S);
      CloseYields(m, Run(p + 2, started, stack, S), p + 2 + n, stack, ss, S, cc, st.pos, |st.caps|);
      assert Step(m, Run(p, st, stack, S)) == Run(p + 2, started, stack, S);
      YieldsAfterStep(m, Run(p, st, stack, S), p + 4 + n, stack, Matches(Capture(b), cc, m.x, st), S);
    }
  }

  lemma {:induction false} CloseYields(m: Machine, c: Config, end: int, stack: seq<int>, ss: seq<State>, S: seq<Saved>,
                                       cc: nat, lo: nat, n: nat)
    requires Yields(m, c, end, stack, ss, S) && StatesBetween(lo, ss, |m.x.units|, n)
    requires Fetch(m.bc, end) == ISave(true, cc) && cc < m.captureCount
    ensures Yields(m, c, end + 2, stack, CloseEach(cc, ss, lo, |m.x.units|, n), S)
    decreases |ss|
  {
    hide Fetch, Reaches, Extends;
    if ss != [] {
      var T :| Extends(S, T) && Reaches(m, c, Run(end, ss[0], stack, T)) && Yields(m, Fail(T), end, stack, ss[1..], S);
      CloseYields(m, Fail(T), end, stack, ss[1..], S, cc, lo, n);
      var closed := State(ss[0].pos, SetCapture(ss[0].caps, 2 * cc + 1, Some(ss[0].pos)));
      ReachesStep(m, Run(end, ss[0], stack, T), Run(end + 2, closed, stack, T));
      ReachesTrans(m, c, Run(end, ss[0], stack, T), Run(end + 2, closed, stack, T));
      YieldsCons(m, c, end + 2, stack, closed, T, CloseEach(cc, ss[1..], lo, |m.x.units|, n), S);
    }
  }

  ///// Lookahead

  /** After a `match` the choice points of the lookahead's body are discarded. */
  lemma {:induction false} SucceedCuts(m: Machine, caps: seq<Option<nat>>, S: seq<Saved>, T: seq<Saved>)
    requires Extends(S, T)
    ensures Reaches(m, Succeed(caps, T), Succeed(caps, S))
    decreases |T|
  {
    hide Reaches;
    if |T| == |S| {
      assert S == T;
      ReachesSelf(m, Succeed(caps, S));
    } else {
      var U := T[..|T| - 1];
      SucceedCuts(m, caps, S, U);
      ReachesStep(m, Succeed(caps, T), Succeed(caps, U));
      ReachesTrans(m, Succeed(caps, T), Succeed(caps, U), Succeed(caps, S));
    }
  }

  lemma LookPerforms(m: Machine, negated: bool, b: Regex, cc: nat, p: int, n: nat)
    requires Fetch(m.bc, p) == ILook(negated, n + 1) && Fetch(m.bc, p + 5 + n) == IMatch
    requires Performs(m, b, cc, p + 5, p + 5 + n)
    ensures Performs(m, Look(negated, b), cc, p, p + 6 + n)
  {
    hide Fetch;
    forall st, stack, S | Good(m, st)
      ensures Yields(m, Run(p, st, stack, S), p + 6 + n, stack, Matches(Look(negated, b), cc, m.x, st), S)
    {
      LookYields(m, negated, b, cc, p, n, st, stack, S);
    }
  }

  lemma LookYields(m: Machine, negated: bool, b: Regex, cc: nat, p: int, n: nat, st: State, stack: seq<int>,
        S: seq<Saved>)
    requires Fetch(m.bc, p) == ILook(negated, n + 1) && Fetch(m.bc, p + 5 + n) == IMatch
    requires Performs(m, b, cc, p + 5, p + 5 + n) && Good(m, st)
    ensures Yields(m, Run(p, st, stack, S), p + 6 + n, stack, Matches(Look(negated, b), cc, m.x, st), S)
  {
    hide Fetch, Reaches, Matches, Extends, PairAt;
    MatchesLook(negated, b, cc, m.x, st);
    var end, L := p + 6 + n, Matches(b, cc, m.x, st);
    var c, T := Run(p, st, stack, S), S + [Saved(LookPoint(negated), end, st, stack, 0)];
    var c1 := Run(p + 5, st, stack, T);
    assert Yields(m, c1, p + 5 + n, stack, L, T);
    assert Step(m, c) == c1;
    assert T[..|T| - 1] == S;
    ReachesStep(m, c, c1);
    if L == [] {
      ReachesTrans(m, c, c1, Fail(T));
      LookFails(m, negated, end, st, stack, S, c, T);
    } else {
      var U :| Extends(T, U) && Reaches(m, c1, Run(p + 5 + n, L[0], stack, U));
      ReachesStep(m, Run(p + 5 + n, L[0], stack, U), Succeed(L[0].caps, U));
      SucceedCuts(m, L[0].caps, T, U);
      ReachesTrans(m, c, c1, Run(p + 5 + n, L[0], stack, U));
      ReachesTrans(m, c, Run(p + 5 + n, L[0], stack, U), Succeed(L[0].caps, U));
      ReachesTrans(m, c, Succeed(L[0].caps, U), Succeed(L[0].caps, T));
      LookSucceeds(m, negated, end, st, stack, S, c, T, L[0].caps);
    }
  }

  lemma LookFails(m: Machine, negated: bool, end: int, st: State, stack: seq<int>, S: seq<Saved>, c: Config,
        T: seq<Saved>)
    requires T == S + [Saved(LookPoint(negated), end, st, stack, 0)] && Reaches(m, c, Fail(T))
    ensures Yields(m, c, end, stack, if negated then [st] else [], S)
  {
    hide Reaches, Fetch, Yields;
    assert T[..|T| - 1] == S;
    if negated {
      assert Step(m, Fail(T)) == Run(end, st, stack, S);
      YieldsOne(m, end, stack, st, S);
      YieldsAfterStep(m, Fail(T), end, stack, [st], S);
      YieldsAfter(m, c, Fail(T), end, stack, [st], S);
    } else {
      YieldsNone(m, Fail(T), end, stack, S);
      YieldsAfter(m, c, Fail(T), end, stack, [], S);
    }
  }

  lemma LookSucceeds(m: Machine, negated: bool, end: int, st: State, stack: seq<int>, S: seq<Saved>, c: Config,
        T: seq<Saved>, caps: seq<Option<nat>>)
    requires T == S + [Saved(LookPoint(negated), end, st, stack, 0)] && Reaches(m, c, Succeed(caps, T))
    ensures Yields(m, c, end, stack, if negated then [] else [State(st.pos, caps)], S)
  {
    hide Reaches, Fetch, Yields;
    assert T[..|T| - 1] == S;
    var d := Succeed(caps, T);
    if negated {
      YieldsNone(m, d, end, stack, S);
      YieldsAfter(m, c, d, end, stack, [], S);
    } else {
      var after := State(st.pos, caps);
      assert Step(m, d) == Run(end, after, stack, S);
      YieldsOne(m, end, stack, after, S);
      YieldsAfterStep(m, d, end, stack, [after], S);
      YieldsAfter(m, c, d, end, stack, [after], S);
    }
  }

  lemma AtomPerforms(m: Machine, r: Regex, cc: nat, p: int, i: Instr)
    requires Valid(r) && (IsCharTerm(r) || IsAssertion(r)) && CodeOf(r, cc) == [i] && Fetch(m.bc, p) == i
    ensures Performs(m, r, cc, p, p + Size(i))
  {
    hide Fetch, Reaches, Yields, AtomEnd, OpEnd, Matches, CodeOf;
    forall st, stack, S | Good(m, st)
      ensures Yields(m, Run(p, st, stack, S), p + Size(i), stack, Matches(r, cc, m.x, st), S)
    {
      CodeOfAtom(r, cc);
      AtomOpAgrees(r, i, m.x, st.pos);
      AtomMatches(r, cc, m.x, st);
      var e := OpEnd(i, m.x, st.pos);
      if e.None? {
        YieldsNone(m, Run(p, st, stack, S), p + Size(i), stack, S);
      } else {
        var after := State(e.value, st.caps);
        YieldsOne(m, p + Size(i), stack, after, S);
        assert Step(m, Run(p, st, stack, S)) == Run(p + Size(i), after, stack, S);
        YieldsAfterStep(m, Run(p, st, stack, S), p + Size(i), stack, [after], S);
      }
    }
  }

  lemma CodeOfAtom(r: Regex, cc: nat)
    requires Valid(r) && (IsCharTerm(r) || IsAssertion(r))
    ensures CodeOf(r, cc) == CodeOf(r, 0)
  {
  }
}
