/** A run that offers its results one after the other.  `Yields(m, c, end, stack, L, S)`:
    started in `c`, the machine reaches `end` once for every state of `L`, in that order --
    the next one after the previous one has been given up -- and after the last it fails
    back to the saved states `S`. */
module RegexYields {
  import opened RegexSemantics
  import opened RegexVM

  /** `T` is `S` with choice points, but no lookahead, on top. */
  ghost predicate Extends(S: seq<Saved>, T: seq<Saved>) {
    S <= T && forall k :: |S| <= k < |T| ==> !T[k].kind.LookPoint?
  }

  ghost predicate Yields(m: Machine, c: Config, end: int, stack: seq<int>, L: seq<State>, S: seq<Saved>)
    decreases |L|
  {
    if L == [] then Reaches(m, c, Fail(S))
    else
      exists T ::
        Extends(S, T) && Reaches(m, c, Run(end, L[0], stack, T)) && Yields(m, Fail(T), end, stack, L[1..], S)
  }

  lemma ExtendsTrans(S: seq<Saved>, T: seq<Saved>, U: seq<Saved>)
    requires Extends(S, T) && Extends(T, U)
    ensures Extends(S, U)
  {
  }

  lemma YieldsCons(m: Machine, c: Config, end: int, stack: seq<int>, st: State, T: seq<Saved>, L: seq<State>,
        S: seq<Saved>)
    requires Extends(S, T) && Reaches(m, c, Run(end, st, stack, T)) && Yields(m, Fail(T), end, stack, L, S)
    ensures Yields(m, c, end, stack, [st] + L, S)
  {
    hide Reaches, Extends;
    assert ([st] + L)[1..] == L;
  }

  lemma YieldsAfter(m: Machine, c: Config, d: Config, end: int, stack: seq<int>, L: seq<State>, S: seq<Saved>)
    requires Reaches(m, c, d) && Yields(m, d, end, stack, L, S)
    ensures Yields(m, c, end, stack, L, S)
  {
    if L == [] {
      ReachesTrans(m, c, d, Fail(S));
    } else {
      var T :| Extends(S, T) && Reaches(m, d, Run(end, L[0], stack, T)) && Yields(m, Fail(T), end, stack, L[1..], S);
      ReachesTrans(m, c, d, Run(end, L[0], stack, T));
    }
  }

  lemma YieldsAfterStep(m: Machine, c: Config, end: int, stack: seq<int>, L: seq<State>, S: seq<Saved>)
    requires Yields(m, Step(m, c), end, stack, L, S)
    ensures Yields(m, c, end, stack, L, S)
  {
    ReachesStep(m, c, Step(m, c));
    YieldsAfter(m, c, Step(m, c), end, stack, L, S);
  }

  /** Being at the end is yielding one result. */
  lemma YieldsOne(m: Machine, end: int, stack: seq<int>, st: State, S: seq<Saved>)
    ensures Yields(m, Run(end, st, stack, S), end, stack, [st], S)
  {
    ReachesSelf(m, Run(end, st, stack, S));
    ReachesSelf(m, Fail(S));
    assert Extends(S, S);
    assert Yields(m, Fail(S), end, stack, [], S);
    assert [st][1..] == [];
  }

  lemma YieldsNone(m: Machine, c: Config, end: int, stack: seq<int>, S: seq<Saved>)
    requires Step(m, c) == Fail(S)
    ensures Yields(m, c, end, stack, [], S)
  {
    ReachesStep(m, c, Fail(S));
  }

  /** One alternative, then -- when all its results have been given up -- the next. */
  lemma {:induction false} YieldsAppend(m: Machine, c: Config, end: int, stack: seq<int>,
                                        L: seq<State>, T: seq<Saved>, M: seq<State>, S: seq<Saved>)
    requires Extends(S, T) && Yields(m, c, end, stack, L, T) && Yields(m, Fail(T), end, stack, M, S)
    ensures Yields(m, c, end, stack, L + M, S)
    decreases |L|
  {
    hide Reaches, Extends;
    if L == [] {
      assert L + M == M;
      YieldsAfter(m, c, Fail(T), end, stack, M, S);
    } else {
      var U :| Extends(T, U) && Reaches(m, c, Run(end, L[0], stack, U)) && Yields(m, Fail(U), end, stack, L[1..], T);
      YieldsAppend(m, Fail(U), end, stack, L[1..], T, M, S);
      ExtendsTrans(S, T, U);
      YieldsCons(m, c, end, stack, L[0], U, L[1..] + M, S);
      assert [L[0]] + (L[1..] + M) == L + M;
    }
  }

  /** An opcode `i` at `end` that leads from every result to the end of the next piece. */
  lemma {:induction false} YieldsThrough(m: Machine, c: Config, end: int, stack: seq<int>, L: seq<State>, S: seq<Saved>,
                                         end2: int, stack2: seq<int>)
    requires Yields(m, c, end, stack, L, S)
    requires forall st, T :: st in L ==> Step(m, Run(end, st, stack, T)) == Run(end2, st, stack2, T)
    ensures Yields(m, c, end2, stack2, L, S)
    decreases |L|
  {
    hide Reaches, Extends, Step;
    if L != [] {
      var T :| Extends(S, T) && Reaches(m, c, Run(end, L[0], stack, T)) && Yields(m, Fail(T), end, stack, L[1..], S);
      assert L[0] in L;
      assert forall st :: st in L[1..] ==> st in L;
      YieldsThrough(m, Fail(T), end, stack, L[1..], S, end2, stack2);
      ReachesStep(m, Run(end, L[0], stack, T), Run(end2, L[0], stack2, T));
      ReachesTrans(m, c, Run(end, L[0], stack, T), Run(end2, L[0], stack2, T));
    }
  }
}
