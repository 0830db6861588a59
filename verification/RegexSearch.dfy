/** Running a compiled program finds the leftmost start with the highest-priority end. */
module RegexSearch {
  import opened RegexInput
  import opened RegexSyntax
  import opened RegexSemantics
  import opened RegexCaptures
  import opened RegexGroups
  import opened RegexCode
  import opened RegexCompile
  import opened RegexVM
  import opened RegexYields
  import opened RegexCorrect
  import opened RegexProgram

  datatype Span = Span(start: nat, end: nat)

  /** Where the character starts that the unit at `i` is taken from: the pair, when `i` is inside one. */
  function CharStart(x: Subject, i: nat): (j: nat)
    ensures j <= i && (Aligned(x, i) ==> j == i)
  {
    if PairAt(x, i - 1) then i - 1 else i
  }

  /** RegExpBuiltinExec (section 22.2.7.2): the first index from `i` on where `r` matches, with the end the matcher
      prefers. The matcher starts at the character of the index; what is reported is the index, so that the end of an
      empty match from inside a pair lies before it. */
  function Search(r: Regex, x: Subject, i: nat, sticky: bool): (span: Option<Span>)
    requires i <= |x.units|
    ensures span.Some? ==> i <= span.value.start <= |x.units|
    ensures span.Some? ==> CharStart(x, span.value.start) <= span.value.end <= |x.units|
    decreases |x.units| - i
  {
    var es := Ends(r, x, CharStart(x, i));
    if es != [] then Some(Span(i, es[0]))
    else if sticky || i == |x.units| then None
    else Search(r, x, NextPos(x, i), sticky)
  }

  ///// The list of all matches of a program

  function ProgramState(i: nat, caps: seq<Option<nat>>): State {
    State(i, SetCapture(caps, 0, Some(i)))
  }

  function MatchesAt(r: Regex, x: Subject, i: nat, caps: seq<Option<nat>>): (ss: seq<State>)
    requires i <= |x.units|
    ensures StatesBetween(i, ss, |x.units|, |caps|)
  {
    CloseEach(0, Matches(r, 1, x, ProgramState(i, caps)), i, |x.units|, |caps|)
  }

  function AllMatches(r: Regex, x: Subject, i: nat, caps: seq<Option<nat>>, sticky: bool): (ss: seq<State>)
    requires i <= |x.units|
    ensures StatesBetween(i, ss, |x.units|, |caps|)
    decreases |x.units| - i
  {
    MatchesAt(r, x, i, caps) +
    if sticky || i == |x.units| then [] else AllMatches(r, x, NextPos(x, i), caps, sticky)
  }

  lemma CloseEmpty(ss: seq<State>, lo: nat, hi: nat, n: nat)
    requires StatesBetween(lo, ss, hi, n)
    ensures CloseEach(0, ss, lo, hi, n) == [] <==> ss == []
    ensures ss != [] ==>
      CloseEach(0, ss, lo, hi, n)[0] == State(ss[0].pos, SetCapture(ss[0].caps, 1, Some(ss[0].pos)))
  {
  }

  /** What the array of captures must be after a run that found `span`: the bounds of the match, a start and an end in
      order for every group or neither, and the groups of ECMA-262. */
  ghost predicate Reports(caps: seq<Option<nat>>, span: Span, r: Regex, x: Subject) {
    |caps| == 2 * (1 + Captures(r))
    && caps[0] == Some(span.start) && caps[1] == Some(span.end)
    && (forall g: nat :: g <= Captures(r) ==> WellPaired(caps, g))
    && (Valid(r) ==> HasGroups(caps, span, r, x))
  }

  /** The bounds of every group in the result that ECMA-262 prefers, and no other bounds when what is repeated records
      all its groups each time. */
  ghost predicate HasGroups(caps: seq<Option<nat>>, span: Span, r: Regex, x: Subject) {
    span.start <= |x.units| &&
    var fs := Results(r, 1, x, MatchState(span.start, map[]));
    fs != [] && fs[0].end == span.end &&
    var groups := fs[0].groups[0 := (span.start, span.end)];
    forall g: nat :: g <= Captures(r) && (g in groups || LoopsRecord(r)) ==> PairIs(caps, groups, g)
  }

  /** The first of all matches is the one `Search` describes. */
  lemma {:induction false} FirstOfAll(r: Regex, x: Subject, i: nat, caps: seq<Option<nat>>, sticky: bool)
    requires i <= |x.units| && Aligned(x, i) && |caps| == 2 * (1 + Captures(r))
    requires forall k :: 0 <= k < |caps| ==> caps[k] == None
    ensures var all, found := AllMatches(r, x, i, caps, sticky), Search(r, x, i, sticky);
      (all == [] <==> found == None) &&
      (all != [] ==> Reports(all[0].caps, found.value, r, x))
    decreases |x.units| - i
  {
    hide Matches, PairAt, Reports, Ends, MatchesAt, Search, AllMatches;
    var here := MatchesAt(r, x, i, caps);
    FirstHere(r, x, i, caps);
    SearchStep(r, x, i, sticky);
    AllMatchesStep(r, x, i, caps, sticky);
    if here == [] && !(sticky || i == |x.units|) {
      NextIsAligned(x, i);
      FirstOfAll(r, x, NextPos(x, i), caps, sticky);
    }
  }

  lemma SearchStep(r: Regex, x: Subject, i: nat, sticky: bool)
    requires i <= |x.units| && Aligned(x, i)
    ensures var es := Ends(r, x, i);
      Search(r, x, i, sticky) ==
      if es != [] then Some(Span(i, es[0]))
      else if sticky || i == |x.units| then None
      else Search(r, x, NextPos(x, i), sticky)
  {
    hide Ends;
  }

  lemma AllMatchesStep(r: Regex, x: Subject, i: nat, caps: seq<Option<nat>>, sticky: bool)
    requires i <= |x.units|
    ensures var here, all := MatchesAt(r, x, i, caps), AllMatches(r, x, i, caps, sticky);
      if here != [] then all != [] && all[0] == here[0]
      else if sticky || i == |x.units| then all == []
      else all == AllMatches(r, x, NextPos(x, i), caps, sticky)
  {
    hide MatchesAt;
  }

  lemma AllMatchesSticky(r: Regex, x: Subject, i: nat, caps: seq<Option<nat>>)
    requires i <= |x.units|
    ensures AllMatches(r, x, i, caps, true) == MatchesAt(r, x, i, caps)
  {
    hide MatchesAt;
  }

  lemma FirstHere(r: Regex, x: Subject, i: nat, caps: seq<Option<nat>>)
    requires i <= |x.units| && |caps| == 2 * (1 + Captures(r))
    requires forall k :: 0 <= k < |caps| ==> caps[k] == None
    ensures var here, es := MatchesAt(r, x, i, caps), Ends(r, x, i);
      (here == [] <==> es == []) && (here != [] ==> Reports(here[0].caps, Span(i, es[0]), r, x))
  {
    hide Matches, PairAt, Recorded, Ends, Reports, CloseEach, LoopsRecord, HasGroups, SetCapture;
    var st := ProgramState(i, caps);
    var ss := Matches(r, 1, x, st);
    MatchesPositions(r, 1, x, st);
    CloseEmpty(ss, i, |x.units|, |caps|);
    if ss != [] {
      MatchesRecord(r, 1, x, st);
      if Valid(r) {
        GroupsFirst(r, x, i, caps, ss);
      }
      ReportsFirst(r, x, i, caps, st, ss[0]);
      PositionsHead(ss);
    }
  }

  lemma GroupsFirst(r: Regex, x: Subject, i: nat, caps: seq<Option<nat>>, ss: seq<State>)
    requires Valid(r) && i <= |x.units| && |caps| == 2 * (1 + Captures(r))
    requires forall k :: 0 <= k < |caps| ==> caps[k] == None
    requires ss == Matches(r, 1, x, ProgramState(i, caps)) && ss != []
    ensures HasGroups(SetCapture(ss[0].caps, 1, Some(ss[0].pos)), Span(i, ss[0].pos), r, x)
  {
    hide Matches, Results;
    var st, f := ProgramState(i, caps), MatchState(i, map[]);
    forall g: nat
      ensures MayDiffer(f.groups, Own(0, 1), g) || PairIs(st.caps, f.groups, g)
    {
    }
    ResultsAlike(r, 1, x, st, f, Own(0, 1));
    MatchesRecord(r, 1, x, st);
    FirstPairs(r, i, st, ss[0], Results(r, 1, x, f)[0]);
  }

  lemma FirstPairs(r: Regex, i: nat, st: State, s: State, f: MatchState)
    requires |st.caps| == 2 * (1 + Captures(r)) && st.caps[0] == Some(i) && s.pos == f.end
    requires AgreeBut(s.caps, f.groups, Left(r, 1, Own(0, 1))) && Recorded(1, 1 + Captures(r), st.caps, s.caps)
    ensures var caps, groups := SetCapture(s.caps, 1, Some(s.pos)), f.groups[0 := (i, f.end)];
      forall g: nat :: g <= Captures(r) && (g in groups || LoopsRecord(r)) ==> PairIs(caps, groups, g)
  {
    var caps, groups := SetCapture(s.caps, 1, Some(s.pos)), f.groups[0 := (i, f.end)];
    assert SamePair(st.caps, s.caps, 0);
    forall g: nat | g <= Captures(r) && (g in groups || LoopsRecord(r))
      ensures PairIs(caps, groups, g)
    {
      assert MayDiffer(f.groups, Left(r, 1, Own(0, 1)), g) || PairIs(s.caps, f.groups, g);
    }
  }

  lemma ReportsFirst(r: Regex, x: Subject, i: nat, caps: seq<Option<nat>>, st: State, s: State)
    requires |caps| == 2 * (1 + Captures(r)) && (forall k :: 0 <= k < |caps| ==> caps[k] == None)
    requires st == ProgramState(i, caps) && i <= s.pos && Recorded(1, 1 + Captures(r), st.caps, s.caps)
    requires Valid(r) ==> HasGroups(SetCapture(s.caps, 1, Some(s.pos)), Span(i, s.pos), r, x)
    ensures Reports(SetCapture(s.caps, 1, Some(s.pos)), Span(i, s.pos), r, x)
  {
    hide HasGroups;
    var final := SetCapture(s.caps, 1, Some(s.pos));
    assert SamePair(st.caps, s.caps, 0);
    forall g: nat | g < 1 + Captures(r) ensures WellPaired(final, g) {
      assert SamePair(st.caps, s.caps, g) || (1 <= g < 1 + Captures(r) && WellPaired(s.caps, g));
    }
  }

  ///// The program

  /** The machine's byte code, after the header, begins with the compiled program. */
  ghost predicate Loaded(m: Machine, r: Regex, sticky: bool)
    requires Valid(r)
  {
    At(m.bc, 0, ProgramCode(r, sticky)) && m.captureCount == 1 + Captures(r)
  }

  function BodyStart(sticky: bool): nat { if sticky then 0 else 11 }

  function MatchPc(r: Regex, sticky: bool): nat
    requires Valid(r)
  {
    BodyStart(sticky) + 2 + CodeSize(CodeOf(r, 1)) + 2
  }

  lemma ProgramLayout(m: Machine, r: Regex, sticky: bool)
    requires Valid(r) && Loaded(m, r, sticky)
    ensures var p, n := BodyStart(sticky), CodeSize(CodeOf(r, 1));
      Fetch(m.bc, p) == ISave(false, 0) && At(m.bc, p + 2, CodeOf(r, 1))
      && Fetch(m.bc, p + 2 + n) == ISave(true, 0) && Fetch(m.bc, p + 4 + n) == IMatch
    ensures !sticky ==> Fetch(m.bc, 0) == ISplit(false, 6) && Fetch(m.bc, 5) == IAny && Fetch(m.bc, 6) == IGoto(-11)
    ensures CodeSize(ProgramCode(r, sticky)) == MatchPc(r, sticky) + 1
  {
    hide At, Fetch, CodeOf, CodeSize;
    var body := [ISave(false, 0)] + CodeOf(r, 1) + [ISave(true, 0), IMatch];
    var prefix := SearchPrefix(sticky);
    AtAppend(m.bc, 0, prefix, body);
    SizeAppend(prefix, body);
    PrefixLayout(m.bc, sticky);
    var p := BodyStart(sticky);
    FramedAt(m.bc, p, [ISave(false, 0)], CodeOf(r, 1), [ISave(true, 0), IMatch]);
    OneAt(m.bc, p, ISave(false, 0));
    TwoAt(m.bc, p + 2 + CodeSize(CodeOf(r, 1)), ISave(true, 0), IMatch);
  }

  lemma PrefixLayout(bc: seq<byte>, sticky: bool)
    ensures CodeSize(SearchPrefix(sticky)) == BodyStart(sticky)
    ensures !sticky && At(bc, 0, SearchPrefix(sticky)) ==>
      Fetch(bc, 0) == ISplit(false, 6) && Fetch(bc, 5) == IAny && Fetch(bc, 6) == IGoto(-11)
  {
    hide Fetch, At, CodeSize;
    AtNothing(bc, 0);
    if !sticky {
      assert SearchPrefix(sticky) == [ISplit(false, 6)] + [IAny, IGoto(-11)];
      AtAppend(bc, 0, [ISplit(false, 6)], [IAny, IGoto(-11)]);
      SizeAppend([ISplit(false, 6)], [IAny, IGoto(-11)]);
      OneAt(bc, 0, ISplit(false, 6));
      TwoAt(bc, 5, IAny, IGoto(-11));
    }
  }

  lemma BodyLayout(m: Machine, r: Regex, sticky: bool)
    requires Valid(r) && Loaded(m, r, sticky)
    ensures var p := BodyStart(sticky);
      Fetch(m.bc, p) == ISave(false, 0) && At(m.bc, p + 2, CodeOf(r, 1)) &&
      Fetch(m.bc, p + 2 + CodeSize(CodeOf(r, 1))) == ISave(true, 0) &&
      MatchPc(r, sticky) == p + 2 + CodeSize(CodeOf(r, 1)) + 2 && m.captureCount == 1 + Captures(r)
    ensures Fetch(m.bc, MatchPc(r, sticky)) == IMatch
  {
    hide At, Fetch, CodeOf, CodeSize;
    ProgramLayout(m, r, sticky);
  }

  /** From the start of the body: the matches that start at `i`. */
  lemma BodyYields(m: Machine, r: Regex, sticky: bool, i: nat, caps: seq<Option<nat>>, S: seq<Saved>)
    requires Valid(r) && Loaded(m, r, sticky) && i <= |m.x.units| && Aligned(m.x, i)
    ensures var start := Run(BodyStart(sticky), State(i, caps), [], S);
      Yields(m, start, MatchPc(r, sticky), [], MatchesAt(r, m.x, i, caps), S)
  {
    hide At, Fetch, CodeOf, CodeSize, Yields, Reaches, Matches, PairAt, MatchesAt, Step, Valid, Captures, Loaded,
      MatchPc, BodyStart;
    BodyLayout(m, r, sticky);
    var p := BodyStart(sticky);
    BodyInside(m, r, p + 2, i, caps, S);
    StartSaved(m, p, i, caps, S);
    YieldsAfterStep(m, Run(p, State(i, caps), [], S), MatchPc(r, sticky), [], MatchesAt(r, m.x, i, caps), S);
  }

  /** From behind the first instruction of the body. */
  lemma BodyInside(m: Machine, r: Regex, p: int, i: nat, caps: seq<Option<nat>>, S: seq<Saved>)
    requires Valid(r) && At(m.bc, p, CodeOf(r, 1)) && i <= |m.x.units| && Aligned(m.x, i)
    requires Fetch(m.bc, p + CodeSize(CodeOf(r, 1))) == ISave(true, 0) && m.captureCount == 1 + Captures(r)
    ensures var end := p + CodeSize(CodeOf(r, 1)) + 2;
      Yields(m, Run(p, ProgramState(i, caps), [], S), end, [], MatchesAt(r, m.x, i, caps), S)
  {
    hide At, Fetch, CodeOf, CodeSize, Yields, Reaches, Matches, PairAt, CloseEach, Step, Valid, Captures;
    var end, st := p + CodeSize(CodeOf(r, 1)), ProgramState(i, caps);
    CodePerforms(m, r, 1, p);
    var ss := Matches(r, 1, m.x, st);
    var inside := Run(p, st, [], S);
    assert Yields(m, inside, end, [], ss, S);
    CloseYields(m, inside, end, [], ss, S, 0, i, |caps|);
  }

  lemma StartSaved(m: Machine, p: int, i: nat, caps: seq<Option<nat>>, S: seq<Saved>)
    requires Fetch(m.bc, p) == ISave(false, 0) && m.captureCount > 0 && i <= |m.x.units|
    ensures Step(m, Run(p, State(i, caps), [], S)) == Run(p + 2, ProgramState(i, caps), [], S)
  {
    hide Fetch;
  }

  lemma StartLayout(m: Machine, r: Regex)
    requires Valid(r) && Loaded(m, r, false)
    ensures Fetch(m.bc, 0) == ISplit(false, 6) && Fetch(m.bc, 5) == IAny && Fetch(m.bc, 6) == IGoto(-11)
  {
    hide At, Fetch, CodeOf, CodeSize;
    ProgramLayout(m, r, false);
  }

  lemma NextStart(m: Machine, i: nat, caps: seq<Option<nat>>, S: seq<Saved>)
    requires Fetch(m.bc, 5) == IAny && Fetch(m.bc, 6) == IGoto(-11) && i < |m.x.units|
    ensures var next := State(NextPos(m.x, i), caps);
      Step(m, Run(5, State(i, caps), [], S)) == Run(6, next, [], S) &&
      Step(m, Run(6, next, [], S)) == Run(0, next, [], S)
  {
    hide Fetch, PairAt;
  }

  lemma NoNextStart(m: Machine, caps: seq<Option<nat>>, S: seq<Saved>)
    requires Fetch(m.bc, 5) == IAny
    ensures Step(m, Run(5, State(|m.x.units|, caps), [], S)) == Fail(S)
  {
    hide Fetch, PairAt;
  }

  /** The search prefix offers the matches of every start position in turn. */
  lemma {:induction false} PrefixYields(m: Machine, r: Regex, i: nat, caps: seq<Option<nat>>, S: seq<Saved>)
    requires Valid(r) && Loaded(m, r, false) && i <= |m.x.units| && Aligned(m.x, i)
    ensures Yields(m, Run(0, State(i, caps), [], S), MatchPc(r, false), [], AllMatches(r, m.x, i, caps, false), S)
    decreases |m.x.units| - i
  {
    hide At, Fetch, CodeOf, CodeSize, Yields, Reaches, Matches, PairAt, MatchesAt, Step, Valid, Captures, Loaded,
      MatchPc;
    StartLayout(m, r);
    var end, st := MatchPc(r, false), State(i, caps);
    var T := S + [Saved(SplitPoint, 5, st, [], 0)];
    BodyYields(m, r, false, i, caps, T);
    var here := MatchesAt(r, m.x, i, caps);
    var later := if i == |m.x.units| then [] else AllMatches(r, m.x, NextPos(m.x, i), caps, false);
    var second := Run(5, st, [], S);
    if i == |m.x.units| {
      NoNextStart(m, caps, S);
      YieldsNone(m, second, end, [], S);
    } else {
      var next := State(NextPos(m.x, i), caps);
      NextIsAligned(m.x, i);
      PrefixYields(m, r, next.pos, caps, S);
      NextStart(m, i, caps, S);
      YieldsAfterStep(m, Run(6, next, [], S), end, [], later, S);
      YieldsAfterStep(m, second, end, [], later, S);
    }
    SplitYields(m, 0, false, 6, st, [], S, end, [], here, later);
  }

  ///// The result of a run

  ghost predicate Correct(result: Option<seq<Option<nat>>>, found: Option<Span>, r: Regex, x: Subject) {
    match found
    case None => result == None
    case Some(span) => result.Some? && Reports(result.value, span, r, x)
  }

  function NoCaptures(groups: nat): seq<Option<nat>> {
    seq(2 * groups, _ => None)
  }

  function StartConfig(m: Machine, cindex: nat): Config {
    Run(0, State(cindex, NoCaptures(m.captureCount)), [], [])
  }

  /** `lre_exec` on a compiled program ends, and reports exactly the match `Search` describes. */
  lemma ExecCorrect(m: Machine, r: Regex, sticky: bool, cindex: nat) returns (result: Option<seq<Option<nat>>>)
    requires Valid(r) && Loaded(m, r, sticky) && cindex <= |m.x.units| && Aligned(m.x, cindex)
    ensures Reaches(m, StartConfig(m, cindex), Done(result))
    ensures Correct(result, Search(r, m.x, cindex, sticky), r, m.x)
  {
    hide At, Fetch, CodeOf, CodeSize, Reaches, Matches, PairAt, Reports, Search, ProgramCode, Yields, AllMatches,
      MatchesAt, Step, Valid, Captures, StartConfig, Loaded, MatchPc, BodyStart;
    BodyLayout(m, r, sticky);
    var caps := NoCaptures(m.captureCount);
    FirstOfAll(r, m.x, cindex, caps, sticky);
    ProgramYields(m, r, sticky, cindex);
    result := FirstResult(m, StartConfig(m, cindex), MatchPc(r, sticky), AllMatches(r, m.x, cindex, caps, sticky));
  }

  lemma ProgramYields(m: Machine, r: Regex, sticky: bool, cindex: nat)
    requires Valid(r) && Loaded(m, r, sticky) && cindex <= |m.x.units| && Aligned(m.x, cindex)
    ensures var all := AllMatches(r, m.x, cindex, NoCaptures(m.captureCount), sticky);
      Yields(m, StartConfig(m, cindex), MatchPc(r, sticky), [], all, [])
  {
    hide At, CodeOf, CodeSize, PairAt, ProgramCode, Yields, AllMatches, MatchesAt, Valid, Captures;
    var caps := NoCaptures(m.captureCount);
    if sticky {
      BodyYields(m, r, sticky, cindex, caps, []);
      AllMatchesSticky(r, m.x, cindex, caps);
    } else {
      PrefixYields(m, r, cindex, caps, []);
    }
  }

  lemma FirstResult(m: Machine, c: Config, end: int, all: seq<State>) returns (result: Option<seq<Option<nat>>>)
    requires Yields(m, c, end, [], all, []) && Fetch(m.bc, end) == IMatch
    requires forall k :: 0 <= k < |all| ==> all[k].pos <= |m.x.units|
    ensures Reaches(m, c, Done(result))
    ensures result == if all == [] then None else Some(all[0].caps)
  {
    hide Fetch, Reaches;
    if all == [] {
      ReachesStep(m, Fail([]), Done(None));
      ReachesTrans(m, c, Fail([]), Done(None));
      result := None;
    } else {
      var T :| Extends([], T) && Reaches(m, c, Run(end, all[0], [], T));
      var caps := all[0].caps;
      ReachesStep(m, Run(end, all[0], [], T), Succeed(caps, T));
      ReachesTrans(m, c, Run(end, all[0], [], T), Succeed(caps, T));
      SucceedCuts(m, caps, [], T);
      ReachesTrans(m, c, Succeed(caps, T), Succeed(caps, []));
      ReachesStep(m, Succeed(caps, []), Done(Some(caps)));
      ReachesTrans(m, c, Succeed(caps, []), Done(Some(caps)));
      result := Some(caps);
    }
  }
}
