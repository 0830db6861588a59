/** The captures of ECMA-262, as a map from group numbers to bounds, and what the compiled code records of them. */
module RegexGroups {
  import opened RegexInput
  import opened RegexSyntax
  import opened RegexSemantics
  import opened RegexCaptures

  /** The start and the end of every group that took part in a match. */
  type Groups = map<nat, (nat, nat)>

  datatype MatchState = MatchState(end: nat, groups: Groups)

  ghost predicate EndsBetween(lo: int, fs: seq<MatchState>, hi: nat) {
    forall k :: 0 <= k < |fs| ==> lo <= fs[k].end <= hi
  }

  function Without(groups: Groups, lo: nat, hi: nat): Groups {
    map g | g in groups && !(lo <= g < hi) :: groups[g]
  }

  /** A group from `start` ends where the match of its body does. */
  function Closed(cc: nat, start: nat, fs: seq<MatchState>): seq<MatchState> {
    seq(|fs|, k requires 0 <= k < |fs| => MatchState(fs[k].end, fs[k].groups[cc := (start, fs[k].end)]))
  }

  ///// The matcher of ECMA-262

  /** The match states of `r`, whose first group has number `cc`, best first (section 22.2.2.3 to 22.2.2.7). */
  function Results(r: Regex, cc: nat, x: Subject, f: MatchState): (fs: seq<MatchState>)
    requires f.end <= |x.units|
    ensures EndsBetween(f.end, fs, |x.units|)
    decreases r, 0, 0, 0, 0
  {
    match r
    case Empty => [f]
    case Cat(a, b) => ResultsEach(b, cc + Captures(a), x, f.end, Results(a, cc, x, f))
    case Alt(a, b) => Results(a, cc, x, f) + Results(b, cc + Captures(a), x, f)
    case Capture(b) =>
      Closed(cc, f.end, Results(b, cc + 1, x, f))
    case Look(negated, b) =>
      var inner := Results(b, cc, x, f);
      if negated then
        if inner == [] then [f] else []
      else
        if inner == [] then [] else [MatchState(f.end, inner[0].groups)]
    case Quant(b, min, max, greedy) => RepeatResults(b, cc, x, min, max, greedy, f)
    case _ =>
      var e := AtomEnd(r, x, f.end);
      if e.Some? then [MatchState(e.value, f.groups)] else []
  }

  function ResultsEach(r: Regex, cc: nat, x: Subject, lo: nat, fs: seq<MatchState>): (gs: seq<MatchState>)
    requires EndsBetween(lo, fs, |x.units|)
    ensures EndsBetween(lo, gs, |x.units|)
    decreases r, 1, 0, 0, |fs|
  {
    if fs == [] then []
    else Results(r, cc, x, fs[0]) + ResultsEach(r, cc, x, lo, fs[1..])
  }

  /** RepeatMatcher (section 22.2.2.3.1): every iteration starts without the groups of the repeated term. */
  function RepeatResults(b: Regex, cc: nat, x: Subject, min: nat, max: nat, greedy: bool,
                         f: MatchState): (fs: seq<MatchState>)
    requires f.end <= |x.units|
    ensures EndsBetween(f.end, fs, |x.units|)
    decreases b, 1, min, |x.units| + 1 - f.end, 1
  {
    if max == 0 then [f]
    else if min > 0 then
      RepeatResultsEach(b, cc, x, min - 1, Lower(max), greedy, f.end, Results(b, cc, x, Cleared(b, cc, f)))
    else if greedy then OptionalResults(b, cc, x, max, greedy, f) + [f]
    else [f] + OptionalResults(b, cc, x, max, greedy, f)
  }

  function Cleared(b: Regex, cc: nat, f: MatchState): MatchState {
    MatchState(f.end, Without(f.groups, cc, cc + Captures(b)))
  }

  function OptionalResults(b: Regex, cc: nat, x: Subject, max: nat, greedy: bool,
                           f: MatchState): (fs: seq<MatchState>)
    requires f.end <= |x.units| && max > 0
    ensures EndsBetween(f.end + 1, fs, |x.units|)
    decreases b, 1, 0, |x.units| + 1 - f.end, 0
  {
    RepeatResultsEach(b, cc, x, 0, Lower(max), greedy, f.end + 1,
      AdvancedResults(f.end, Results(b, cc, x, Cleared(b, cc, f)), |x.units|))
  }

  function RepeatResultsEach(b: Regex, cc: nat, x: Subject, min: nat, max: nat, greedy: bool, lo: nat,
                             fs: seq<MatchState>): (gs: seq<MatchState>)
    requires EndsBetween(lo, fs, |x.units|)
    ensures EndsBetween(lo, gs, |x.units|)
    decreases b, 1, min, |x.units| + 1 - lo, 1 + |fs|
  {
    if fs == [] then []
    else
      RepeatResults(b, cc, x, min, max, greedy, fs[0]) + RepeatResultsEach(b, cc, x, min, max, greedy, lo, fs[1..])
  }

  function AdvancedResults(i: nat, fs: seq<MatchState>, hi: nat): (gs: seq<MatchState>)
    requires EndsBetween(i, fs, hi)
    ensures EndsBetween(i + 1, gs, hi)
  {
    if fs == [] then []
    else (if fs[0].end == i then [] else [fs[0]]) + AdvancedResults(i, fs[1..], hi)
  }

  ///// Where they agree

  /** Every match of the term records all its groups. */
  predicate RecordsAll(r: Regex) {
    match r
    case Cat(a, b) => RecordsAll(a) && RecordsAll(b)
    case Alt(_, _) => Captures(r) == 0
    case Capture(b) => RecordsAll(b)
    case Look(negated, b) => Captures(b) == 0 || (!negated && RecordsAll(b))
    case Quant(b, min, _, _) => Captures(b) == 0 || (min > 0 && RecordsAll(b))
    case _ => true
  }

  /** What is repeated records all its groups each time. */
  predicate LoopsRecord(r: Regex) {
    match r
    case Cat(a, b) => LoopsRecord(a) && LoopsRecord(b)
    case Alt(a, b) => LoopsRecord(a) && LoopsRecord(b)
    case Capture(b) => LoopsRecord(b)
    case Look(_, b) => LoopsRecord(b)
    case Quant(b, _, max, _) => LoopsRecord(b) && (max <= 1 || RecordsAll(b))
    case _ => true
  }

  /** The array has the bounds of group `g`, or none when the group took no part. */
  ghost predicate PairIs(caps: seq<Option<nat>>, groups: Groups, g: nat) {
    2 * g + 1 < |caps| ==>
      if g in groups then caps[2 * g] == Some(groups[g].0) && caps[2 * g + 1] == Some(groups[g].1)
      else caps[2 * g] == None && caps[2 * g + 1] == None
  }

  /** The array has the bounds of every group of the map, and of the others only those in `but`. */
  ghost predicate AgreeBut(caps: seq<Option<nat>>, groups: Groups, but: set<nat>) {
    forall g: nat :: MayDiffer(groups, but, g) || PairIs(caps, groups, g)
  }

  ghost predicate MayDiffer(groups: Groups, but: set<nat>, g: nat) {
    g in but && g !in groups
  }

  ghost predicate AllBelow(groups: Groups, n: nat) {
    forall g :: g in groups ==> g < n
  }

  /** The numbers of `n` groups from `cc` on. */
  function Own(cc: nat, n: nat): (s: set<nat>)
    ensures forall g: nat :: g in s <==> cc <= g < cc + n
  {
    if n == 0 then {} else Own(cc, n - 1) + {cc + n - 1}
  }

  ghost predicate Alike(ss: seq<State>, fs: seq<MatchState>, but: set<nat>, n: nat) {
    |ss| == |fs| &&
    forall k :: 0 <= k < |ss| ==>
      ss[k].pos == fs[k].end && AgreeBut(ss[k].caps, fs[k].groups, but) && AllBelow(fs[k].groups, n)
  }

  /** Where the results of `r` may differ. */
  ghost function Left(r: Regex, cc: nat, but: set<nat>): set<nat> {
    if RecordsAll(r) then but - Own(cc, Captures(r))
    else if LoopsRecord(r) then but
    else but + Own(cc, Captures(r))
  }

  lemma {:induction false} NothingToRecord(r: Regex)
    requires Captures(r) == 0
    ensures RecordsAll(r) && LoopsRecord(r)
  {
    match r
    case Cat(a, b) =>
      NothingToRecord(a);
      NothingToRecord(b);
    case Alt(a, b) =>
      NothingToRecord(a);
      NothingToRecord(b);
    case Look(_, b) => NothingToRecord(b);
    case Quant(b, _, _, _) => NothingToRecord(b);
    case _ =>
  }

  lemma {:induction false} RecordsInLoops(r: Regex)
    requires RecordsAll(r)
    ensures LoopsRecord(r)
  {
    if Captures(r) == 0 {
      NothingToRecord(r);
    } else {
      match r
      case Cat(a, b) =>
        RecordsInLoops(a);
        RecordsInLoops(b);
      case Capture(b) => RecordsInLoops(b);
      case Look(_, b) => RecordsInLoops(b);
      case Quant(b, _, _, _) => RecordsInLoops(b);
      case _ =>
    }
  }

  lemma {:induction false} AgreeMore(caps: seq<Option<nat>>, groups: Groups, but: set<nat>, more: set<nat>)
    requires AgreeBut(caps, groups, but) && but <= more
    ensures AgreeBut(caps, groups, more)
  {
    hide PairIs;
  }

  lemma {:induction false} AlikeMore(ss: seq<State>, fs: seq<MatchState>, but: set<nat>, more: set<nat>, n: nat, m: nat)
    requires Alike(ss, fs, but, n) && but <= more && n <= m
    ensures Alike(ss, fs, more, m)
  {
    hide AgreeBut;
    forall k | 0 <= k < |ss|
      ensures AgreeBut(ss[k].caps, fs[k].groups, more)
    {
      AgreeMore(ss[k].caps, fs[k].groups, but, more);
    }
  }

  lemma {:induction false} AlikeAppend(ss: seq<State>, fs: seq<MatchState>, ss2: seq<State>, fs2: seq<MatchState>,
                                       but: set<nat>, n: nat)
    requires Alike(ss, fs, but, n) && Alike(ss2, fs2, but, n)
    ensures Alike(ss + ss2, fs + fs2, but, n)
  {
    hide AgreeBut, AllBelow;
  }

  lemma {:induction false} AlikeHead(ss: seq<State>, fs: seq<MatchState>, but: set<nat>, n: nat)
    requires Alike(ss, fs, but, n) && ss != []
    ensures fs != [] && ss[0].pos == fs[0].end && AgreeBut(ss[0].caps, fs[0].groups, but) && AllBelow(fs[0].groups, n)
    ensures Alike(ss[1..], fs[1..], but, n)
  {
    hide AgreeBut, AllBelow;
  }

  lemma {:induction false} AlikeOne(s: State, f: MatchState, but: set<nat>, n: nat)
    requires s.pos == f.end && AgreeBut(s.caps, f.groups, but) && AllBelow(f.groups, n)
    ensures Alike([s], [f], but, n)
  {
    hide AgreeBut, AllBelow;
  }

  ///// The induction

  /** Code and standard reach the same positions in the same order, and every group of the standard has its bounds in
      the code. The code has other bounds only where it had them before or, when the term repeats something that does
      not record all its groups, in groups of the term. */
  lemma {:induction false} ResultsAlike(r: Regex, cc: nat, x: Subject, st: State, f: MatchState, but: set<nat>)
    requires Valid(r) && st.pos == f.end <= |x.units| && AllBelow(f.groups, cc)
    requires AgreeBut(st.caps, f.groups, but)
    ensures Alike(Matches(r, cc, x, st), Results(r, cc, x, f), Left(r, cc, but), cc + Captures(r))
    decreases r, 0, 0, 0, 0
  {
    hide AgreeBut, AllBelow, Own, Matches, Results, MatchesEach, ResultsEach, CloseEach, AllRecorded, SetCapture, Alike,
      Left, Repeat, RepeatResults;
    match r
    case Cat(a, b) =>
      ResultsAlike(a, cc, x, st, f, but);
      var ss, fs := Matches(a, cc, x, st), Results(a, cc, x, f);
      EachAlike(b, cc + Captures(a), x, st.pos, |st.caps|, ss, fs, Left(a, cc, but));
      CatAlike(a, b, cc, x, st, f, but);
    case Alt(a, b) =>
      ResultsAlike(a, cc, x, st, f, but);
      BelowMore(f.groups, cc, cc + Captures(a));
      ResultsAlike(b, cc + Captures(a), x, st, f, but);
      AltAlike(a, b, cc, x, st, f, but);
    case Capture(b) =>
      var started := State(st.pos, SetCapture(st.caps, 2 * cc, Some(st.pos)));
      StartAlike(cc, st, f, but);
      BelowMore(f.groups, cc, cc + 1);
      ResultsAlike(b, cc + 1, x, started, f, but + Own(cc, 1));
      MatchesRecord(b, cc + 1, x, started);
      CloseAlike(b, cc, x, st, f, but);
    case Look(negated, b) =>
      ResultsAlike(b, cc, x, st, f, but);
      LookAlike(negated, b, cc, x, st, f, but);
    case Quant(b, min, max, greedy) =>
      QuantAlike(b, cc, x, min, max, greedy, st, f, but);
    case _ =>
      AlikeAtom(r, cc, x, st, f, but);
  }

  lemma {:induction false} CatAlike(a: Regex, b: Regex, cc: nat, x: Subject, st: State, f: MatchState, but: set<nat>)
    requires st.pos == f.end <= |x.units|
    requires var ss, fs := Matches(a, cc, x, st), Results(a, cc, x, f);
      var mid, hi := cc + Captures(a), cc + Captures(a) + Captures(b);
      Alike(MatchesEach(b, mid, x, st.pos, |st.caps|, ss), ResultsEach(b, mid, x, st.pos, fs),
        Left(b, mid, Left(a, cc, but)), hi)
    ensures Alike(Matches(Cat(a, b), cc, x, st), Results(Cat(a, b), cc, x, f), Left(Cat(a, b), cc, but),
      cc + Captures(a) + Captures(b))
  {
    hide Alike, MatchesEach, ResultsEach;
    var mid, hi := cc + Captures(a), cc + Captures(a) + Captures(b);
    MatchesCat(a, b, cc, x, st);
    assert Left(b, mid, Left(a, cc, but)) <= Left(Cat(a, b), cc, but);
    AlikeMore(Matches(Cat(a, b), cc, x, st), Results(Cat(a, b), cc, x, f), Left(b, mid, Left(a, cc, but)),
      Left(Cat(a, b), cc, but), hi, hi);
  }

  lemma {:induction false} ResultsAlt(a: Regex, b: Regex, cc: nat, x: Subject, f: MatchState)
    requires f.end <= |x.units|
    ensures Results(Alt(a, b), cc, x, f) == Results(a, cc, x, f) + Results(b, cc + Captures(a), x, f)
  {
    hide ResultsEach, RepeatResults, AtomEnd, Closed, Without, Captures;
  }

  lemma {:induction false} AltAlike(a: Regex, b: Regex, cc: nat, x: Subject, st: State, f: MatchState, but: set<nat>)
    requires st.pos == f.end <= |x.units|
    requires Alike(Matches(a, cc, x, st), Results(a, cc, x, f), Left(a, cc, but), cc + Captures(a))
    requires var mid := cc + Captures(a);
      Alike(Matches(b, mid, x, st), Results(b, mid, x, f), Left(b, mid, but), mid + Captures(b))
    ensures Alike(Matches(Alt(a, b), cc, x, st), Results(Alt(a, b), cc, x, f), Left(Alt(a, b), cc, but),
      cc + Captures(a) + Captures(b))
  {
    hide Alike, Matches, Results;
    var r, mid, hi := Alt(a, b), cc + Captures(a), cc + Captures(a) + Captures(b);
    MatchesAlt(a, b, cc, x, st);
    ResultsAlt(a, b, cc, x, f);
    var A, B := Matches(a, cc, x, st), Matches(b, mid, x, st);
    var F, G := Results(a, cc, x, f), Results(b, mid, x, f);
    AlikeMore(A, F, Left(a, cc, but), Left(r, cc, but), mid, hi);
    AlikeMore(B, G, Left(b, mid, but), Left(r, cc, but), hi, hi);
    AlikeAppend(A, F, B, G, Left(r, cc, but), hi);
  }

  lemma {:induction false} BelowMore(groups: Groups, n: nat, m: nat)
    requires AllBelow(groups, n) && n <= m
    ensures AllBelow(groups, m)
  {
  }

  lemma {:induction false} AlikeAtom(r: Regex, cc: nat, x: Subject, st: State, f: MatchState, but: set<nat>)
    requires st.pos == f.end <= |x.units| && AllBelow(f.groups, cc) && AgreeBut(st.caps, f.groups, but)
    requires !r.Cat? && !r.Alt? && !r.Capture? && !r.Look? && !r.Quant?
    ensures Alike(Matches(r, cc, x, st), Results(r, cc, x, f), Left(r, cc, but), cc + Captures(r))
  {
    hide AgreeBut, AllBelow, AtomEnd;
    assert Left(r, cc, but) == but;
  }

  lemma {:induction false} EachAlike(r: Regex, cc: nat, x: Subject, lo: nat, n: nat, ps: seq<State>,
                                     fs: seq<MatchState>, but: set<nat>)
    requires Valid(r) && StatesBetween(lo, ps, |x.units|, n) && EndsBetween(lo, fs, |x.units|)
    requires Alike(ps, fs, but, cc)
    ensures var hi := cc + Captures(r);
      Alike(MatchesEach(r, cc, x, lo, n, ps), ResultsEach(r, cc, x, lo, fs), Left(r, cc, but), hi)
    decreases r, 1, 0, 0, |ps|
  {
    hide AgreeBut, AllBelow, Matches, Results, Left;
    if ps != [] {
      AlikeHead(ps, fs, but, cc);
      ResultsAlike(r, cc, x, ps[0], fs[0], but);
      EachAlike(r, cc, x, lo, n, ps[1..], fs[1..], but);
      AlikeAppend(Matches(r, cc, x, ps[0]), Results(r, cc, x, fs[0]), MatchesEach(r, cc, x, lo, n, ps[1..]),
        ResultsEach(r, cc, x, lo, fs[1..]), Left(r, cc, but), cc + Captures(r));
    }
  }

  ///// Groups

  lemma {:induction false} StartAlike(cc: nat, st: State, f: MatchState, but: set<nat>)
    requires AgreeBut(st.caps, f.groups, but) && AllBelow(f.groups, cc)
    ensures AgreeBut(SetCapture(st.caps, 2 * cc, Some(st.pos)), f.groups, but + Own(cc, 1))
  {
    var caps := SetCapture(st.caps, 2 * cc, Some(st.pos));
    forall g: nat
      ensures MayDiffer(f.groups, but + Own(cc, 1), g) || PairIs(caps, f.groups, g)
    {
      assert MayDiffer(f.groups, but, g) || PairIs(st.caps, f.groups, g);
    }
  }

  lemma {:induction false} CloseAt(cc: nat, ss: seq<State>, lo: nat, hi: nat, n: nat)
    requires StatesBetween(lo, ss, hi, n)
    ensures var rs := CloseEach(cc, ss, lo, hi, n);
      |rs| == |ss| && forall k :: 0 <= k < |ss| ==>
        rs[k] == State(ss[k].pos, SetCapture(ss[k].caps, 2 * cc + 1, Some(ss[k].pos)))
    decreases |ss|
  {
    hide SetCapture;
    if ss != [] {
      CloseAt(cc, ss[1..], lo, hi, n);
    }
  }

  lemma {:induction false} CloseAlike(b: Regex, cc: nat, x: Subject, st: State, f: MatchState, but: set<nat>)
    requires st.pos == f.end <= |x.units|
    requires var started := State(st.pos, SetCapture(st.caps, 2 * cc, Some(st.pos)));
      var ss, hi := Matches(b, cc + 1, x, started), cc + 1 + Captures(b);
      Alike(ss, Results(b, cc + 1, x, f), Left(b, cc + 1, but + Own(cc, 1)), hi) &&
      AllRecorded(cc + 1, hi, started.caps, ss)
    ensures var r := Capture(b);
      Alike(Matches(r, cc, x, st), Results(r, cc, x, f), Left(r, cc, but), cc + Captures(r))
  {
    hide Alike, AllRecorded, SetCapture, Matches, Results, CloseEach;
    var started := State(st.pos, SetCapture(st.caps, 2 * cc, Some(st.pos)));
    var inner, fs := Matches(b, cc + 1, x, started), Results(b, cc + 1, x, f);
    MatchesCapture(b, cc, x, st);
    ResultsCapture(b, cc, x, f);
    CloseEachAlike(cc, cc + 1 + Captures(b), st, inner, fs, Left(b, cc + 1, but + Own(cc, 1)),
      Left(Capture(b), cc, but), |x.units|);
  }

  lemma {:induction false} MatchesCapture(b: Regex, cc: nat, x: Subject, st: State)
    requires st.pos <= |x.units|
    ensures var ss := Matches(b, cc + 1, x, State(st.pos, SetCapture(st.caps, 2 * cc, Some(st.pos))));
      Matches(Capture(b), cc, x, st) == CloseEach(cc, ss, st.pos, |x.units|, |st.caps|)
  {
    hide MatchesEach, Repeat, CloseEach, AtomEnd, Ends, SetCapture;
  }

  lemma {:induction false} ResultsCapture(b: Regex, cc: nat, x: Subject, f: MatchState)
    requires f.end <= |x.units|
    ensures Results(Capture(b), cc, x, f) == Closed(cc, f.end, Results(b, cc + 1, x, f))
  {
    hide ResultsEach, RepeatResults, AtomEnd;
  }

  lemma {:induction false} CloseEachAlike(cc: nat, hi: nat, st: State, ss: seq<State>, fs: seq<MatchState>,
                                          but: set<nat>, left: set<nat>, top: nat)
    requires StatesBetween(st.pos, ss, top, |st.caps|) && Alike(ss, fs, but, hi) && but - Own(cc, 1) <= left && cc < hi
    requires AllRecorded(cc + 1, hi, SetCapture(st.caps, 2 * cc, Some(st.pos)), ss)
    ensures Alike(CloseEach(cc, ss, st.pos, top, |st.caps|), Closed(cc, st.pos, fs), left, hi)
  {
    hide AgreeBut, Recorded, SetCapture, CloseEach;
    CloseAt(cc, ss, st.pos, top, |st.caps|);
    forall k | 0 <= k < |ss|
      ensures var groups := fs[k].groups[cc := (st.pos, fs[k].end)];
        AgreeBut(SetCapture(ss[k].caps, 2 * cc + 1, Some(ss[k].pos)), groups, left) && AllBelow(groups, hi)
    {
      CloseOneAlike(cc, hi, st, ss[k], fs[k], but, left);
    }
  }

  lemma {:induction false} CloseOneAlike(cc: nat, hi: nat, st: State, s: State, f: MatchState, but: set<nat>,
                                         left: set<nat>)
    requires s.pos == f.end && AgreeBut(s.caps, f.groups, but) && but - Own(cc, 1) <= left
    requires Recorded(cc + 1, hi, SetCapture(st.caps, 2 * cc, Some(st.pos)), s.caps)
    ensures AgreeBut(SetCapture(s.caps, 2 * cc + 1, Some(s.pos)), f.groups[cc := (st.pos, f.end)], left)
  {
    var caps, groups := SetCapture(s.caps, 2 * cc + 1, Some(s.pos)), f.groups[cc := (st.pos, f.end)];
    assert SamePair(SetCapture(st.caps, 2 * cc, Some(st.pos)), s.caps, cc);
    forall g: nat
      ensures MayDiffer(groups, left, g) || PairIs(caps, groups, g)
    {
      assert MayDiffer(f.groups, but, g) || PairIs(s.caps, f.groups, g);
    }
  }

  ///// Lookahead

  lemma {:induction false} LookAlike(negated: bool, b: Regex, cc: nat, x: Subject, st: State, f: MatchState,
                                     but: set<nat>)
    requires st.pos == f.end <= |x.units| && AllBelow(f.groups, cc) && AgreeBut(st.caps, f.groups, but)
    requires Alike(Matches(b, cc, x, st), Results(b, cc, x, f), Left(b, cc, but), cc + Captures(b))
    ensures Alike(Matches(Look(negated, b), cc, x, st), Results(Look(negated, b), cc, x, f),
      Left(Look(negated, b), cc, but), cc + Captures(b))
  {
    hide AgreeBut, AllBelow;
    var hi, left := cc + Captures(b), Left(Look(negated, b), cc, but);
    MatchesLook(negated, b, cc, x, st);
    if negated {
      BelowMore(f.groups, cc, hi);
      AgreeMore(st.caps, f.groups, but, left);
      AlikeOne(st, f, left, hi);
    } else if Matches(b, cc, x, st) != [] {
      var s, g := Matches(b, cc, x, st)[0], Results(b, cc, x, f)[0];
      assert Left(b, cc, but) <= left;
      AgreeMore(s.caps, g.groups, Left(b, cc, but), left);
      AlikeOne(State(st.pos, s.caps), MatchState(f.end, g.groups), left, hi);
    }
  }

  ///// Loops

  lemma {:induction false} QuantAlike(b: Regex, cc: nat, x: Subject, min: nat, max: nat, greedy: bool, st: State,
                                      f: MatchState, but: set<nat>)
    requires Valid(b) && min <= max
    requires st.pos == f.end <= |x.units| && AllBelow(f.groups, cc) && AgreeBut(st.caps, f.groups, but)
    ensures var r := Quant(b, min, max, greedy);
      Alike(Matches(r, cc, x, st), Results(r, cc, x, f), Left(r, cc, but), cc + Captures(b))
    decreases b, 2, 0, 0, 0
  {
    hide AgreeBut, AllBelow, Repeat, RepeatResults, RecordsAll, LoopsRecord;
    var r, hi, start := Quant(b, min, max, greedy), cc + Captures(b), QuantStart(b, cc, min, st);
    var own := Own(cc, Captures(b));
    var reset := if min == 0 then but - own else but;
    StartOfLoop(b, cc, min, st, f, but);
    BelowMore(f.groups, cc, hi);
    var now := if LoopsRecord(r) then reset else reset + own;
    LoopOfRecorded(b, min, max, greedy);
    AgreeMore(start.caps, f.groups, reset, now);
    RepeatAlike(b, cc, x, min, max, greedy, start, f, now);
    var left := if min > 0 && RecordsAll(b) then now - own else now;
    assert left <= Left(r, cc, but);
    AlikeMore(Matches(r, cc, x, st), Results(r, cc, x, f), left, Left(r, cc, but), hi, hi);
  }

  lemma {:induction false} LoopOfRecorded(b: Regex, min: nat, max: nat, greedy: bool)
    ensures var r := Quant(b, min, max, greedy);
      (LoopsRecord(r) <==> LoopsRecord(b) && (max <= 1 || RecordsAll(b))) &&
      (RecordsAll(r) ==> LoopsRecord(r) && (Captures(b) == 0 || (min > 0 && RecordsAll(b))))
  {
    var r := Quant(b, min, max, greedy);
    if RecordsAll(r) {
      RecordsInLoops(r);
    }
  }

  lemma {:induction false} StartOfLoop(b: Regex, cc: nat, min: nat, st: State, f: MatchState, but: set<nat>)
    requires AllBelow(f.groups, cc) && AgreeBut(st.caps, f.groups, but)
    ensures AgreeBut(QuantStart(b, cc, min, st).caps, f.groups, if min == 0 then but - Own(cc, Captures(b)) else but)
  {
    var caps, now := QuantStart(b, cc, min, st).caps, if min == 0 then but - Own(cc, Captures(b)) else but;
    forall g: nat
      ensures MayDiffer(f.groups, now, g) || PairIs(caps, f.groups, g)
    {
      assert MayDiffer(f.groups, but, g) || PairIs(st.caps, f.groups, g);
    }
  }

  /** Clearing leaves the groups of the term open. */
  lemma {:induction false} ClearedAgrees(b: Regex, cc: nat, st: State, f: MatchState, but: set<nat>)
    requires AgreeBut(st.caps, f.groups, but) && AllBelow(f.groups, cc + Captures(b))
    requires RecordsAll(b) || Own(cc, Captures(b)) <= but || AllBelow(f.groups, cc)
    ensures AllBelow(Cleared(b, cc, f).groups, cc)
    ensures AgreeBut(st.caps, Cleared(b, cc, f).groups, if RecordsAll(b) then but + Own(cc, Captures(b)) else but)
  {
    var groups, more := Cleared(b, cc, f).groups, if RecordsAll(b) then but + Own(cc, Captures(b)) else but;
    forall g: nat
      ensures MayDiffer(groups, more, g) || PairIs(st.caps, groups, g)
    {
      assert MayDiffer(f.groups, but, g) || PairIs(st.caps, f.groups, g);
    }
  }

  lemma {:induction false} RepeatAlike(b: Regex, cc: nat, x: Subject, min: nat, max: nat, greedy: bool, st: State,
                                       f: MatchState, but: set<nat>)
    requires Valid(b) && min <= max && st.pos == f.end <= |x.units|
    requires AgreeBut(st.caps, f.groups, but) && AllBelow(f.groups, cc + Captures(b))
    requires RecordsAll(b) || Own(cc, Captures(b)) <= but || max == 0 ||
      (max == 1 && LoopsRecord(b) && AllBelow(f.groups, cc))
    ensures Alike(Repeat(b, cc, x, min, max, greedy, st), RepeatResults(b, cc, x, min, max, greedy, f),
      if min > 0 && RecordsAll(b) then but - Own(cc, Captures(b)) else but, cc + Captures(b))
    decreases b, 1, min, |x.units| + 1 - st.pos, 1
  {
    hide AgreeBut, AllBelow, Matches, Results, RepeatEach, RepeatResultsEach, AdvancedStates, AdvancedResults;
    var hi := cc + Captures(b);
    AlikeOne(st, f, but, hi);
    if max > 0 {
      var f0 := Cleared(b, cc, f);
      ClearedAgrees(b, cc, st, f, but);
      var more := if RecordsAll(b) then but + Own(cc, Captures(b)) else but;
      ResultsAlike(b, cc, x, st, f0, more);
      var left := if RecordsAll(b) then but - Own(cc, Captures(b)) else but;
      assert Left(b, cc, more) == left && left <= but;
      var once, firsts := Matches(b, cc, x, st), Results(b, cc, x, f0);
      if min > 0 {
        RepeatEachAlike(b, cc, x, min - 1, Lower(max), greedy, st.pos, |st.caps|, once, firsts, left);
      } else {
        AdvancedAlike(st.pos, once, firsts, |x.units|, |st.caps|, left, hi);
        var ss := AdvancedStates(st.pos, once, |x.units|, |st.caps|);
        var fs := AdvancedResults(st.pos, firsts, |x.units|);
        RepeatEachAlike(b, cc, x, 0, Lower(max), greedy, st.pos + 1, |st.caps|, ss, fs, left);
        OptionalAlike(b, cc, x, max, greedy, st, f, left, but);
      }
    }
  }

  lemma {:induction false} OptionalAlike(b: Regex, cc: nat, x: Subject, max: nat, greedy: bool, st: State,
                                         f: MatchState, left: set<nat>, but: set<nat>)
    requires max > 0 && st.pos == f.end <= |x.units| && left <= but
    requires Alike(Optional(b, cc, x, max, greedy, st), OptionalResults(b, cc, x, max, greedy, f), left,
      cc + Captures(b))
    requires Alike([st], [f], but, cc + Captures(b))
    ensures Alike(Repeat(b, cc, x, 0, max, greedy, st), RepeatResults(b, cc, x, 0, max, greedy, f), but,
      cc + Captures(b))
  {
    hide Alike, Optional, OptionalResults;
    var hi := cc + Captures(b);
    var ss, fs := Optional(b, cc, x, max, greedy, st), OptionalResults(b, cc, x, max, greedy, f);
    AlikeMore(ss, fs, left, but, hi, hi);
    if greedy {
      AlikeAppend(ss, fs, [st], [f], but, hi);
    } else {
      AlikeAppend([st], [f], ss, fs, but, hi);
    }
  }

  lemma {:induction false} RepeatEachAlike(b: Regex, cc: nat, x: Subject, min: nat, max: nat, greedy: bool, lo: nat,
                                           n: nat, ps: seq<State>, fs: seq<MatchState>, but: set<nat>)
    requires Valid(b) && min <= max && (RecordsAll(b) || Own(cc, Captures(b)) <= but || max == 0)
    requires StatesBetween(lo, ps, |x.units|, n) && EndsBetween(lo, fs, |x.units|)
    requires Alike(ps, fs, but, cc + Captures(b))
    ensures Alike(RepeatEach(b, cc, x, min, max, greedy, lo, n, ps),
      RepeatResultsEach(b, cc, x, min, max, greedy, lo, fs), but, cc + Captures(b))
    decreases b, 1, min, |x.units| + 1 - lo, 1 + |ps|
  {
    hide AgreeBut, AllBelow, Repeat, RepeatResults;
    var hi := cc + Captures(b);
    if ps != [] {
      AlikeHead(ps, fs, but, hi);
      RepeatAlike(b, cc, x, min, max, greedy, ps[0], fs[0], but);
      var ss, gs := Repeat(b, cc, x, min, max, greedy, ps[0]), RepeatResults(b, cc, x, min, max, greedy, fs[0]);
      AlikeMore(ss, gs, if min > 0 && RecordsAll(b) then but - Own(cc, Captures(b)) else but, but, hi, hi);
      RepeatEachAlike(b, cc, x, min, max, greedy, lo, n, ps[1..], fs[1..], but);
      AlikeAppend(ss, gs, RepeatEach(b, cc, x, min, max, greedy, lo, n, ps[1..]),
        RepeatResultsEach(b, cc, x, min, max, greedy, lo, fs[1..]), but, hi);
    }
  }

  lemma {:induction false} AdvancedAlike(i: nat, ss: seq<State>, fs: seq<MatchState>, hi: nat, n: nat, but: set<nat>,
                                         m: nat)
    requires StatesBetween(i, ss, hi, n) && EndsBetween(i, fs, hi) && Alike(ss, fs, but, m)
    ensures Alike(AdvancedStates(i, ss, hi, n), AdvancedResults(i, fs, hi), but, m)
    decreases |ss|
  {
    hide AgreeBut, AllBelow;
    if ss != [] {
      AlikeHead(ss, fs, but, m);
      AdvancedAlike(i, ss[1..], fs[1..], hi, n, but, m);
      AlikeOne(ss[0], fs[0], but, m);
      if ss[0].pos != i {
        AlikeAppend([ss[0]], [fs[0]], AdvancedStates(i, ss[1..], hi, n), AdvancedResults(i, fs[1..], hi), but, m);
      }
    }
  }

  ///// The bounds of a group

  /** A group records where its body started and where it ended, in every match. */
  lemma {:induction false} GroupBounds(b: Regex, cc: nat, x: Subject, st: State, k: nat)
    requires st.pos <= |x.units| && k < |Matches(Capture(b), cc, x, st)| && 2 * cc + 1 < |st.caps|
    ensures var s := Matches(Capture(b), cc, x, st)[k];
      |s.caps| == |st.caps| && s.caps[2 * cc] == Some(st.pos) && s.caps[2 * cc + 1] == Some(s.pos)
  {
    hide Matches, CloseEach;
    var started := State(st.pos, SetCapture(st.caps, 2 * cc, Some(st.pos)));
    var inner := Matches(b, cc + 1, x, started);
    MatchesCapture(b, cc, x, st);
    CloseAt(cc, inner, st.pos, |x.units|, |st.caps|);
    MatchesRecord(b, cc + 1, x, started);
    assert Recorded(cc + 1, cc + 1 + Captures(b), started.caps, inner[k].caps);
    assert SamePair(started.caps, inner[k].caps, cc);
  }

  ///// Where they differ

  /** `(?:(a)|b)*`: the second iteration matches without the group. */
  const STALE := Quant(Alt(Capture(Chr(97)), Chr(98)), 0, INT32_MAX, true)

  lemma {:induction false} StarTakes(b: Regex, cc: nat, x: Subject, st: State, f: MatchState, s: State, g: MatchState)
    requires st.pos == f.end < s.pos == g.end <= |x.units|
    requires Matches(b, cc, x, st) == [s] && Results(b, cc, x, Cleared(b, cc, f)) == [g]
    ensures Repeat(b, cc, x, 0, INT32_MAX, true, st) == Repeat(b, cc, x, 0, INT32_MAX, true, s) + [st]
    ensures RepeatResults(b, cc, x, 0, INT32_MAX, true, f) == RepeatResults(b, cc, x, 0, INT32_MAX, true, g) + [f]
  {
    hide Matches, Results, Cleared;
    assert [s][1..] == [] && [g][1..] == [];
    assert AdvancedStates(st.pos, [s], |x.units|, |st.caps|) == [s] + AdvancedStates(st.pos, [], |x.units|, |st.caps|);
    assert AdvancedResults(f.end, [g], |x.units|) == [g] + AdvancedResults(f.end, [], |x.units|);
    var n := |st.caps|;
    assert RepeatEach(b, cc, x, 0, INT32_MAX, true, st.pos + 1, n, []) == [];
    assert RepeatEach(b, cc, x, 0, INT32_MAX, true, st.pos + 1, n, [s]) == Repeat(b, cc, x, 0, INT32_MAX, true, s) + [];
    assert Optional(b, cc, x, INT32_MAX, true, st) == RepeatEach(b, cc, x, 0, INT32_MAX, true, st.pos + 1, n, [s]);
    assert RepeatResultsEach(b, cc, x, 0, INT32_MAX, true, f.end + 1, []) == [];
    assert RepeatResultsEach(b, cc, x, 0, INT32_MAX, true, f.end + 1, [g]) ==
      RepeatResults(b, cc, x, 0, INT32_MAX, true, g) + [];
    assert OptionalResults(b, cc, x, INT32_MAX, true, f) ==
      RepeatResultsEach(b, cc, x, 0, INT32_MAX, true, f.end + 1, [g]);
  }

  lemma {:induction false} StarStops(b: Regex, cc: nat, x: Subject, st: State, f: MatchState)
    requires st.pos == f.end <= |x.units|
    requires Matches(b, cc, x, st) == [] && Results(b, cc, x, Cleared(b, cc, f)) == []
    ensures Repeat(b, cc, x, 0, INT32_MAX, true, st) == [st]
    ensures RepeatResults(b, cc, x, 0, INT32_MAX, true, f) == [f]
  {
    hide Matches, Results, Cleared;
    assert AdvancedStates(st.pos, [], |x.units|, |st.caps|) == [];
    assert AdvancedResults(f.end, [], |x.units|) == [];
    assert RepeatEach(b, cc, x, 0, INT32_MAX, true, st.pos + 1, |st.caps|, []) == [];
    assert RepeatResultsEach(b, cc, x, 0, INT32_MAX, true, f.end + 1, []) == [];
  }

  const AB := Subject([97, 98], Bytes, false)

  lemma {:induction false} OneOfAb(c: int, cc: nat, st: State, f: MatchState)
    requires st.pos == f.end <= 2
    ensures Matches(Chr(c), cc, AB, st) ==
      if st.pos < 2 && AB.units[st.pos] == c then [State(st.pos + 1, st.caps)] else []
    ensures Results(Chr(c), cc, AB, f) ==
      if f.end < 2 && AB.units[f.end] == c then [MatchState(f.end + 1, f.groups)] else []
  {
    hide MatchesEach, ResultsEach, CloseEach, Closed, Repeat, RepeatResults;
  }

  /** The two branches at each position of "ab", in the code and in the standard. */
  lemma {:induction false} BranchesOfCode(st: State)
    requires st.pos <= 2 && |st.caps| == 4
    ensures Matches(STALE.body, 1, AB, st) ==
      if st.pos == 0 then [State(1, st.caps[2 := Some(0)][3 := Some(1)])]
      else if st.pos == 1 then [State(2, st.caps)]
      else []
  {
    hide Matches, CloseEach;
    var started := State(st.pos, SetCapture(st.caps, 2, Some(st.pos)));
    var f := MatchState(st.pos, map[]);
    MatchesAlt(Capture(Chr(97)), Chr(98), 1, AB, st);
    MatchesCapture(Chr(97), 1, AB, st);
    OneOfAb(97, 2, started, f);
    OneOfAb(98, 2, st, f);
    CloseAt(1, Matches(Chr(97), 2, AB, started), st.pos, 2, 4);
  }

  lemma {:induction false} BranchesOfStandard(f: MatchState)
    requires f.end <= 2
    ensures Results(STALE.body, 1, AB, f) ==
      if f.end == 0 then [MatchState(1, f.groups[1 := (0, 1)])]
      else if f.end == 1 then [MatchState(2, f.groups)]
      else []
  {
    hide Results;
    var st := State(f.end, []);
    ResultsAlt(Capture(Chr(97)), Chr(98), 1, AB, f);
    ResultsCapture(Chr(97), 1, AB, f);
    OneOfAb(97, 2, st, f);
    OneOfAb(98, 2, st, f);
  }

  /** On "ab" the code still has the group of the first iteration, which the standard clears. */
  lemma {:induction false} StaleGroup()
    ensures !LoopsRecord(STALE)
    ensures var st, f := State(0, [None, None, None, None]), MatchState(0, map[]);
      var ss, fs := Matches(STALE, 1, AB, st), Results(STALE, 1, AB, f);
      ss != [] && ss[0] == State(2, [None, None, Some(0), Some(1)]) && fs != [] && fs[0] == MatchState(2, map[])
  {
    hide Matches, Results, Repeat, RepeatResults;
    var b := STALE.body;
    var s0, s1, s2 := State(0, [None, None, None, None]), State(1, [None, None, Some(0), Some(1)]),
      State(2, [None, None, Some(0), Some(1)]);
    var f0, f1, f2 := MatchState(0, map[]), MatchState(1, map[1 := (0, 1)]), MatchState(2, map[]);
    StaleLoop();
    BranchesOfCode(s0);
    BranchesOfStandard(Cleared(b, 1, f0));
    BranchesOfCode(s1);
    BranchesOfStandard(Cleared(b, 1, f1));
    BranchesOfCode(s2);
    BranchesOfStandard(Cleared(b, 1, f2));
    assert Cleared(b, 1, f0).groups == map[] && Cleared(b, 1, f1).groups == map[];
    assert f0.groups[1 := (0, 1)] == f1.groups && s0.caps[2 := Some(0)][3 := Some(1)] == s1.caps;
    StarTakes(b, 1, AB, s0, f0, s1, f1);
    StarTakes(b, 1, AB, s1, f1, s2, f2);
    StarStops(b, 1, AB, s2, f2);
  }

  lemma {:induction false} StaleLoop()
    ensures var st, f := State(0, [None, None, None, None]), MatchState(0, map[]);
      Matches(STALE, 1, AB, st) == Repeat(STALE.body, 1, AB, 0, INT32_MAX, true, st) &&
      Results(STALE, 1, AB, f) == RepeatResults(STALE.body, 1, AB, 0, INT32_MAX, true, f)
  {
    hide Repeat, RepeatResults;
    var caps: seq<Option<nat>> := [None, None, None, None];
    assert ResetCaptures(caps, 1, 2) == caps;
  }
}
