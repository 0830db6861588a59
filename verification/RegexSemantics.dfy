/** What a regular expression means: the finite list of end positions the matcher of
    section 22.2.2 of ECMA-262 would try, in its order of preference. */
module RegexSemantics {
  import opened RegexInput
  import opened RegexSyntax

  datatype Option<T> = None | Some(value: T)

  /** Does the one-character term `r` accept `c`? */
  predicate Accepts(r: Regex, c: int) {
    match r
    case Chr(d) => c == d
    case Dot => !IsLineTerminator(c)
    case Any => true
    case Class(points) => InClass(points, c)
    case _ => false
  }

  predicate IsCharTerm(r: Regex) {
    r.Chr? || r.Dot? || r.Any? || r.Class?
  }

  predicate WordAt(x: Subject, i: int) {
    0 <= i < |x.units| && IsWordChar(x.units[i])
  }

  predicate IsAssertion(r: Regex) {
    r.LineStart? || r.LineEnd? || r.WordBoundary?
  }

  /** Does the assertion `r` hold at position `i`? */
  predicate Holds(r: Regex, x: Subject, i: nat)
    requires IsAssertion(r)
    requires i <= |x.units|
  {
    match r
    case LineStart => i == 0 || (x.multiLine && IsLineTerminator(x.units[i - 1]))
    case LineEnd => i == |x.units| || (x.multiLine && IsLineTerminator(x.units[i]))
    case WordBoundary(negated) => (WordAt(x, i - 1) != WordAt(x, i)) != negated
  }

  /** The end of a match of the one-character term or assertion `r` at `i`, if there is one. */
  function AtomEnd(r: Regex, x: Subject, i: nat): (e: Option<nat>)
    requires i <= |x.units|
    ensures e.Some? ==> i <= e.value <= |x.units|
  {
    if IsAssertion(r) then
      if Holds(r, x, i) then Some(i) else None
    else if i < |x.units| && Accepts(r, CharAt(x, i)) then Some(NextPos(x, i))
    else None
  }

  function Lower(max: nat): nat
    requires max > 0
  {
    if max == INT32_MAX then INT32_MAX else max - 1
  }

  ///// The matcher of ECMA-262 on positions

  ghost predicate Between(lo: int, es: seq<nat>, hi: nat) {
    forall k :: 0 <= k < |es| ==> lo <= es[k] <= hi
  }

  /** The end positions of matches of `r` at `i`, best first (section 22.2.2.3 to 22.2.2.7). */
  function Ends(r: Regex, x: Subject, i: nat): (es: seq<nat>)
    requires i <= |x.units|
    ensures Between(i, es, |x.units|)
    decreases r, 0, 0, 0, 0
  {
    match r
    case Empty => [i]
    case Cat(a, b) => EndsEach(b, x, i, Ends(a, x, i))
    case Alt(a, b) => Ends(a, x, i) + Ends(b, x, i)
    case Capture(b) => Ends(b, x, i)
    case Look(negated, b) => if (Ends(b, x, i) != []) != negated then [i] else []
    case Quant(b, min, max, greedy) => RepeatEnds(b, x, min, max, greedy, i)
    case _ =>
      var e := AtomEnd(r, x, i);
      if e.Some? then [e.value] else []
  }

  /** Continue with `r` from every position of `is`. */
  function EndsEach(r: Regex, x: Subject, lo: nat, ps: seq<nat>): (es: seq<nat>)
    requires Between(lo, ps, |x.units|)
    ensures Between(lo, es, |x.units|)
    decreases r, 1, 0, 0, |ps|
  {
    if ps == [] then []
    else Ends(r, x, ps[0]) + EndsEach(r, x, lo, ps[1..])
  }

  /** RepeatMatcher (section 22.2.2.3.1): an iteration after the first `min` ones has to advance. */
  function RepeatEnds(b: Regex, x: Subject, min: nat, max: nat, greedy: bool, i: nat): (es: seq<nat>)
    requires i <= |x.units|
    ensures Between(i, es, |x.units|)
    decreases b, 1, min, |x.units| + 1 - i, 1
  {
    if max == 0 then [i]
    else if min > 0 then
      RepeatEndsEach(b, x, min - 1, Lower(max), greedy, i, Ends(b, x, i))
    else if greedy then OptionalEnds(b, x, max, greedy, i) + [i]
    else [i] + OptionalEnds(b, x, max, greedy, i)
  }

  /** The ends with at least one more iteration, which has to advance. */
  function OptionalEnds(b: Regex, x: Subject, max: nat, greedy: bool, i: nat): (es: seq<nat>)
    requires i <= |x.units| && max > 0
    ensures Between(i + 1, es, |x.units|)
    decreases b, 1, 0, |x.units| + 1 - i, 0
  {
    RepeatEndsEach(b, x, 0, Lower(max), greedy, i + 1, Advanced(i, Ends(b, x, i), |x.units|))
  }

  function RepeatEndsEach(b: Regex, x: Subject, min: nat, max: nat, greedy: bool, lo: nat, ps: seq<nat>): (es: seq<nat>)
    requires Between(lo, ps, |x.units|)
    ensures Between(lo, es, |x.units|)
    decreases b, 1, min, |x.units| + 1 - lo, 1 + |ps|
  {
    if ps == [] then []
    else RepeatEnds(b, x, min, max, greedy, ps[0]) + RepeatEndsEach(b, x, min, max, greedy, lo, ps[1..])
  }

  function Advanced(i: nat, ps: seq<nat>, hi: nat): (qs: seq<nat>)
    requires Between(i, ps, hi)
    ensures Between(i + 1, qs, hi)
  {
    if ps == [] then []
    else (if ps[0] == i then [] else [ps[0]]) + Advanced(i, ps[1..], hi)
  }

  ///// The same lists with the captures the compiled code records

  /** A position and the capture array: entries 2k and 2k+1 are the bounds of group k. */
  datatype State = State(pos: nat, caps: seq<Option<nat>>)

  function SetCapture(caps: seq<Option<nat>>, k: nat, v: Option<nat>): (r: seq<Option<nat>>)
    ensures |r| == |caps|
  {
    if k < |caps| then caps[k := v] else caps
  }

  /** Clear the bounds of groups from `lo` up to `hi - 1`. */
  function ResetCaptures(caps: seq<Option<nat>>, lo: nat, hi: nat): (r: seq<Option<nat>>)
    ensures |r| == |caps|
  {
    seq(|caps|, k requires 0 <= k < |caps| => if 2 * lo <= k < 2 * hi then None else caps[k])
  }

  ghost predicate StatesBetween(lo: int, ss: seq<State>, hi: nat, n: nat) {
    forall k :: 0 <= k < |ss| ==> lo <= ss[k].pos <= hi && |ss[k].caps| == n
  }

  /** The states reached by matching `r`, whose first group has number `cc`, best first.
      A quantifier whose atom may be skipped clears the atom's groups once, before the first iteration. */
  function Matches(r: Regex, cc: nat, x: Subject, st: State): (ss: seq<State>)
    requires st.pos <= |x.units|
    ensures StatesBetween(st.pos, ss, |x.units|, |st.caps|)
    decreases r, 0, 0, 0, 0
  {
    match r
    case Empty => [st]
    case Cat(a, b) => MatchesEach(b, cc + Captures(a), x, st.pos, |st.caps|, Matches(a, cc, x, st))
    case Alt(a, b) => Matches(a, cc, x, st) + Matches(b, cc + Captures(a), x, st)
    case Capture(b) =>
      CloseEach(cc, Matches(b, cc + 1, x, State(st.pos, SetCapture(st.caps, 2 * cc, Some(st.pos)))),
                st.pos, |x.units|, |st.caps|)
    case Look(negated, b) =>
      var inner := Matches(b, cc, x, st);
      if negated then
        if inner == [] then [st] else []
      else
        if inner == [] then [] else [State(st.pos, inner[0].caps)]
    case Quant(b, min, max, greedy) => Repeat(b, cc, x, min, max, greedy, QuantStart(b, cc, min, st))
    case _ =>
      var e := AtomEnd(r, x, st.pos);
      if e.Some? then [State(e.value, st.caps)] else []
  }

  function QuantStart(b: Regex, cc: nat, min: nat, st: State): State {
    if min == 0 && Captures(b) > 0 then State(st.pos, ResetCaptures(st.caps, cc, cc + Captures(b))) else st
  }

  function CloseEach(cc: nat, ss: seq<State>, ghost lo: nat, ghost hi: nat, ghost n: nat): (rs: seq<State>)
    requires StatesBetween(lo, ss, hi, n)
    ensures StatesBetween(lo, rs, hi, n)
  {
    if ss == [] then []
    else [State(ss[0].pos, SetCapture(ss[0].caps, 2 * cc + 1, Some(ss[0].pos)))] + CloseEach(cc, ss[1..], lo, hi, n)
  }

  function MatchesEach(r: Regex, cc: nat, x: Subject, lo: nat, ghost n: nat, ps: seq<State>): (ss: seq<State>)
    requires StatesBetween(lo, ps, |x.units|, n)
    ensures StatesBetween(lo, ss, |x.units|, n)
    decreases r, 1, 0, 0, |ps|
  {
    if ps == [] then []
    else Matches(r, cc, x, ps[0]) + MatchesEach(r, cc, x, lo, n, ps[1..])
  }

  function Repeat(b: Regex, cc: nat, x: Subject, min: nat, max: nat, greedy: bool, st: State): (ss: seq<State>)
    requires st.pos <= |x.units|
    ensures StatesBetween(st.pos, ss, |x.units|, |st.caps|)
    decreases b, 1, min, |x.units| + 1 - st.pos, 1
  {
    if max == 0 then [st]
    else if min > 0 then
      RepeatEach(b, cc, x, min - 1, Lower(max), greedy, st.pos, |st.caps|, Matches(b, cc, x, st))
    else if greedy then Optional(b, cc, x, max, greedy, st) + [st]
    else [st] + Optional(b, cc, x, max, greedy, st)
  }

  function Optional(b: Regex, cc: nat, x: Subject, max: nat, greedy: bool, st: State): (ss: seq<State>)
    requires st.pos <= |x.units| && max > 0
    ensures StatesBetween(st.pos + 1, ss, |x.units|, |st.caps|)
    decreases b, 1, 0, |x.units| + 1 - st.pos, 0
  {
    RepeatEach(b, cc, x, 0, Lower(max), greedy, st.pos + 1, |st.caps|,
               AdvancedStates(st.pos, Matches(b, cc, x, st), |x.units|, |st.caps|))
  }

  function RepeatEach(b: Regex, cc: nat, x: Subject, min: nat, max: nat, greedy: bool, lo: nat, ghost n: nat,
                      ps: seq<State>): (ss: seq<State>)
    requires StatesBetween(lo, ps, |x.units|, n)
    ensures StatesBetween(lo, ss, |x.units|, n)
    decreases b, 1, min, |x.units| + 1 - lo, 1 + |ps|
  {
    if ps == [] then []
    else Repeat(b, cc, x, min, max, greedy, ps[0]) + RepeatEach(b, cc, x, min, max, greedy, lo, n, ps[1..])
  }

  function AdvancedStates(i: nat, ps: seq<State>, hi: nat, n: nat): (qs: seq<State>)
    requires StatesBetween(i, ps, hi, n)
    ensures StatesBetween(i + 1, qs, hi, n)
  {
    if ps == [] then []
    else (if ps[0].pos == i then [] else [ps[0]]) + AdvancedStates(i, ps[1..], hi, n)
  }

  lemma MatchesCat(a: Regex, b: Regex, cc: nat, x: Subject, st: State)
    requires st.pos <= |x.units|
    ensures Matches(Cat(a, b), cc, x, st)
         == MatchesEach(b, cc + Captures(a), x, st.pos, |st.caps|, Matches(a, cc, x, st))
  {
    hide MatchesEach, Repeat, CloseEach, AtomEnd, Ends;
  }

  lemma MatchesAlt(a: Regex, b: Regex, cc: nat, x: Subject, st: State)
    requires st.pos <= |x.units|
    ensures Matches(Alt(a, b), cc, x, st) == Matches(a, cc, x, st) + Matches(b, cc + Captures(a), x, st)
  {
    hide MatchesEach, Repeat, CloseEach, AtomEnd, Ends;
  }

  lemma MatchesLook(negated: bool, b: Regex, cc: nat, x: Subject, st: State)
    requires st.pos <= |x.units|
    ensures var inner := Matches(b, cc, x, st);
      Matches(Look(negated, b), cc, x, st) ==
      if inner == [] then (if negated then [st] else [])
      else (if negated then [] else [State(st.pos, inner[0].caps)])
  {
    hide MatchesEach, Repeat, CloseEach, AtomEnd, Ends;
  }

  ///// Forgetting the captures gives the matcher of ECMA-262

  function Positions(ss: seq<State>): (ps: seq<nat>)
    ensures |ps| == |ss|
  {
    seq(|ss|, k requires 0 <= k < |ss| => ss[k].pos)
  }

  lemma {:induction false} PositionsAppend(a: seq<State>, b: seq<State>)
    ensures Positions(a + b) == Positions(a) + Positions(b)
  {
  }

  lemma {:induction false} PositionsAround(more: seq<State>, st: State, after: bool)
    ensures Positions(if after then more + [st] else [st] + more)
         == if after then Positions(more) + [st.pos] else [st.pos] + Positions(more)
  {
  }

  lemma {:induction false} PositionsHead(ss: seq<State>)
    requires ss != []
    ensures Positions(ss) == [ss[0].pos] + Positions(ss[1..])
    ensures Positions(ss)[0] == ss[0].pos && Positions(ss)[1..] == Positions(ss[1..])
  {
  }

  /** The positions of `Matches` are the list of ECMA-262, whatever the captures are. */
  lemma {:induction false} MatchesPositions(r: Regex, cc: nat, x: Subject, st: State)
    requires st.pos <= |x.units|
    ensures Positions(Matches(r, cc, x, st)) == Ends(r, x, st.pos)
    decreases r, 0, 0, 0, 0
  {
    match r
    case Cat(a, b) =>
      MatchesPositions(a, cc, x, st);
      MatchesEachPositions(b, cc + Captures(a), x, st.pos, |st.caps|, Matches(a, cc, x, st));
    case Alt(a, b) =>
      MatchesPositions(a, cc, x, st);
      MatchesPositions(b, cc + Captures(a), x, st);
      PositionsAppend(Matches(a, cc, x, st), Matches(b, cc + Captures(a), x, st));
    case Capture(b) =>
      var started := State(st.pos, SetCapture(st.caps, 2 * cc, Some(st.pos)));
      MatchesPositions(b, cc + 1, x, started);
      ClosePositions(cc, Matches(b, cc + 1, x, started), st.pos, |x.units|, |st.caps|);
    case Look(_, b) => MatchesPositions(b, cc, x, st);
    case Quant(b, min, max, greedy) => RepeatPositions(b, cc, x, min, max, greedy, QuantStart(b, cc, min, st));
    case _ =>
  }

  lemma {:induction false} ClosePositions(cc: nat, ss: seq<State>, lo: nat, hi: nat, n: nat)
    requires StatesBetween(lo, ss, hi, n)
    ensures Positions(CloseEach(cc, ss, lo, hi, n)) == Positions(ss)
  {
    if ss != [] {
      ClosePositions(cc, ss[1..], lo, hi, n);
      PositionsHead(ss);
      PositionsHead(CloseEach(cc, ss, lo, hi, n));
    }
  }

  lemma {:induction false} MatchesEachPositions(r: Regex, cc: nat, x: Subject, lo: nat, n: nat, ps: seq<State>)
    requires StatesBetween(lo, ps, |x.units|, n)
    ensures Positions(MatchesEach(r, cc, x, lo, n, ps)) == EndsEach(r, x, lo, Positions(ps))
    decreases r, 1, 0, 0, |ps|
  {
    if ps != [] {
      MatchesPositions(r, cc, x, ps[0]);
      MatchesEachPositions(r, cc, x, lo, n, ps[1..]);
      PositionsHead(ps);
      PositionsAppend(Matches(r, cc, x, ps[0]), MatchesEach(r, cc, x, lo, n, ps[1..]));
    }
  }

  lemma {:induction false} RepeatPositions(b: Regex, cc: nat, x: Subject, min: nat, max: nat, greedy: bool, st: State)
    requires st.pos <= |x.units|
    ensures Positions(Repeat(b, cc, x, min, max, greedy, st)) == RepeatEnds(b, x, min, max, greedy, st.pos)
    decreases b, 1, min, |x.units| + 1 - st.pos, 1
  {
    if max > 0 && min > 0 {
      MatchesPositions(b, cc, x, st);
      RepeatEachPositions(b, cc, x, min - 1, Lower(max), greedy, st.pos, |st.caps|, Matches(b, cc, x, st));
    } else if max > 0 {
      OptionalPositions(b, cc, x, max, greedy, st);
      PositionsAround(Optional(b, cc, x, max, greedy, st), st, greedy);
    }
  }

  lemma {:induction false} OptionalPositions(b: Regex, cc: nat, x: Subject, max: nat, greedy: bool, st: State)
    requires st.pos <= |x.units| && max > 0
    ensures Positions(Optional(b, cc, x, max, greedy, st)) == OptionalEnds(b, x, max, greedy, st.pos)
    decreases b, 1, 0, |x.units| + 1 - st.pos, 0
  {
    var once := Matches(b, cc, x, st);
    MatchesPositions(b, cc, x, st);
    AdvancedPositions(st.pos, once, |x.units|, |st.caps|);
    RepeatEachPositions(b, cc, x, 0, Lower(max), greedy, st.pos + 1, |st.caps|,
                        AdvancedStates(st.pos, once, |x.units|, |st.caps|));
  }

  lemma {:induction false} RepeatEachPositions(b: Regex, cc: nat, x: Subject, min: nat, max: nat, greedy: bool,
                                               lo: nat, n: nat, ps: seq<State>)
    requires StatesBetween(lo, ps, |x.units|, n)
    ensures Positions(RepeatEach(b, cc, x, min, max, greedy, lo, n, ps))
         == RepeatEndsEach(b, x, min, max, greedy, lo, Positions(ps))
    decreases b, 1, min, |x.units| + 1 - lo, 1 + |ps|
  {
    if ps != [] {
      RepeatPositions(b, cc, x, min, max, greedy, ps[0]);
      RepeatEachPositions(b, cc, x, min, max, greedy, lo, n, ps[1..]);
      PositionsHead(ps);
      PositionsAppend(Repeat(b, cc, x, min, max, greedy, ps[0]),
        RepeatEach(b, cc, x, min, max, greedy, lo, n, ps[1..]));
    }
  }

  lemma {:induction false} AdvancedPositions(i: nat, ps: seq<State>, hi: nat, n: nat)
    requires StatesBetween(i, ps, hi, n)
    ensures Positions(AdvancedStates(i, ps, hi, n)) == Advanced(i, Positions(ps), hi)
  {
    if ps != [] {
      AdvancedPositions(i, ps[1..], hi, n);
      PositionsHead(ps);
      PositionsAppend(if ps[0].pos == i then [] else [ps[0]], AdvancedStates(i, ps[1..], hi, n));
    }
  }
}
