/** Captures recorded by the compiled code: only the term's own groups change, and a
    recorded group is a pair of positions in order. */
module RegexCaptures {
  import opened RegexInput
  import opened RegexSyntax
  import opened RegexSemantics

  /** Group `g` is unset, or its start does not lie behind its end. */
  ghost predicate WellPaired(caps: seq<Option<nat>>, g: nat) {
    2 * g + 1 < |caps| ==>
      (caps[2 * g].None? && caps[2 * g + 1].None?) ||
      (caps[2 * g].Some? && caps[2 * g + 1].Some? && caps[2 * g].value <= caps[2 * g + 1].value)
  }

  ghost predicate SamePair(a: seq<Option<nat>>, b: seq<Option<nat>>, g: nat)
    requires |a| == |b|
  {
    2 * g + 1 < |a| ==> a[2 * g] == b[2 * g] && a[2 * g + 1] == b[2 * g + 1]
  }

  /** From `a` to `b` only the groups `lo..hi` changed, and each of those is as before or well paired. */
  ghost predicate Recorded(lo: nat, hi: nat, a: seq<Option<nat>>, b: seq<Option<nat>>) {
    |a| == |b| &&
    forall g: nat :: SamePair(a, b, g) || (lo <= g < hi && WellPaired(b, g))
  }

  ghost predicate AllRecorded(lo: nat, hi: nat, a: seq<Option<nat>>, ss: seq<State>) {
    forall k :: 0 <= k < |ss| ==> Recorded(lo, hi, a, ss[k].caps)
  }

  lemma RecordedTrans(lo: nat, hi: nat, a: seq<Option<nat>>, b: seq<Option<nat>>, c: seq<Option<nat>>)
    requires Recorded(lo, hi, a, b) && Recorded(lo, hi, b, c)
    ensures Recorded(lo, hi, a, c)
  {
    forall g: nat ensures SamePair(a, c, g) || (lo <= g < hi && WellPaired(c, g)) {
      assert SamePair(b, c, g) || (lo <= g < hi && WellPaired(c, g));
      assert SamePair(a, b, g) || (lo <= g < hi && WellPaired(b, g));
    }
  }

  lemma RecordedWiden(lo: nat, hi: nat, lo2: nat, hi2: nat, a: seq<Option<nat>>, b: seq<Option<nat>>)
    requires Recorded(lo, hi, a, b) && lo2 <= lo && hi <= hi2
    ensures Recorded(lo2, hi2, a, b)
  {
    forall g: nat ensures SamePair(a, b, g) || (lo2 <= g < hi2 && WellPaired(b, g)) {
      assert SamePair(a, b, g) || (lo <= g < hi && WellPaired(b, g));
    }
  }

  lemma AllRecordedFrom(lo: nat, hi: nat, lo2: nat, hi2: nat, a: seq<Option<nat>>, b: seq<Option<nat>>, ss: seq<State>)
    requires Recorded(lo2, hi2, a, b) && AllRecorded(lo, hi, b, ss) && lo2 <= lo && hi <= hi2
    ensures AllRecorded(lo2, hi2, a, ss)
  {
    forall k | 0 <= k < |ss| ensures Recorded(lo2, hi2, a, ss[k].caps) {
      RecordedWiden(lo, hi, lo2, hi2, b, ss[k].caps);
      RecordedTrans(lo2, hi2, a, b, ss[k].caps);
    }
  }

  lemma RecordedSelf(lo: nat, hi: nat, a: seq<Option<nat>>)
    ensures Recorded(lo, hi, a, a)
  {
  }

  lemma ResetRecorded(lo: nat, hi: nat, a: seq<Option<nat>>)
    ensures Recorded(lo, hi, a, ResetCaptures(a, lo, hi))
  {
    var b := ResetCaptures(a, lo, hi);
    forall g: nat ensures SamePair(a, b, g) || (lo <= g < hi && WellPaired(b, g)) {
    }
  }

  /** Every match of `r` records only the groups of `r`. */
  lemma {:induction false} MatchesRecord(r: Regex, cc: nat, x: Subject, st: State)
    requires st.pos <= |x.units|
    ensures AllRecorded(cc, cc + Captures(r), st.caps, Matches(r, cc, x, st))
    decreases r, 0, 0, 0, 0
  {
    hide Recorded, ResetCaptures, SetCapture, Repeat, MatchesEach, CloseEach;
    var hi, caps := cc + Captures(r), st.caps;
    RecordedSelf(cc, hi, caps);
    match r
    case Cat(a, b) =>
      var mid := cc + Captures(a);
      MatchesRecord(a, cc, x, st);
      AllRecordedFrom(cc, mid, cc, hi, caps, caps, Matches(a, cc, x, st));
      MatchesEachRecord(b, mid, x, st.pos, |caps|, Matches(a, cc, x, st), cc, hi, caps);
    case Alt(a, b) =>
      var mid := cc + Captures(a);
      MatchesRecord(a, cc, x, st);
      MatchesRecord(b, mid, x, st);
      AllRecordedFrom(cc, mid, cc, hi, caps, caps, Matches(a, cc, x, st));
      AllRecordedFrom(mid, hi, cc, hi, caps, caps, Matches(b, mid, x, st));
    case Capture(b) =>
      var started := State(st.pos, SetCapture(caps, 2 * cc, Some(st.pos)));
      MatchesRecord(b, cc + 1, x, started);
      CloseRecord(cc, hi, Matches(b, cc + 1, x, started), st, |x.units|);
    case Look(_, b) => MatchesRecord(b, cc, x, st);
    case Quant(b, min, max, greedy) =>
      var start := QuantStart(b, cc, min, st);
      ResetRecorded(cc, hi, caps);
      RepeatRecord(b, cc, x, min, max, greedy, start);
      AllRecordedFrom(cc, hi, cc, hi, caps, start.caps, Repeat(b, cc, x, min, max, greedy, start));
    case _ =>
  }

  lemma {:induction false} CloseRecord(cc: nat, hi: nat, ss: seq<State>, st: State, n: nat)
    requires StatesBetween(st.pos, ss, n, |st.caps|) && cc < hi
    requires AllRecorded(cc + 1, hi, SetCapture(st.caps, 2 * cc, Some(st.pos)), ss)
    ensures AllRecorded(cc, hi, st.caps, CloseEach(cc, ss, st.pos, n, |st.caps|))
    decreases |ss|
  {
    if ss != [] {
      CloseRecord(cc, hi, ss[1..], st, n);
      CloseOne(cc, hi, ss[0], st);
    }
  }

  lemma CloseOne(cc: nat, hi: nat, s: State, st: State)
    requires st.pos <= s.pos && cc < hi && Recorded(cc + 1, hi, SetCapture(st.caps, 2 * cc, Some(st.pos)), s.caps)
    ensures Recorded(cc, hi, st.caps, SetCapture(s.caps, 2 * cc + 1, Some(s.pos)))
  {
    var a, o, b := st.caps, SetCapture(st.caps, 2 * cc, Some(st.pos)), s.caps;
    var c := SetCapture(b, 2 * cc + 1, Some(s.pos));
    forall g: nat ensures SamePair(a, c, g) || (cc <= g < hi && WellPaired(c, g)) {
      assert SamePair(o, b, g) || (cc + 1 <= g < hi && WellPaired(b, g));
      assert SamePair(o, b, cc);
    }
  }

  lemma {:induction false} MatchesEachRecord(r: Regex, cc: nat, x: Subject, lo: nat, n: nat, ps: seq<State>,
                                             first: nat, hi: nat, a: seq<Option<nat>>)
    requires StatesBetween(lo, ps, |x.units|, n) && AllRecorded(first, hi, a, ps)
    requires first <= cc && cc + Captures(r) <= hi
    ensures AllRecorded(first, hi, a, MatchesEach(r, cc, x, lo, n, ps))
    decreases r, 1, 0, 0, |ps|
  {
    hide Recorded, Matches;
    if ps != [] {
      MatchesRecord(r, cc, x, ps[0]);
      AllRecordedFrom(cc, cc + Captures(r), first, hi, a, ps[0].caps, Matches(r, cc, x, ps[0]));
      MatchesEachRecord(r, cc, x, lo, n, ps[1..], first, hi, a);
    }
  }

  lemma {:induction false} RepeatRecord(b: Regex, cc: nat, x: Subject, min: nat, max: nat, greedy: bool, st: State)
    requires st.pos <= |x.units|
    ensures AllRecorded(cc, cc + Captures(b), st.caps, Repeat(b, cc, x, min, max, greedy, st))
    decreases b, 1, min, |x.units| + 1 - st.pos, 1
  {
    hide Recorded, Matches, RepeatEach, AdvancedStates;
    RecordedSelf(cc, cc + Captures(b), st.caps);
    if max > 0 {
      var once := Matches(b, cc, x, st);
      MatchesRecord(b, cc, x, st);
      if min > 0 {
        RepeatEachRecord(b, cc, x, min - 1, Lower(max), greedy, st.pos, |st.caps|, once, st.caps);
      } else {
        AdvancedRecord(cc, cc + Captures(b), st.caps, st.pos, once, |x.units|, |st.caps|);
        RepeatEachRecord(b, cc, x, 0, Lower(max), greedy, st.pos + 1, |st.caps|,
                         AdvancedStates(st.pos, once, |x.units|, |st.caps|), st.caps);
      }
    }
  }

  lemma {:induction false} RepeatEachRecord(b: Regex, cc: nat, x: Subject, min: nat, max: nat, greedy: bool,
                                            lo: nat, n: nat, ps: seq<State>, a: seq<Option<nat>>)
    requires StatesBetween(lo, ps, |x.units|, n) && AllRecorded(cc, cc + Captures(b), a, ps)
    ensures AllRecorded(cc, cc + Captures(b), a, RepeatEach(b, cc, x, min, max, greedy, lo, n, ps))
    decreases b, 1, min, |x.units| + 1 - lo, 1 + |ps|
  {
    hide Recorded, Repeat;
    if ps != [] {
      RepeatRecord(b, cc, x, min, max, greedy, ps[0]);
      AllRecordedFrom(cc, cc + Captures(b), cc, cc + Captures(b), a, ps[0].caps,
        Repeat(b, cc, x, min, max, greedy, ps[0]));
      RepeatEachRecord(b, cc, x, min, max, greedy, lo, n, ps[1..], a);
    }
  }

  lemma {:induction false} AdvancedRecord(lo: nat, hi: nat, a: seq<Option<nat>>, i: nat, ps: seq<State>, top: nat,
        n: nat)
    requires StatesBetween(i, ps, top, n) && AllRecorded(lo, hi, a, ps)
    ensures AllRecorded(lo, hi, a, AdvancedStates(i, ps, top, n))
    decreases |ps|
  {
    hide Recorded;
    if ps != [] { AdvancedRecord(lo, hi, a, i, ps[1..], top, n); }
  }
}
