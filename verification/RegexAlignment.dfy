/** A run is right exactly when its start index does not split a surrogate pair: from inside a pair the code reads the
    low unit as a character of its own, where the standard starts from the whole pair. */
module RegexAlignment {
  import opened RegexInput
  import opened RegexSyntax
  import opened RegexSemantics
  import opened RegexCode
  import opened RegexCompile
  import opened RegexVM
  import opened RegexProgram
  import opened RegexSearch
  import opened RegexFit

  ///// The witness: the low unit of the pair that the start index splits

  function Witness(low: int): (r: Regex)
    requires 0xDC00 <= low <= 0xDFFF
    ensures Valid(r) && ClassesFit(r) && Captures(r) == 0
  {
    Chr(low)
  }

  /** The standard takes the whole pair for the character at `c`, which is not its low unit. */
  lemma WitnessNoMatch(x: Subject, c: nat)
    requires c < |x.units| && PairAt(x, c - 1)
    ensures Search(Witness(x.units[c]), x, c, true) == None
  {
    assert CharAt(x, c - 1) >= 0x10000;
    assert Ends(Witness(x.units[c]), x, c - 1) == [];
  }

  lemma WitnessCode(low: int)
    requires 0xDC00 <= low <= 0xDFFF
    ensures ProgramCode(Witness(low), true) == [ISave(false, 0)] + [IChar16(low)] + [ISave(true, 0), IMatch]
    ensures AllFit(ProgramCode(Witness(low), true)) && CodeOf(Witness(low), 1) == [IChar16(low)] &&
      CodeSize([IChar16(low)]) == 3
  {
    hide CodeSize;
    assert SearchPrefix(true) == [];
    Size1(IChar16(low));
  }

  /** A buffer that holds the witness. */
  lemma WitnessLoads(x: Subject, low: int) returns (m: Machine)
    requires 0xDC00 <= low <= 0xDFFF
    ensures m.x == x && Loaded(m, Witness(low), true)
  {
    hide Assemble, At, CodeSize, CodeOf, ProgramCode;
    WitnessCode(low);
    var code := ProgramCode(Witness(low), true);
    var bc := Assemble(code);
    assert bc[0..CodeSize(code)] == Assemble(code);
    AssembledAt(bc, 0, code);
    m := Machine(bc, x, 1);
  }

  /** The code takes the low unit for the character at `c`, and matches. */
  lemma WitnessRun(m: Machine, c: nat) returns (result: Option<seq<Option<nat>>>)
    requires c < |m.x.units| && PairAt(m.x, c - 1) && Loaded(m, Witness(m.x.units[c]), true)
    ensures Reaches(m, StartConfig(m, c), Done(result)) && result.Some?
  {
    hide Fetch, At, CodeSize, ProgramCode, CodeOf, Reaches;
    var low := m.x.units[c];
    WitnessCode(low);
    ProgramLayout(m, Witness(low), true);
    OneAt(m.bc, 2, IChar16(low));
    var caps := SetCapture(NoCaptures(m.captureCount), 0, Some(c));
    var end := SetCapture(caps, 1, Some(c + 1));
    assert CharAt(m.x, c) == low && NextPos(m.x, c) == c + 1;
    var start, body := StartConfig(m, c), Run(2, State(c, caps), [], []);
    var after, last := Run(5, State(c + 1, caps), [], []), Run(7, State(c + 1, end), [], []);
    ReachesStep(m, start, body);
    ReachesStep(m, body, after);
    ReachesStep(m, after, last);
    ReachesStep(m, last, Succeed(end, []));
    ReachesStep(m, Succeed(end, []), Done(Some(end)));
    ReachesTrans(m, start, body, after);
    ReachesTrans(m, start, after, last);
    ReachesTrans(m, start, last, Succeed(end, []));
    ReachesTrans(m, start, Succeed(end, []), Done(Some(end)));
    result := Some(end);
  }

  ///// The exact condition

  /** The compiled program for `r` reports the right match at `c`, whatever buffer holds it. */
  ghost predicate RunsCorrectly(x: Subject, r: Regex, sticky: bool, c: nat)
    requires Valid(r) && c <= |x.units|
  {
    forall m: Machine :: m.x == x && Loaded(m, r, sticky) ==>
      exists result :: Reaches(m, StartConfig(m, c), Done(result)) &&
                       Correct(result, Search(r, x, c, sticky), r, x)
  }

  lemma {:induction false} DoneUnique(m: Machine, c: Config, a: Option<seq<Option<nat>>>, b: Option<seq<Option<nat>>>)
    requires Reaches(m, c, Done(a)) && Reaches(m, c, Done(b))
    ensures a == b
  {
    var i: nat :| Steps(m, c, i) == Done(a);
    var j: nat :| Steps(m, c, j) == Done(b);
    if i <= j {
      StepsAdd(m, c, i, j - i);
      DoneStays(m, a, j - i);
    } else {
      StepsAdd(m, c, j, i - j);
      DoneStays(m, b, i - j);
    }
  }

  lemma {:induction false} DoneStays(m: Machine, a: Option<seq<Option<nat>>>, n: nat)
    ensures Steps(m, Done(a), n) == Done(a)
    decreases n
  {
    if n > 0 { DoneStays(m, a, n - 1); }
  }

  /** Every compiled program is right at `c` if and only if `c` does not split a surrogate pair. */
  lemma CorrectIffAligned(x: Subject, c: nat)
    requires c <= |x.units|
    ensures Aligned(x, c) <==> forall r, sticky :: Valid(r) ==> RunsCorrectly(x, r, sticky, c)
  {
    hide RunsCorrectly, PairAt;
    if Aligned(x, c) {
      forall r, sticky | Valid(r) ensures RunsCorrectly(x, r, sticky, c) {
        AlignedRuns(x, r, sticky, c);
      }
    } else {
      var r := SplitPairFails(x, c);
      assert !RunsCorrectly(x, r, true, c);
    }
  }

  lemma AlignedRuns(x: Subject, r: Regex, sticky: bool, c: nat)
    requires c <= |x.units| && Aligned(x, c) && Valid(r)
    ensures RunsCorrectly(x, r, sticky, c)
  {
    hide Reaches, Correct, Search, At, PairAt, Loaded, Valid, StartConfig, Captures;
    forall m: Machine | m.x == x && Loaded(m, r, sticky)
      ensures exists result :: Reaches(m, StartConfig(m, c), Done(result)) &&
                               Correct(result, Search(r, x, c, sticky), r, x)
    {
      var result := ExecCorrect(m, r, sticky, c);
    }
  }

  lemma SplitPairFails(x: Subject, c: nat) returns (r: Regex)
    requires c <= |x.units| && !Aligned(x, c)
    ensures Valid(r) && !RunsCorrectly(x, r, true, c)
  {
    hide Reaches, Search, At, CharAt;
    r := Witness(x.units[c]);
    var m := WitnessLoads(x, x.units[c]);
    WitnessNoMatch(x, c);
    var found := WitnessRun(m, c);
    forall result | Reaches(m, StartConfig(m, c), Done(result)) ensures result == found {
      DoneUnique(m, StartConfig(m, c), result, found);
    }
  }
}
