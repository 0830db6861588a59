/** Sets of code points as sorted sequences of boundaries (`CharRange` of libunicode.h). */
module CharSets {

  const UINT32_MAX := 0xffff_ffff

  type Point = x: int | 0 <= x <= 0xffff_ffff

  type Points = seq<Point>

  ghost predicate NonDecreasing(s: seq<int>) {
    forall i, j :: 0 <= i < j < |s| ==> s[i] <= s[j]
  }

  ghost predicate Increasing(s: seq<int>) {
    forall i, j :: 0 <= i < j < |s| ==> s[i] < s[j]
  }

  /** Boundaries of intervals. */
  ghost predicate Sorted(s: seq<int>) {
    |s| % 2 == 0 && NonDecreasing(s)
  }

  /** Boundaries of intervals that are not empty and do not touch. */
  ghost predicate Canonical(s: seq<int>) {
    |s| % 2 == 0 && Increasing(s)
  }

  /** The interval number `i` contains `c`. */
  ghost predicate Inside(s: seq<int>, i: nat, c: int) {
    2 * i + 1 < |s| && s[2 * i] <= c < s[2 * i + 1]
  }

  /** The set that boundaries denote. */
  ghost predicate Member(s: seq<int>, c: int) {
    exists i: nat :: Inside(s, i, c)
  }

  ///// Membership by counting boundaries

  /** How many boundaries are at most `c`. */
  ghost function Count(s: seq<int>, c: int): nat {
    if s == [] then 0 else Count(s[..|s| - 1], c) + (if s[|s| - 1] <= c then 1 else 0)
  }

  ghost predicate Odd(s: seq<int>, c: int) {
    Count(s, c) % 2 == 1
  }

  lemma CountSnoc(s: seq<int>, v: int, c: int)
    ensures Count(s + [v], c) == Count(s, c) + (if v <= c then 1 else 0)
  {
    assert (s + [v])[..|s|] == s;
  }

  lemma {:induction false} CountConcat(s: seq<int>, t: seq<int>, c: int)
    ensures Count(s + t, c) == Count(s, c) + Count(t, c)
  {
    if t == [] {
      assert s + t == s;
    } else {
      var n := |t| - 1;
      CountConcat(s, t[..n], c);
      assert s + t == (s + t[..n]) + [t[n]];
      CountSnoc(s + t[..n], t[n], c);
    }
  }

  lemma {:induction false} CountAll(s: seq<int>, c: int)
    requires forall i :: 0 <= i < |s| ==> s[i] <= c
    ensures Count(s, c) == |s|
  {
    if s != [] {
      CountAll(s[..|s| - 1], c);
    }
  }

  lemma {:induction false} CountNone(s: seq<int>, c: int)
    requires forall i :: 0 <= i < |s| ==> s[i] > c
    ensures Count(s, c) == 0
  {
    if s != [] {
      CountNone(s[..|s| - 1], c);
    }
  }

  /** Where the boundaries at most `c` end. */
  lemma {:induction false} CountSplits(s: seq<int>, c: int)
    requires NonDecreasing(s)
    ensures Count(s, c) <= |s|
    ensures forall i :: 0 <= i < |s| ==> (s[i] <= c <==> i < Count(s, c))
  {
    if s != [] {
      var n := |s| - 1;
      CountSplits(s[..n], c);
      forall i | 0 <= i < |s|
        ensures s[i] <= c <==> i < Count(s, c)
      {
        if i < n {
          assert s[..n][i] == s[i];
        }
        if s[n] <= c && n > 0 {
          assert s[..n][n - 1] <= c;
        }
      }
    }
  }

  /** A code point is in the set when an odd number of boundaries is at or below it. */
  lemma MemberIsOdd(s: seq<int>, c: int)
    requires Sorted(s)
    ensures Member(s, c) <==> Odd(s, c)
  {
    CountSplits(s, c);
    var k := Count(s, c);
    if k % 2 == 1 {
      var i := (k - 1) / 2;
      assert Inside(s, i, c);
    }
    if Member(s, c) {
      var i: nat :| Inside(s, i, c);
      assert k == 2 * i + 1;
    }
  }

  lemma SameOddSameMember(s: seq<int>, t: seq<int>)
    requires Sorted(s) && Sorted(t) && forall c :: Odd(s, c) == Odd(t, c)
    ensures forall c :: Member(s, c) == Member(t, c)
  {
    forall c
      ensures Member(s, c) == Member(t, c)
    {
      MemberIsOdd(s, c);
      MemberIsOdd(t, c);
    }
  }

  ///// There is one canonical sequence for each set

  lemma FirstMember(s: seq<int>)
    requires Canonical(s) && s != []
    ensures Member(s, s[0]) && !Member(s, s[1]) && forall c :: c < s[0] ==> !Member(s, c)
    ensures forall c :: s[0] <= c < s[1] ==> Member(s, c)
    ensures forall c :: c >= s[1] ==> Member(s, c) == Member(s[2..], c)
    ensures forall c :: c < s[1] ==> !Member(s[2..], c)
  {
    assert Inside(s, 0, s[0]);
    forall c | s[0] <= c < s[1]
      ensures Member(s, c)
    {
      assert Inside(s, 0, c);
    }
    forall c | c >= s[1]
      ensures Member(s, c) == Member(s[2..], c)
    {
      if Member(s, c) {
        var i: nat :| Inside(s, i, c);
        assert i > 0 && Inside(s[2..], i - 1, c);
      }
      if Member(s[2..], c) {
        var i: nat :| Inside(s[2..], i, c);
        assert Inside(s, i + 1, c);
      }
    }
    forall c | c < s[1]
      ensures !Member(s[2..], c)
    {
      forall i: nat
        ensures !Inside(s[2..], i, c)
      {
        if 2 * i + 1 < |s[2..]| {
          assert s[2..][2 * i] == s[2 * i + 2];
        }
      }
    }
  }

  lemma {:induction false} CanonicalUnique(s: seq<int>, t: seq<int>)
    requires Canonical(s) && Canonical(t) && forall c :: Member(s, c) == Member(t, c)
    ensures s == t
    decreases |s|
  {
    if s == [] {
      if t != [] {
        FirstMember(t);
      }
    } else if t == [] {
      FirstMember(s);
    } else {
      FirstMember(s);
      FirstMember(t);
      assert s[0] == t[0];
      assert s[1] == t[1];
      forall c
        ensures Member(s[2..], c) == Member(t[2..], c)
      {
      }
      CanonicalUnique(s[2..], t[2..]);
      assert s == [s[0], s[1]] + s[2..] && t == [t[0], t[1]] + t[2..];
    }
  }
}
