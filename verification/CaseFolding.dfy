/** Sorting and merging of intervals, and the case folding of a character set
    (`cr_sort_and_remove_overlap` and `cr_regexp_canonicalize` of libunicode.c). */
module CaseFolding {
  import opened Sorting
  import Quicksort
  import opened CharSets
  import opened CharRanges

  ///// Intervals

  type Interval = (Point, Point)

  /** Every pair of boundaries is an interval that is not empty. */
  ghost predicate Proper(s: Points) {
    |s| % 2 == 0 && forall i: nat :: 2 * i + 1 < |s| ==> ProperAt(s, i)
  }

  ghost predicate ProperAt(s: Points, i: nat)
    requires 2 * i + 1 < |s|
  {
    s[2 * i] < s[2 * i + 1]
  }

  lemma MemberSnoc(s: Points, a: Point, b: Point, c: int)
    requires |s| % 2 == 0
    ensures Member(s + [a, b], c) == (Member(s, c) || a <= c < b)
  {
    var t := s + [a, b];
    if Member(t, c) {
      var i: nat :| Inside(t, i, c);
      if 2 * i + 1 < |s| {
        assert Inside(s, i, c);
      }
    }
    if Member(s, c) {
      var i: nat :| Inside(s, i, c);
      assert Inside(t, i, c);
    }
    if a <= c < b {
      assert Inside(t, |s| / 2, c);
    }
  }

  ghost predicate Covers(iv: Interval, c: int) {
    iv.0 <= c < iv.1
  }

  ghost predicate CoveredBy(ivs: seq<Interval>, c: int) {
    exists i :: 0 <= i < |ivs| && Covers(ivs[i], c)
  }

  lemma CoveredSnoc(ivs: seq<Interval>, iv: Interval, c: int)
    ensures CoveredBy(ivs + [iv], c) == (CoveredBy(ivs, c) || Covers(iv, c))
  {
    var t := ivs + [iv];
    if CoveredBy(ivs, c) {
      var i :| 0 <= i < |ivs| && Covers(ivs[i], c);
      assert Covers(t[i], c);
    }
    if Covers(iv, c) {
      assert Covers(t[|ivs|], c);
    }
    if CoveredBy(t, c) {
      var i :| 0 <= i < |t| && Covers(t[i], c);
      if i < |ivs| {
        assert Covers(ivs[i], c);
      }
    }
  }

  /** The order of intervals does not matter. */
  lemma CoveredRearranged(s: seq<Interval>, t: seq<Interval>, c: int)
    requires multiset(s) == multiset(t) && CoveredBy(s, c)
    ensures CoveredBy(t, c)
  {
    var i :| 0 <= i < |s| && Covers(s[i], c);
    assert s[i] in multiset(t);
    assert s[i] in t;
    var j :| 0 <= j < |t| && t[j] == s[i];
    assert Covers(t[j], c);
  }

  /** The boundaries as intervals. */
  ghost predicate Pairs(s: Points, ivs: seq<Interval>) {
    |s| == 2 * |ivs| && forall i: nat :: i < |ivs| ==> PairAt(s, ivs, i)
  }

  ghost predicate PairAt(s: Points, ivs: seq<Interval>, i: nat)
    requires |s| == 2 * |ivs| && i < |ivs|
  {
    s[2 * i] == ivs[i].0 && s[2 * i + 1] == ivs[i].1
  }

  lemma PairsMember(s: Points, ivs: seq<Interval>, c: int)
    requires Pairs(s, ivs)
    ensures Member(s, c) == CoveredBy(ivs, c)
  {
    if Member(s, c) {
      var i: nat :| Inside(s, i, c);
      assert PairAt(s, ivs, i);
      assert Covers(ivs[i], c);
    }
    if CoveredBy(ivs, c) {
      var i :| 0 <= i < |ivs| && Covers(ivs[i], c);
      assert PairAt(s, ivs, i);
      assert Inside(s, i, c);
    }
  }

  ///// Sorting

  function PointCmp(p: Interval, q: Interval): int {
    if p.0 > q.0 then 1 else if p.0 < q.0 then -1 else 0
  }

  /** Each interval is proper, and they are ordered by their first boundary. */
  ghost predicate Ordered(ivs: seq<Interval>) {
    (forall i :: 0 <= i < |ivs| ==> ivs[i].0 < ivs[i].1) && forall i, j :: 0 <= i < j < |ivs| ==> ivs[i].0 <= ivs[j].0
  }

  method SortPairs(cr: CharRange) returns (ghost ivs: seq<Interval>)
    requires Proper(cr.points)
    modifies cr
    ensures Pairs(cr.points, ivs) && Ordered(ivs)
    ensures forall c :: CoveredBy(ivs, c) == Member(old(cr.points), c)
  {
    ghost var s := cr.points;
    var n := |cr.points| / 2;
    var points := cr.points;
    var a := new Interval[n](i requires 0 <= i < n => (points[2 * i], points[2 * i + 1]));
    ghost var was := a[..];
    assert Pairs(s, was);
    Quicksort.QuickSort(a, PointCmp);
    ivs := a[..];
    SortedPairs(s, was, ivs);
    var out: Points := [];
    for k := 0 to n
      invariant Pairs(out, ivs[..k]) && ivs == a[..] && cr.points == s
    {
      out := Append(out, a[k], ivs[..k]);
      assert ivs[..k + 1] == ivs[..k] + [a[k]];
    }
    assert ivs[..n] == ivs;
    cr.points := out;
  }

  method Append(s: Points, iv: Interval, ghost ivs: seq<Interval>) returns (t: Points)
    requires Pairs(s, ivs)
    ensures t == s + [iv.0, iv.1] && Pairs(t, ivs + [iv])
  {
    t := s + [iv.0, iv.1];
    forall i: nat | i < |ivs + [iv]|
      ensures PairAt(t, ivs + [iv], i)
    {
      if i < |ivs| {
        assert PairAt(s, ivs, i);
      }
    }
  }

  lemma SortedPairs(s: Points, was: seq<Interval>, ivs: seq<Interval>)
    requires Proper(s) && Pairs(s, was) && multiset(ivs) == multiset(was) && SortedFrom(ivs, PointCmp, 0, |ivs|)
    ensures Ordered(ivs) && forall c :: CoveredBy(ivs, c) == Member(s, c)
  {
    forall i | 0 <= i < |ivs|
      ensures ivs[i].0 < ivs[i].1
    {
      assert ivs[i] in multiset(was);
      assert ivs[i] in was;
      var j :| 0 <= j < |was| && was[j] == ivs[i];
      assert PairAt(s, was, j) && ProperAt(s, j);
    }
    forall c
      ensures CoveredBy(ivs, c) == Member(s, c)
    {
      PairsMember(s, was, c);
      if CoveredBy(ivs, c) {
        CoveredRearranged(ivs, was, c);
      }
      if CoveredBy(was, c) {
        CoveredRearranged(was, ivs, c);
      }
    }
  }

  ///// Merging

  /** The boundaries written so far denote what the first intervals cover, and end before the next begins. */
  ghost predicate Merged(out: Points, ivs: seq<Interval>, i: nat) {
    i <= |ivs| && Canonical(out) && |out| <= 2 * i && (out != [] && i < |ivs| ==> out[|out| - 1] < ivs[i].0) &&
    forall c :: Member(out, c) == CoveredBy(ivs[..i], c)
  }

  /** The same with an interval that is being extended. */
  ghost predicate Extending(out: Points, start: Point, end: Point, ivs: seq<Interval>, i: nat) {
    0 < i <= |ivs| && Canonical(out) && |out| + 2 <= 2 * i && (out != [] ==> out[|out| - 1] < start) && start < end &&
    start <= ivs[i - 1].0 && forall c :: SameCover(out, start, end, ivs[..i], c)
  }

  ghost predicate SameCover(out: Points, start: Point, end: Point, ivs: seq<Interval>, c: int) {
    (Member(out, c) || start <= c < end) == CoveredBy(ivs, c)
  }

  lemma BeginInterval(out: Points, ivs: seq<Interval>, i: nat)
    requires Ordered(ivs) && Merged(out, ivs, i) && i < |ivs|
    ensures Extending(out, ivs[i].0, ivs[i].1, ivs, i + 1)
  {
    var first := ivs[..i + 1];
    forall c
      ensures SameCover(out, ivs[i].0, ivs[i].1, first, c)
    {
      assert ivs[..i + 1] == ivs[..i] + [ivs[i]];
      CoveredSnoc(ivs[..i], ivs[i], c);
      assert Member(out, c) == CoveredBy(ivs[..i], c);
    }
  }

  lemma ExtendInterval(out: Points, start: Point, end: Point, ivs: seq<Interval>, i: nat)
    requires Ordered(ivs) && Extending(out, start, end, ivs, i) && i < |ivs| && ivs[i].0 <= end
    ensures Extending(out, start, if ivs[i].1 <= end then end else ivs[i].1, ivs, i + 1)
  {
    var end2: Point := if ivs[i].1 <= end then end else ivs[i].1;
    assert ivs[i - 1].0 <= ivs[i].0;
    assert |out| + 2 <= 2 * (i + 1) && start < end2;
    var first := ivs[..i + 1];
    forall c
      ensures SameCover(out, start, end2, first, c)
    {
      assert ivs[..i + 1] == ivs[..i] + [ivs[i]];
      CoveredSnoc(ivs[..i], ivs[i], c);
      assert SameCover(out, start, end, ivs[..i], c);
    }
  }

  lemma EndInterval(out: Points, start: Point, end: Point, ivs: seq<Interval>, i: nat)
    requires Ordered(ivs) && Extending(out, start, end, ivs, i) && (i < |ivs| ==> ivs[i].0 > end)
    ensures Merged(out + [start, end], ivs, i)
  {
    forall c
      ensures Member(out + [start, end], c) == CoveredBy(ivs[..i], c)
    {
      MemberSnoc(out, start, end, c);
      assert SameCover(out, start, end, ivs[..i], c);
    }
  }

  /** The boundaries that are still to be read are those of the intervals. */
  ghost predicate Unread(p: Points, ivs: seq<Interval>, i: nat) {
    |p| == 2 * |ivs| && forall k: nat :: i <= k < |ivs| ==> PairAt(p, ivs, k)
  }

  lemma WritePair(p: Points, ivs: seq<Interval>, i: nat, j: nat, start: Point, end: Point)
    requires Unread(p, ivs, i) && j % 2 == 0 && j + 2 <= 2 * i && i <= |ivs|
    ensures var q := p[j := start][j + 1 := end]; Unread(q, ivs, i) && q[..j + 2] == p[..j] + [start, end]
  {
    var q := p[j := start][j + 1 := end];
    forall k: nat | i <= k < |ivs|
      ensures PairAt(q, ivs, k)
    {
      assert PairAt(p, ivs, k);
    }
  }

  /** Sorts the intervals and merges those that overlap or touch, in place. */
  method SortAndRemoveOverlap(cr: CharRange)
    requires Proper(cr.points)
    modifies cr
    ensures Canonical(cr.points)
    ensures forall c :: Member(cr.points, c) == Member(old(cr.points), c)
  {
    hide Pairs, PairAt, Ordered, Member, CoveredBy, Merged, Extending, Unread, Canonical;
    var i, j := 0, 0;
    ghost var ivs := SortPairs(cr);
    MergeBegins(cr.points, ivs);
    assert cr.points[..0] == [];
    while i < |cr.points|
      invariant 0 <= j <= i <= |cr.points| == 2 * |ivs| && i % 2 == 0 && j % 2 == 0
      invariant Unread(cr.points, ivs, i / 2) && Merged(cr.points[..j], ivs, i / 2)
      decreases |cr.points| - i
    {
      ghost var p, out := cr.points, cr.points[..j];
      UnreadAt(p, ivs, i / 2);
      var start, end := cr.points[i], cr.points[i + 1];
      BeginInterval(out, ivs, i / 2);
      i := i + 2;
      while i < |cr.points|
        invariant 0 <= j < i <= |cr.points| == 2 * |ivs| && i % 2 == 0 && cr.points == p
        invariant Unread(p, ivs, i / 2) && Extending(out, start, end, ivs, i / 2)
        decreases |cr.points| - i
      {
        UnreadAt(p, ivs, i / 2);
        var start1, end1 := cr.points[i], cr.points[i + 1];
        if start1 > end {
          break;
        }
        ExtendInterval(out, start, end, ivs, i / 2);
        if end1 > end {
          end := end1;
        }
        i := i + 2;
      }
      EndInterval(out, start, end, ivs, i / 2);
      ExtendingRoom(out, start, end, ivs, i / 2);
      WritePair(p, ivs, i / 2, j, start, end);
      cr.points := cr.points[j := start];
      cr.points := cr.points[j + 1 := end];
      j := j + 2;
    }
    cr.points := cr.points[..j];
    MergeEnds(cr.points, ivs);
  }

  lemma MergeBegins(p: Points, ivs: seq<Interval>)
    requires Pairs(p, ivs)
    ensures |p| == 2 * |ivs| && Unread(p, ivs, 0) && Merged([], ivs, 0)
  {
    assert ivs[..0] == [];
  }

  lemma MergeEnds(out: Points, ivs: seq<Interval>)
    requires Merged(out, ivs, |ivs|)
    ensures Canonical(out) && forall c :: Member(out, c) == CoveredBy(ivs, c)
  {
    assert ivs[..|ivs|] == ivs;
  }

  lemma UnreadAt(p: Points, ivs: seq<Interval>, i: nat)
    requires Unread(p, ivs, i) && i < |ivs|
    ensures |p| == 2 * |ivs| && p[2 * i] == ivs[i].0 && p[2 * i + 1] == ivs[i].1 && Unread(p, ivs, i + 1)
  {
    assert PairAt(p, ivs, i);
  }

  lemma ExtendingRoom(out: Points, start: Point, end: Point, ivs: seq<Interval>, i: nat)
    requires Extending(out, start, end, ivs, i)
    ensures |out| + 2 <= 2 * i && i <= |ivs|
  {
  }

  ///// Case folding

  /** An entry of the conversion table: a run of code points. */
  datatype Entry = Entry(code: nat, len: nat)

  predicate InEntry(e: Entry, c: int) {
    e.code <= c < e.code + e.len
  }

  /** The entries are sorted and do not overlap. */
  ghost predicate TableSorted(table: seq<Entry>) {
    forall i, j :: 0 <= i < j < |table| ==> table[i].code + table[i].len <= table[j].code
  }

  ghost predicate InTable(table: seq<Entry>, c: int) {
    exists i :: 0 <= i < |table| && InEntry(table[i], c)
  }

  /** The entry of a code point. */
  ghost function EntryOf(table: seq<Entry>, c: int): (i: nat)
    requires InTable(table, c)
    ensures i < |table| && InEntry(table[i], c)
  {
    var i :| 0 <= i < |table| && InEntry(table[i], c);
    i
  }

  lemma EntryOnly(table: seq<Entry>, c: int, i: nat)
    requires TableSorted(table) && i < |table| && InEntry(table[i], c)
    ensures InTable(table, c) && EntryOf(table, c) == i
  {
    OneEntry(table, c);
  }

  lemma OneEntry(table: seq<Entry>, c: int)
    requires TableSorted(table)
    ensures forall i, j :: 0 <= i < j < |table| ==> !(InEntry(table[i], c) && InEntry(table[j], c))
  {
  }

  /** The conversion of a code point, given its entry; it is a code point itself. */
  type Folding = (Point, nat) -> Point

  ghost predicate FoldsToCodePoints(fold: Folding) {
    forall c: Point, i: nat :: fold(c, i) < UINT32_MAX
  }

  /** Case folding: the conversion on the mask, the identity elsewhere. */
  ghost function Folded(mask: Points, table: seq<Entry>, fold: Folding, c: Point): Point {
    if Member(mask, c) && InTable(table, c) then fold(c, EntryOf(table, c)) else c
  }

  /** `d` is the folding of a member below `cur`. */
  ghost predicate ImageBelow(s: Points, mask: Points, table: seq<Entry>, fold: Folding, cur: int, d: int) {
    exists c: Point :: Member(s, c) && c < cur && Folded(mask, table, fold, c) == d
  }

  /** The intervals written, and the one being extended, are the image so far. */
  ghost predicate ImageWritten(s: Points, mask: Points, table: seq<Entry>, fold: Folding, cur: int, out: Points,
        open: bool, start: Point, end: Point) {
    Proper(out) && (open ==> start < end) &&
    forall d :: ImageAt(s, mask, table, fold, cur, out, open, start, end, d)
  }

  ghost predicate ImageAt(s: Points, mask: Points, table: seq<Entry>, fold: Folding, cur: int, out: Points, open: bool,
        start: Point, end: Point, d: int) {
    (Member(out, d) || (open && start <= d < end)) == ImageBelow(s, mask, table, fold, cur, d)
  }

  lemma ImageStep(s: Points, mask: Points, table: seq<Entry>, fold: Folding, cur: Point, d: int)
    ensures ImageBelow(s, mask, table, fold, cur + 1, d) ==
      (ImageBelow(s, mask, table, fold, cur, d) || (Member(s, cur) && Folded(mask, table, fold, cur) == d))
  {
    var next := cur + 1;
    if ImageBelow(s, mask, table, fold, next, d) {
      var c: Point :| Member(s, c) && c < next && Folded(mask, table, fold, c) == d;
      if c != cur {
        assert c < cur;
      }
    }
  }

  lemma ImageSkip(s: Points, mask: Points, table: seq<Entry>, fold: Folding, cur: int, next: int, out: Points,
        open: bool, start: Point, end: Point)
    requires ImageWritten(s, mask, table, fold, cur, out, open, start, end) && cur <= next
    requires forall c :: cur <= c < next ==> !Member(s, c)
    ensures ImageWritten(s, mask, table, fold, next, out, open, start, end)
  {
    forall d
      ensures ImageAt(s, mask, table, fold, next, out, open, start, end, d)
    {
      assert ImageAt(s, mask, table, fold, cur, out, open, start, end, d);
      if ImageBelow(s, mask, table, fold, next, d) {
        var c: Point :| Member(s, c) && c < next && Folded(mask, table, fold, c) == d;
        assert c < cur;
      }
    }
  }

  lemma NoMember(d: int)
    ensures !Member([], d)
  {
  }

  lemma ImageStarts(s: Points, mask: Points, table: seq<Entry>, fold: Folding)
    ensures ImageWritten(s, mask, table, fold, 0, [], false, 0, 0)
  {
    forall d
      ensures ImageAt(s, mask, table, fold, 0, [], false, 0, 0, d)
    {
      NoMember(d);
    }
  }

  lemma ProperSnoc(out: Points, start: Point, end: Point)
    requires Proper(out) && start < end
    ensures Proper(out + [start, end])
  {
    var t := out + [start, end];
    forall i: nat | 2 * i + 1 < |t|
      ensures ProperAt(t, i)
    {
      if 2 * i + 1 < |out| {
        assert ProperAt(out, i);
      }
    }
  }

  /** The code point `d` joins the interval being extended. */
  lemma ImageJoins(s: Points, mask: Points, table: seq<Entry>, fold: Folding, cur: Point, out: Points, start: Point,
        end: Point)
    requires ImageWritten(s, mask, table, fold, cur, out, true, start, end) && Member(s, cur)
    requires Folded(mask, table, fold, cur) == end < UINT32_MAX
    ensures ImageWritten(s, mask, table, fold, cur + 1, out, true, start, end + 1)
  {
    var next, end2 := cur + 1, end + 1;
    forall d
      ensures ImageAt(s, mask, table, fold, next, out, true, start, end2, d)
    {
      assert ImageAt(s, mask, table, fold, cur, out, true, start, end, d);
      ImageStep(s, mask, table, fold, cur, d);
    }
  }

  /** The code point starts a new interval; the one before, if any, is written. */
  lemma ImageBegins(s: Points, mask: Points, table: seq<Entry>, fold: Folding, cur: Point, out: Points, open: bool,
        start: Point, end: Point, f: Point)
    requires ImageWritten(s, mask, table, fold, cur, out, open, start, end) && Member(s, cur)
    requires Folded(mask, table, fold, cur) == f < UINT32_MAX
    ensures var out2 := if open then out + [start, end] else out;
      ImageWritten(s, mask, table, fold, cur + 1, out2, true, f, f + 1)
  {
    var out2 := if open then out + [start, end] else out;
    if open {
      ProperSnoc(out, start, end);
    }
    var next, f2 := cur + 1, f + 1;
    forall d
      ensures ImageAt(s, mask, table, fold, next, out2, true, f, f2, d)
    {
      assert ImageAt(s, mask, table, fold, cur, out, open, start, end, d);
      ImageStep(s, mask, table, fold, cur, d);
      if open {
        MemberSnoc(out, start, end, d);
      }
    }
  }

  lemma ImageEnds(s: Points, mask: Points, table: seq<Entry>, fold: Folding, cur: int, out: Points, open: bool,
        start: Point, end: Point, d: int)
    requires ImageWritten(s, mask, table, fold, cur, out, open, start, end)
    ensures var out2 := if open then out + [start, end] else out;
      Proper(out2) && Member(out2, d) == ImageBelow(s, mask, table, fold, cur, d)
  {
    assert ImageAt(s, mask, table, fold, cur, out, open, start, end, d);
    if open {
      ProperSnoc(out, start, end);
      MemberSnoc(out, start, end, d);
    }
  }

  /** The entry of a code point, searched from the entry before. */
  method FindEntry(table: seq<Entry>, c: Point, idx0: nat) returns (idx: nat)
    requires TableSorted(table) && InTable(table, c) && idx0 < |table|
    requires forall k :: 0 <= k < idx0 ==> table[k].code + table[k].len <= c
    ensures idx == EntryOf(table, c) && idx < |table|
    ensures forall k :: 0 <= k < idx ==> table[k].code + table[k].len <= c
  {
    ghost var goal := EntryOf(table, c);
    idx := idx0;
    while !InEntry(table[idx], c)
      invariant idx <= goal < |table|
      invariant forall k :: 0 <= k < idx ==> table[k].code + table[k].len <= c
      decreases |table| - idx
    {
      assert idx != goal;
      assert table[idx].code + table[idx].len <= table[goal].code;
      idx := idx + 1;
    }
    EntryOnly(table, c, idx);
  }

  /** The conversion of the code points of canonical boundaries, as intervals in no particular order. */
  method FoldIntervals(s: Points, mask: Points, table: seq<Entry>, fold: Folding) returns (result: CharRange)
    requires Canonical(s) && TableSorted(table) && FoldsToCodePoints(fold)
    requires forall c :: Member(s, c) ==> Member(mask, c) && InTable(table, c)
    ensures fresh(result) && Proper(result.points)
    ensures forall d :: Member(result.points, d) == ImageBelow(s, mask, table, fold, UINT32_MAX, d)
  {
    hide Member, ImageWritten, InTable, EntryOf, Canonical, Proper;
    result := new CharRange();
    var open, start: Point, end: Point, idx: nat, cur := false, 0, 0, 0, 0;
    ImageStarts(s, mask, table, fold);
    EvenBoundaries(s);
    for i := 0 to |s| / 2
      invariant 0 <= cur <= UINT32_MAX && (i > 0 ==> cur == s[2 * i - 1]) && (i == 0 ==> cur == 0 && idx == 0)
      invariant ImageWritten(s, mask, table, fold, cur, result.points, open, start, end)
      invariant idx < |table| || idx == 0
      invariant forall k :: 0 <= k < idx && k < |table| ==> table[k].code + table[k].len <= cur
    {
      var first, last := s[2 * i], s[2 * i + 1];
      GapBefore(s, i, cur);
      ImageSkip(s, mask, table, fold, cur, first, result.points, open, start, end);
      var c: Point := first;
      ghost var from := cur;
      while c < last
        invariant first <= c <= last && (idx < |table| || idx == 0)
        invariant ImageWritten(s, mask, table, fold, c, result.points, open, start, end)
        invariant forall k :: 0 <= k < idx && k < |table| ==> table[k].code + table[k].len <= c
        decreases last - c
      {
        InsideIsMember(s, i, c);
        TableNotEmpty(table, c);
        idx := FindEntry(table, c, idx);
        var d := fold(c, idx);
        FoldedIs(mask, table, fold, c, idx);
        if !open {
          ImageBegins(s, mask, table, fold, c, result.points, open, start, end, d);
          open, start, end := true, d, d + 1;
        } else if end == d {
          ImageJoins(s, mask, table, fold, c, result.points, start, end);
          end := end + 1;
        } else {
          ImageBegins(s, mask, table, fold, c, result.points, open, start, end, d);
          result.AddInterval(start, end);
          start, end := d, d + 1;
        }
        c := c + 1;
      }
      cur := last;
    }
    GapAfter(s, cur);
    ImageSkip(s, mask, table, fold, cur, UINT32_MAX, result.points, open, start, end);
    forall d
      ensures var out := if open then result.points + [start, end] else result.points;
        Proper(out) && Member(out, d) == ImageBelow(s, mask, table, fold, UINT32_MAX, d)
    {
      ImageEnds(s, mask, table, fold, UINT32_MAX, result.points, open, start, end, d);
    }
    ImageEnds(s, mask, table, fold, UINT32_MAX, result.points, open, start, end, 0);
    if open {
      result.AddInterval(start, end);
    }
  }

  lemma EvenBoundaries(s: Points)
    requires Canonical(s)
    ensures |s| % 2 == 0
  {
  }

  lemma GapBefore(s: Points, i: nat, cur: int)
    requires Canonical(s) && 2 * i + 1 < |s| && (if i > 0 then cur == s[2 * i - 1] else cur == 0)
    ensures cur <= s[2 * i] < s[2 * i + 1] && forall c :: cur <= c < s[2 * i] ==> !Member(s, c)
  {
    forall c, k: nat | cur <= c < s[2 * i]
      ensures !Inside(s, k, c)
    {
    }
  }

  lemma GapAfter(s: Points, cur: int)
    requires Canonical(s) && (if |s| > 0 then cur == s[|s| - 1] else cur == 0)
    ensures forall c :: cur <= c ==> !Member(s, c)
  {
  }

  lemma InsideIsMember(s: Points, i: nat, c: int)
    requires Inside(s, i, c)
    ensures Member(s, c)
  {
  }

  lemma TableNotEmpty(table: seq<Entry>, c: int)
    requires InTable(table, c)
    ensures |table| > 0
  {
  }

  lemma FoldedIs(mask: Points, table: seq<Entry>, fold: Folding, c: Point, idx: nat)
    requires Member(mask, c) && InTable(table, c) && idx == EntryOf(table, c)
    ensures Folded(mask, table, fold, c) == fold(c, idx)
  {
  }

  /** The code points of a set, folded. */
  ghost predicate FoldedImage(s: Points, mask: Points, table: seq<Entry>, fold: Folding, d: int) {
    exists c: Point :: Member(s, c) && Folded(mask, table, fold, c) == d
  }

  /** Case folding of a set: canonical boundaries of exactly the folded code points. */
  method RegexpCanonicalize(cr: CharRange, mask: Points, table: seq<Entry>, fold: Folding)
    requires cr.Valid() && Sorted(mask) && TableSorted(table) && FoldsToCodePoints(fold)
    requires forall c :: Member(mask, c) ==> InTable(table, c)
    modifies cr
    ensures Canonical(cr.points)
    ensures forall d :: Member(cr.points, d) == FoldedImage(old(cr.points), mask, table, fold, d)
  {
    hide Member, InTable, EntryOf, Canonical, Proper, Sorted, ImageBelow, FoldedImage;
    ghost var s := cr.points;
    var inter := new CharRange();
    inter.Operate(mask, cr.points, Inter);
    var crMask := new CharRange();
    crMask.points := mask;
    crMask.Invert();
    CanonicalIsSorted(crMask.points);
    var sub := new CharRange();
    sub.Operate(crMask.points, cr.points, Inter);
    var result := FoldIntervals(inter.points, mask, table, fold);
    SortAndRemoveOverlap(result);
    CanonicalIsSorted(result.points);
    CanonicalIsSorted(sub.points);
    cr.points := [];
    cr.Operate(result.points, sub.points, Union);
    forall d
      ensures Member(cr.points, d) == FoldedImage(s, mask, table, fold, d)
    {
      ImageOfParts(s, mask, table, fold, inter.points, sub.points, d);
    }
  }

  lemma CanonicalIsSorted(s: Points)
    requires Canonical(s)
    ensures Sorted(s)
  {
  }

  /** The image is that of the part inside the mask, and the part outside. */
  lemma ImageOfParts(s: Points, mask: Points, table: seq<Entry>, fold: Folding, inter: Points, sub: Points, d: int)
    requires forall c :: Member(mask, c) ==> InTable(table, c)
    requires forall c :: Member(inter, c) == (Member(mask, c) && Member(s, c))
    requires forall c :: Member(sub, c) == (0 <= c < UINT32_MAX && !Member(mask, c) && Member(s, c))
    ensures FoldedImage(s, mask, table, fold, d) ==
      (ImageBelow(inter, mask, table, fold, UINT32_MAX, d) || Member(sub, d))
  {
    hide Member, InTable;
    if FoldedImage(s, mask, table, fold, d) {
      var c: Point :| Member(s, c) && Folded(mask, table, fold, c) == d;
      MembersInRange(s, c);
      if Member(mask, c) {
        assert Member(inter, c);
      } else {
        assert Member(sub, c);
      }
    }
    if ImageBelow(inter, mask, table, fold, UINT32_MAX, d) {
      var c: Point :| Member(inter, c) && c < UINT32_MAX && Folded(mask, table, fold, c) == d;
      assert Member(s, c);
    }
    if Member(sub, d) {
      var c: Point := d;
      assert Member(s, c) && Folded(mask, table, fold, c) == d;
    }
  }
}
