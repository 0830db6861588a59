/** Tables of run lengths for character properties, and the index that lets a lookup start in the middle
    (`get_index_pos`, `lre_is_in_table` and `unicode_prop1` of libunicode.c). */
module PropertyTables {
  import opened CharSets
  import opened CharRanges

  type Byte = b: int | 0 <= b <= 0xff

  type Table = seq<Byte>

  const BLOCK_LEN := 32
  const TWO21 := 0x20_0000

  ///// What a table says

  function Int(b: Byte): int {
    b
  }

  /** How many bytes the entry that starts with `b` takes. */
  function EntrySize(b: Byte): (n: nat)
    ensures n > 0
  {
    if b < 64 || b >= 0x80 then 1 else if b < 0x60 then 2 else 3
  }

  predicate HasEntry(t: Table, p: nat) {
    p < |t| && p + EntrySize(t[p]) <= |t|
  }

  /** The first run of the entry at `p`. */
  function FirstLen(t: Table, p: nat): (n: nat)
    requires HasEntry(t, p)
    ensures n > 0
  {
    var b: int := t[p];
    if b < 64 then b / 8 + 1
    else if b >= 0x80 then b - 0x80 + 1
    else if b < 0x60 then (b - 0x40) * 0x100 + Int(t[p + 1]) + 1
    else (b - 0x60) * 0x1_0000 + Int(t[p + 1]) * 0x100 + Int(t[p + 2]) + 1
  }

  /** Small entries hold two runs. */
  function Lens(t: Table, p: nat): seq<nat>
    requires HasEntry(t, p)
  {
    if t[p] < 64 then [FirstLen(t, p), Int(t[p]) % 8 + 1] else [FirstLen(t, p)]
  }

  /** Where runs of the lengths `lens` end, starting at `code`. */
  ghost function Ends(lens: seq<nat>, code: nat): seq<nat> {
    if lens == [] then [] else [code + lens[0]] + Ends(lens[1..], code + lens[0])
  }

  /** The last entry is complete. */
  ghost predicate Whole(t: Table, p: nat)
    decreases |t| - p
  {
    p == |t| || (HasEntry(t, p) && Whole(t, p + EntrySize(t[p])))
  }

  /** The lengths of all runs from the entry at `p` on. */
  ghost function Tail(t: Table, p: nat): seq<nat>
    requires Whole(t, p)
    decreases |t| - p
  {
    if p == |t| then [] else Lens(t, p) + Tail(t, p + EntrySize(t[p]))
  }

  ghost function Total(lens: seq<nat>): nat {
    if lens == [] then 0 else lens[0] + Total(lens[1..])
  }

  /** Runs outside and inside the set alternate; a last run inside it that has no end is not part of the set. */
  ghost function SetOf(t: Table): Points
    requires WellFormed(t)
  {
    EndsBounded(Tail(t, 0), 0);
    Closed(Ends(Tail(t, 0), 0))
  }

  /** Boundaries without a last one that only begins an interval. */
  ghost function Closed(ends: seq<nat>): seq<nat> {
    if |ends| % 2 == 0 then ends else ends[..|ends| - 1]
  }

  /** Every run ends at a code point of 32 bits. */
  ghost predicate WellFormed(t: Table) {
    Whole(t, 0) && Total(Tail(t, 0)) <= UINT32_MAX
  }

  ghost predicate Positive(lens: seq<nat>) {
    forall i :: 0 <= i < |lens| ==> lens[i] > 0
  }

  ///// Facts about runs

  lemma {:induction false} EndsBounded(lens: seq<nat>, code: nat)
    ensures |Ends(lens, code)| == |lens|
    ensures forall i :: 0 <= i < |lens| ==> code <= Ends(lens, code)[i] <= code + Total(lens)
  {
    if lens != [] {
      EndsBounded(lens[1..], code + lens[0]);
    }
  }

  lemma {:induction false} EndsIncrease(lens: seq<nat>, code: nat)
    requires Positive(lens)
    ensures Increasing(Ends(lens, code)) && |Ends(lens, code)| == |lens|
    ensures forall i :: 0 <= i < |lens| ==> Ends(lens, code)[i] > code
    ensures lens != [] ==> Ends(lens, code)[|lens| - 1] == code + Total(lens)
  {
    if lens != [] {
      EndsIncrease(lens[1..], code + lens[0]);
    }
  }

  lemma {:induction false} TotalSplit(a: seq<nat>, b: seq<nat>)
    ensures Total(a + b) == Total(a) + Total(b)
  {
    if a == [] {
      assert a + b == b;
    } else {
      assert (a + b)[1..] == a[1..] + b;
      TotalSplit(a[1..], b);
    }
  }

  lemma {:induction false} EndsSplit(a: seq<nat>, b: seq<nat>, code: nat)
    ensures Ends(a + b, code) == Ends(a, code) + Ends(b, code + Total(a)) && Total(a + b) == Total(a) + Total(b)
  {
    TotalSplit(a, b);
    if a == [] {
      assert a + b == b;
    } else {
      var next := code + a[0];
      EndsSplit(a[1..], b, next);
      assert (a + b)[1..] == a[1..] + b;
      JoinFirst(next, Ends(a[1..], next), Ends(b, code + Total(a)));
    }
  }

  lemma JoinFirst(x: nat, s: seq<nat>, t: seq<nat>)
    ensures [x] + (s + t) == ([x] + s) + t
  {
  }

  lemma {:induction false} TailPositive(t: Table, p: nat)
    requires Whole(t, p)
    ensures Positive(Tail(t, p))
    decreases |t| - p
  {
    if p < |t| {
      TailPositive(t, p + EntrySize(t[p]));
    }
  }

  /** The ends of one run after the other. */
  lemma OneMore(lens: seq<nat>, len: nat, code: nat)
    ensures Ends([len] + lens, code) == [code + len] + Ends(lens, code + len)
    ensures Total([len] + lens) == len + Total(lens)
  {
    assert ([len] + lens)[1..] == lens;
  }

  lemma SetIsCanonical(t: Table)
    requires WellFormed(t)
    ensures Canonical(SetOf(t))
  {
    hide Ends, Total, Tail;
    TailPositive(t, 0);
    EndsIncrease(Tail(t, 0), 0);
  }

  ///// The linear decoder

  lemma LensOneMore(lens: seq<nat>, len: nat)
    ensures Ends(lens + [len], 0) == Ends(lens, 0) + [Total(lens) + len] && |Ends(lens, 0)| == |lens|
    ensures Total(lens + [len]) == Total(lens) + len
  {
    EndsSplit(lens, [len], 0);
    EndsBounded(lens, 0);
    EndsOfOne(len, Total(lens));
  }

  lemma EndsOfOne(len: nat, code: nat)
    ensures Ends([len], code) == [code + len] && Total([len]) == len
  {
    OneMore([], len, code);
    assert [len] + [] == [len];
  }

  lemma TailStep(t: Table, p: nat)
    requires Whole(t, p) && p < |t|
    ensures HasEntry(t, p) && Whole(t, p + EntrySize(t[p]))
    ensures Tail(t, p) == (if t[p] < 64 then [FirstLen(t, p)] + ([Int(t[p]) % 8 + 1] + Tail(t, p + EntrySize(t[p])))
                           else [FirstLen(t, p)] + Tail(t, p + EntrySize(t[p])))
  {
  }

  lemma TailEnds(t: Table)
    ensures Whole(t, |t|) && Tail(t, |t|) == []
  {
  }

  /** Adding one run at a time keeps the order, and stays below the sum of all runs. */
  lemma BelowTotal(done: seq<nat>, len: nat, rest: seq<nat>)
    ensures done + ([len] + rest) == (done + [len]) + rest
    ensures Total(done) + len <= Total(done + ([len] + rest))
  {
    EndsSplit(done, [len] + rest, 0);
    OneMore(rest, len, 0);
  }

  /** The decoder after the runs `lens`: it has added `added` and stands at `c`, inside the set if `bit`. */
  ghost predicate Decoded(lens: seq<nat>, added: Points, c: nat, bit: bool) {
    |added| % 2 == 0 && c == Total(lens) && Ends(lens, 0) == if bit then added + [c] else added
  }

  lemma DecodedNone()
    ensures Decoded([], [], 0, false)
  {
  }

  /** One more run: if it lies in the set, its two boundaries are added. */
  lemma DecodedRun(lens: seq<nat>, added: Points, c: nat, bit: bool, len: nat)
    requires Decoded(lens, added, c, bit) && c + len <= UINT32_MAX
    ensures Decoded(lens + [len], if bit then added + [c, c + len] else added, c + len, !bit)
  {
    hide Ends, Total;
    LensOneMore(lens, len);
    if bit {
      assert (added + [c]) + [c + len] == added + [c, c + len];
    }
  }

  lemma DecodedAll(t: Table, added: Points, c: nat, bit: bool)
    requires WellFormed(t) && Decoded(Tail(t, 0), added, c, bit)
    ensures added == SetOf(t)
  {
    EndsBounded(Tail(t, 0), 0);
  }

  /** The runs up to `c` are decoded and `rest` is still to come. */
  ghost predicate Decoding(t: Table, rest: seq<nat>, added: Points, c: nat, bit: bool) {
    WellFormed(t) && exists done :: Tail(t, 0) == done + rest && Decoded(done, added, c, bit)
  }

  lemma DecodingBegins(t: Table)
    requires WellFormed(t)
    ensures Decoding(t, Tail(t, 0), [], 0, false)
  {
    DecodedNone();
    assert [] + Tail(t, 0) == Tail(t, 0);
  }

  lemma Step(t: Table, rest: seq<nat>, added: Points, c: nat, bit: bool, len: nat) returns (added1: Points)
    requires Decoding(t, [len] + rest, added, c, bit)
    ensures c + len <= UINT32_MAX && Decoding(t, rest, added1, c + len, !bit)
    ensures added1 == if bit then added + [c, c + len] else added
  {
    hide Tail, Total;
    var done :| Tail(t, 0) == done + ([len] + rest) && Decoded(done, added, c, bit);
    BelowTotal(done, len, rest);
    assert (done + [len]) + rest == done + ([len] + rest);
    added1 := if bit then added + [c, c + len] else added;
    DecodedRun(done, added, c, bit, len);
  }

  lemma DecodingEnds(t: Table, added: Points, c: nat, bit: bool)
    requires Decoding(t, [], added, c, bit)
    ensures added == SetOf(t)
  {
    hide Decoded, Tail;
    var done :| Tail(t, 0) == done + [] && Decoded(done, added, c, bit);
    assert done + [] == done;
    DecodedAll(t, added, c, bit);
  }

  /** Only what lies in the set is added. */
  method AddRun(cr: CharRange, bit: bool, c0: Point, c: Point, ghost before: Points, ghost added: Points)
    requires cr.points == before + added
    modifies cr
    ensures cr.points == before + if bit then added + [c0, c] else added
  {
    if bit {
      cr.AddInterval(c0, c);
      assert (before + added) + [c0, c] == before + (added + [c0, c]);
    }
  }

  /** `unicode_prop1`: adds the intervals of a table to a range. */
  method AddProperty(cr: CharRange, t: Table)
    requires WellFormed(t)
    modifies cr
    ensures cr.points == old(cr.points) + SetOf(t)
  {
    hide Decoding, Tail, FirstLen, Whole, SetOf;
    var p: nat, c: nat, bit := 0, 0, false;
    ghost var before, added: Points := cr.points, [];
    DecodingBegins(t);
    while p < |t|
      invariant p <= |t| && Whole(t, p) && Decoding(t, Tail(t, p), added, c, bit) && c <= UINT32_MAX
      invariant cr.points == before + added
      decreases |t| - p
    {
      var c0 := c;
      var b := t[p];
      TailStep(t, p);
      ghost var rest := Tail(t, p + EntrySize(b));
      var first := FirstLen(t, p);
      c := c + first;
      ghost var more;
      if b < 64 {
        ghost var second := Int(b) % 8 + 1;
        more := Step(t, [second] + rest, added, c0, bit, first);
        AddRun(cr, bit, c0, c, before, added);
        added := more;
        bit := !bit;
        c0 := c;
        c := c + (Int(b) % 8 + 1);
        more := Step(t, rest, added, c0, bit, second);
      } else {
        more := Step(t, rest, added, c0, bit, first);
      }
      AddRun(cr, bit, c0, c, before, added);
      added := more;
      bit := !bit;
      p := p + EntrySize(b);
    }
    TailEnds(t);
    DecodingEnds(t, added, c, bit);
  }

  ///// The index

  /** `get_le24`, at entry `i`. */
  function Le24(index: seq<Byte>, i: nat): nat
    requires 3 * i + 2 < |index|
  {
    Int(index[3 * i]) + Int(index[3 * i + 1]) * 0x100 + Int(index[3 * i + 2]) * 0x1_0000
  }

  /** An entry names a code point in 21 bits and in 3 more bits where in the block its run starts. */
  function CodeAt(index: seq<Byte>, i: nat): nat
    requires 3 * i + 2 < |index|
  {
    Le24(index, i) % TWO21
  }

  function PosAt(index: seq<Byte>, i: nat): nat
    requires 3 * i + 2 < |index|
  {
    (i + 1) * BLOCK_LEN + Le24(index, i) / TWO21
  }

  /** The end of the index: the last entry, which names no position. */
  function IndexEnd(index: seq<Byte>): nat
    requires |index| >= 3 && |index| % 3 == 0
  {
    Le24(index, |index| / 3 - 1)
  }

  /** The decoder that starts outside the set at `from`, at the code point `code`, comes to `p`, again
      outside the set, at the code point `last`. */
  ghost predicate Boundary(t: Table, from: nat, code: nat, odd: bool, p: nat, last: nat)
    decreases |t| - from
  {
    (from == p && code == last && !odd) ||
    (HasEntry(t, from) &&
     Boundary(t, from + EntrySize(t[from]), code + Total(Lens(t, from)), odd != (|Lens(t, from)| == 1), p, last))
  }

  /** Entry `i` names the start of a run outside the set. */
  ghost predicate Names(t: Table, index: seq<Byte>, i: nat)
    requires 3 * i + 2 < |index|
  {
    Boundary(t, 0, 0, false, PosAt(index, i), CodeAt(index, i))
  }

  /** Every entry but the last names the start of a run outside the set, and the runs reach the end of the index. */
  ghost predicate IndexOf(t: Table, index: seq<Byte>)
    requires WellFormed(t)
  {
    |index| >= 3 && |index| % 3 == 0 &&
    (forall i :: 0 <= i < |index| / 3 - 1 ==> Names(t, index, i)) &&
    (|index| == 3 ==> IndexEnd(index) < TWO21) &&
    IndexEnd(index) <= Total(Tail(t, 0))
  }

  /** The code points the index leads to. */
  predicate Covers(index: seq<Byte>, c: int)
    requires |index| >= 3 && |index| % 3 == 0
  {
    c < IndexEnd(index) || c < CodeAt(index, 0)
  }

  /** `get_index_pos`: a place in the table from which to look for `c`, if the index covers it. */
  method GetIndexPos(c: Point, index: seq<Byte>) returns (pos: int, code: nat)
    requires |index| >= 3 && |index| % 3 == 0 && (|index| == 3 ==> IndexEnd(index) < TWO21)
    ensures if Covers(index, c) then pos >= 0 else pos == -1
    ensures pos >= 0 ==> code <= c
    ensures pos >= 0 ==> (pos == 0 && code == 0 && c < CodeAt(index, 0)) ||
                         exists i :: 0 <= i < |index| / 3 - 1 && pos == PosAt(index, i) && code == CodeAt(index, i)
  {
    var idxMin := 0;
    if c < CodeAt(index, 0) {
      return 0, 0;
    }
    var idxMax := |index| / 3 - 1;
    if c >= Le24(index, idxMax) {
      return -1, 0;
    }
    while idxMax - idxMin > 1
      invariant 0 <= idxMin < idxMax <= |index| / 3 - 1
      invariant CodeAt(index, idxMin) <= c
      decreases idxMax - idxMin
    {
      var idx := (idxMax + idxMin) / 2;
      if c < CodeAt(index, idx) {
        idxMax := idx;
      } else {
        idxMin := idx;
      }
    }
    return PosAt(index, idxMin), CodeAt(index, idxMin);
  }

  ///// Lookup in the middle

  /** From a boundary on, the rest of the table decides membership. */
  lemma {:induction false} RestDecides(t: Table, from: nat, code: nat, odd: bool, p: nat, last: nat, c: int)
    requires Whole(t, from) && Boundary(t, from, code, odd, p, last) && last <= c
    ensures Whole(t, p) && last + Total(Tail(t, p)) == code + Total(Tail(t, from))
    ensures (Count(Ends(Tail(t, from), code), c) + (if odd then 1 else 0)) % 2 == Count(Ends(Tail(t, p), last), c) % 2
    decreases |t| - from
  {
    hide Count, Ends, Total, Lens, Tail, EntrySize;
    if from != p || code != last || odd {
      TailLens(t, from);
      var lens, next := Lens(t, from), from + EntrySize(t[from]);
      var rest, code1, odd1 := Tail(t, next), code + Total(lens), odd != (|lens| == 1);
      RestDecides(t, next, code1, odd1, p, last, c);
      NotBefore(t, next, code1, odd1, p, last);
      AllEnded(lens, rest, code, c);
      LensCount(t, from);
      Parity(|lens|, Count(Ends(rest, code1), c), odd, Count(Ends(Tail(t, p), last), c));
    }
  }

  lemma TailLens(t: Table, p: nat)
    requires Whole(t, p) && p < |t|
    ensures HasEntry(t, p) && Whole(t, p + EntrySize(t[p])) && Tail(t, p) == Lens(t, p) + Tail(t, p + EntrySize(t[p]))
  {
    hide Lens;
  }

  lemma Parity(len: nat, n: nat, odd: bool, m: nat)
    requires 1 <= len <= 2 && (n + if odd != (len == 1) then 1 else 0) % 2 == m % 2
    ensures (len + n + if odd then 1 else 0) % 2 == m % 2
  {
  }

  lemma LensCount(t: Table, p: nat)
    requires HasEntry(t, p)
    ensures 1 <= |Lens(t, p)| <= 2
  {
  }

  lemma AllEnded(lens: seq<nat>, rest: seq<nat>, code: nat, c: int)
    requires code + Total(lens) <= c
    ensures Count(Ends(lens + rest, code), c) == |lens| + Count(Ends(rest, code + Total(lens)), c)
    ensures Total(lens + rest) == Total(lens) + Total(rest)
  {
    hide Count, Ends, Total;
    EndsSplit(lens, rest, code);
    CountConcat(Ends(lens, code), Ends(rest, code + Total(lens)), c);
    EndsBounded(lens, code);
    CountAll(Ends(lens, code), c);
  }

  lemma {:induction false} NotBefore(t: Table, from: nat, code: nat, odd: bool, p: nat, last: nat)
    requires Boundary(t, from, code, odd, p, last)
    ensures code <= last
    decreases |t| - from
  {
    if from != p || code != last || odd {
      NotBefore(t, from + EntrySize(t[from]), code + Total(Lens(t, from)), odd != (|Lens(t, from)| == 1), p, last);
    }
  }

  /** Below the end of all runs, membership is the parity of the runs that have ended. */
  lemma MemberByParity(t: Table, c: int)
    requires WellFormed(t) && c < Total(Tail(t, 0))
    ensures Member(SetOf(t), c) <==> Odd(Ends(Tail(t, 0), 0), c)
  {
    hide Count, Ends, Total, Tail;
    var lens := Tail(t, 0);
    var ends := Ends(lens, 0);
    TailPositive(t, 0);
    EndsIncrease(lens, 0);
    SetIsCanonical(t);
    MemberIsOdd(SetOf(t), c);
    if |ends| % 2 == 1 {
      var n := |ends| - 1;
      assert ends == ends[..n] + [ends[n]];
      CountSnoc(ends[..n], ends[n], c);
    }
  }

  /** No run after `code` ends at `c` or before. */
  lemma NoneEnds(lens: seq<nat>, code: nat, c: int)
    requires c < code
    ensures Count(Ends(lens, code), c) == 0
  {
    EndsBounded(lens, code);
    CountNone(Ends(lens, code), c);
  }

  /** Looking for `c` in runs that start at `code`, inside the set if `bit`. */
  ghost predicate InRun(lens: seq<nat>, code: nat, bit: bool, c: int) {
    Odd(Ends(lens, code), c) != bit
  }

  lemma InRunStep(lens: seq<nat>, len: nat, code: nat, bit: bool, c: int)
    ensures InRun([len] + lens, code, bit, c) == if c < code + len then bit else InRun(lens, code + len, !bit, c)
    ensures Total([len] + lens) == len + Total(lens)
  {
    hide Ends, Total, Count;
    var next := code + len;
    OneMore(lens, len, code);
    CountConcat([next], Ends(lens, next), c);
    CountOfOne(next, c);
    if c < next {
      NoneEnds(lens, next, c);
    }
  }

  lemma CountOfOne(v: nat, c: int)
    ensures Count([v], c) == if v <= c then 1 else 0
  {
    CountSnoc([], v, c);
    assert [] + [v] == [v];
  }

  lemma InRunAtStart(lens: seq<nat>, code: nat, c: int)
    ensures InRun(lens, code, false, c) == Odd(Ends(lens, code), c)
  {
  }

  /** The loop of `lre_is_in_table`: the parity of the runs from `pos` on that have ended at `c`. */
  method ScanRuns(t: Table, c: Point, pos: nat, start: nat) returns (bit: bool)
    requires Whole(t, pos) && start <= c < start + Total(Tail(t, pos))
    ensures bit <==> Odd(Ends(Tail(t, pos), start), c)
  {
    hide InRun, Total, Tail, FirstLen;
    InRunAtStart(Tail(t, pos), start, c);
    var p: nat, code: nat := pos, start;
    bit := false;
    while true
      invariant Whole(t, p) && code <= c < code + Total(Tail(t, p))
      invariant InRun(Tail(t, p), code, bit, c) == InRun(Tail(t, pos), start, false, c)
      decreases |t| - p
    {
      NotAtEnd(t, p);
      TailStep(t, p);
      var b := t[p];
      ghost var rest := Tail(t, p + EntrySize(b));
      var first := FirstLen(t, p);
      if b < 64 {
        ghost var second := Int(b) % 8 + 1;
        InRunStep([second] + rest, first, code, bit, c);
        code := code + first;
        if c < code {
          return;
        }
        bit := !bit;
        InRunStep(rest, second, code, bit, c);
        code := code + (Int(b) % 8 + 1);
      } else {
        InRunStep(rest, first, code, bit, c);
        code := code + first;
      }
      if c < code {
        return;
      }
      bit := !bit;
      p := p + EntrySize(b);
    }
  }

  lemma NotAtEnd(t: Table, p: nat)
    requires Whole(t, p) && Total(Tail(t, p)) > 0
    ensures p < |t|
  {
  }

  /** `lre_is_in_table`: where the index reaches, the lookup answers membership in the set that the
      linear decoder builds; elsewhere it answers no. */
  method IsInTable(c: Point, t: Table, index: seq<Byte>) returns (found: bool)
    requires WellFormed(t) && IndexOf(t, index)
    ensures found <==> Covers(index, c) && Member(SetOf(t), c)
  {
    hide Count, Ends, Total, Tail, SetOf, Member, Odd;
    var pos, code := GetIndexPos(c, index);
    if pos < 0 {
      return false;
    }
    ghost var all := Tail(t, 0);
    if pos != 0 || code != 0 {
      ghost var i :| 0 <= i < |index| / 3 - 1 && pos == PosAt(index, i) && code == CodeAt(index, i);
      assert Names(t, index, i);
      Reached(t, pos, code, c);
    }
    Within(t, index, c);
    MemberByParity(t, c);
    found := ScanRuns(t, c, pos, code);
  }

  lemma Reached(t: Table, p: nat, last: nat, c: int)
    requires WellFormed(t) && Boundary(t, 0, 0, false, p, last) && last <= c
    ensures Whole(t, p) && last + Total(Tail(t, p)) == Total(Tail(t, 0))
    ensures Odd(Ends(Tail(t, 0), 0), c) <==> Odd(Ends(Tail(t, p), last), c)
  {
    RestDecides(t, 0, 0, false, p, last, c);
  }

  /** What the index covers, the runs of the table cover. */
  lemma Within(t: Table, index: seq<Byte>, c: int)
    requires WellFormed(t) && IndexOf(t, index) && Covers(index, c)
    ensures c < Total(Tail(t, 0))
  {
    if c >= IndexEnd(index) {
      if |index| > 3 {
        assert Names(t, index, 0);
        var last := CodeAt(index, 0);
        RestDecides(t, 0, 0, false, PosAt(index, 0), last, last);
      }
    }
  }

  /** Lookup and linear decoder agree on all code points exactly when the last interval ends within the index. */
  lemma LookupIsWholeSet(t: Table, index: seq<Byte>)
    requires WellFormed(t) && IndexOf(t, index)
    ensures (forall c :: Covers(index, c) && Member(SetOf(t), c) <==> Member(SetOf(t), c)) <==>
            (SetOf(t) == [] || SetOf(t)[|SetOf(t)| - 1] <= IndexEnd(index) ||
              SetOf(t)[|SetOf(t)| - 1] <= CodeAt(index, 0))
  {
    hide Count, Ends, Total, Tail, SetOf;
    SetIsCanonical(t);
    var s := SetOf(t);
    if s != [] {
      var n := |s| / 2 - 1;
      var e: int := s[|s| - 1];
      assert s[2 * n] <= e - 1;
      assert Inside(s, n, e - 1);
      assert Member(s, e - 1);
      forall c | Member(s, c)
        ensures c < e
      {
        var i: nat :| Inside(s, i, c);
        assert s[2 * i + 1] <= e;
      }
    }
  }
}
