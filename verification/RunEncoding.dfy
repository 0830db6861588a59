/** What the bytes of a property table and of its index stand for: an encoder of run lengths, and that the code reads
    what it writes. */
module RunEncoding {
  import opened CharSets
  import opened PropertyTables

  ///// Entries

  /** Two short runs in one byte, or one run in one, two or three bytes. */
  datatype Entry = Pair(a: nat, b: nat) | Run(len: nat, size: nat)

  predicate Fits(e: Entry) {
    match e
    case Pair(a, b) => 1 <= a <= 8 && 1 <= b <= 8
    case Run(n, 1) => 1 <= n <= 128
    case Run(n, 2) => 1 <= n <= 8192
    case Run(n, 3) => 1 <= n <= 0x20_0000
    case Run(_, _) => false
  }

  /** A run is a big-endian number above 0x80, 0x4000 or 0x600000, according to its size. */
  function Bytes(e: Entry): (s: seq<Byte>)
    requires Fits(e)
    ensures |s| == if e.Pair? then 1 else e.size
  {
    match e
    case Pair(a, b) => [8 * (a - 1) + (b - 1)]
    case Run(n, size) =>
      if size == 1 then [0x80 + n - 1]
      else if size == 2 then
        var v := 0x4000 + n - 1;
        [v / 256, v % 256]
      else
        var v := 0x60_0000 + n - 1;
        [v / 65536, v / 256 % 256, v % 256]
  }

  function Lengths(e: Entry): seq<nat> {
    match e
    case Pair(a, b) => [a, b]
    case Run(n, _) => [n]
  }

  predicate AllFit(es: seq<Entry>) {
    forall i :: 0 <= i < |es| ==> Fits(es[i])
  }

  function Encoded(es: seq<Entry>): Table
    requires AllFit(es)
  {
    if es == [] then [] else Bytes(es[0]) + Encoded(es[1..])
  }

  function Runs(es: seq<Entry>): seq<nat> {
    if es == [] then [] else Lengths(es[0]) + Runs(es[1..])
  }

  ///// Reading them

  /** The bytes of a wide run are its number, after the bits that say how wide it is. */
  lemma WideBytes(e: Entry)
    requires Fits(e) && e.Run? && e.size >= 2
    ensures var s := Bytes(e);
      if e.size == 2 then 0x40 <= s[0] < 0x60 && Int(s[0]) * 256 + Int(s[1]) == 0x4000 + e.len - 1
      else 0x60 <= s[0] < 0x80 && Int(s[0]) * 65536 + Int(s[1]) * 256 + Int(s[2]) == 0x60_0000 + e.len - 1
  {
    if e.size == 3 {
      var v := 0x60_0000 + e.len - 1;
      assert v / 256 / 256 == v / 65536;
    }
  }

  /** The entry at `p` is read as it was written. */
  lemma EntryRead(t: Table, p: nat, e: Entry)
    requires Fits(e) && p + |Bytes(e)| <= |t| && t[p..p + |Bytes(e)|] == Bytes(e)
    ensures HasEntry(t, p) && EntrySize(t[p]) == |Bytes(e)| && Lens(t, p) == Lengths(e)
  {
    var s := Bytes(e);
    assert t[p] == s[0];
    if e.Run? && e.size >= 2 {
      WideBytes(e);
      hide Bytes;
      assert t[p + 1] == s[1];
      if e.size == 3 {
        assert t[p + 2] == s[2];
      }
    }
  }

  lemma FirstRead(t: Table, p: nat, es: seq<Entry>)
    requires AllFit(es) && es != [] && p <= |t| && t[p..] == Encoded(es)
    ensures HasEntry(t, p) && EntrySize(t[p]) == |Bytes(es[0])| > 0 && Lens(t, p) == Lengths(es[0])
    ensures AllFit(es[1..]) && t[p + EntrySize(t[p])..] == Encoded(es[1..])
  {
    hide Bytes, Lengths, Fits, HasEntry, EntrySize, Lens;
    var s := Bytes(es[0]);
    assert t[p..p + |s|] == t[p..][..|s|] == s;
    assert t[p + |s|..] == t[p..][|s|..] == Encoded(es[1..]);
    EntryRead(t, p, es[0]);
  }

  lemma {:induction false} EncodedRead(t: Table, p: nat, es: seq<Entry>)
    requires AllFit(es) && p <= |t| && t[p..] == Encoded(es)
    ensures Whole(t, p) && Tail(t, p) == Runs(es)
    decreases |es|
  {
    hide Bytes, Lengths, Fits, HasEntry, EntrySize, Lens;
    if es != [] {
      FirstRead(t, p, es);
      EncodedRead(t, p + EntrySize(t[p]), es[1..]);
    }
  }

  /** Every complete table is the encoding of some entries. */
  lemma {:induction false} EveryTable(t: Table, p: nat) returns (es: seq<Entry>)
    requires Whole(t, p)
    ensures AllFit(es) && p <= |t| && t[p..] == Encoded(es)
    decreases |t| - p
  {
    hide Bytes, Fits;
    if p == |t| {
      es := [];
    } else {
      var next := p + EntrySize(t[p]);
      var e := FirstEntry(t, p);
      var rest := EveryTable(t, next);
      es := [e] + rest;
      assert t[p..] == t[p..next] + t[next..];
    }
  }

  lemma FirstEntry(t: Table, p: nat) returns (e: Entry)
    requires HasEntry(t, p)
    ensures Fits(e) && Bytes(e) == t[p..p + EntrySize(t[p])]
  {
    var b: int := t[p];
    if b < 64 {
      e := Pair(b / 8 + 1, b % 8 + 1);
      assert t[p..p + 1] == [t[p]];
    } else {
      e := Run(FirstLen(t, p), EntrySize(t[p]));
      RunBytes(t, p, e);
    }
  }

  lemma RunBytes(t: Table, p: nat, e: Entry)
    requires HasEntry(t, p) && t[p] >= 64 && e == Run(FirstLen(t, p), EntrySize(t[p]))
    ensures Fits(e) && Bytes(e) == t[p..p + EntrySize(t[p])]
  {
    var b: int := t[p];
    if b >= 0x80 {
      assert t[p..p + 1] == [t[p]];
    } else if b < 0x60 {
      TwoBytes(b, t[p + 1]);
      assert t[p..p + 2] == [t[p], t[p + 1]];
    } else {
      ThreeBytes(b, t[p + 1], t[p + 2]);
      assert t[p..p + 3] == [t[p], t[p + 1], t[p + 2]];
    }
  }

  lemma TwoBytes(b: int, x: Byte)
    ensures var v := b * 256 + Int(x); v / 256 == b && v % 256 == x
  {
  }

  lemma ThreeBytes(b: int, x: Byte, y: Byte)
    ensures var v := b * 65536 + Int(x) * 256 + Int(y); v / 65536 == b && v / 256 % 256 == x && v % 256 == y
  {
    var v := b * 65536 + Int(x) * 256 + Int(y);
    TwoBytes(b * 256 + Int(x), y);
    TwoBytes(b, x);
    assert v / 256 == b * 256 + Int(x);
  }

  ///// The set

  function Sum(lens: seq<nat>): nat {
    if lens == [] then 0 else Sum(lens[..|lens| - 1]) + lens[|lens| - 1]
  }

  /** The runs with odd numbers lie in the set. */
  ghost predicate InRunOf(lens: seq<nat>, k: nat, c: int) {
    k < |lens| && k % 2 == 1 && Sum(lens[..k]) <= c < Sum(lens[..k + 1])
  }

  lemma {:induction false} SumIsTotal(lens: seq<nat>)
    ensures Total(lens) == Sum(lens)
    decreases |lens|
  {
    if lens != [] {
      var n := |lens| - 1;
      assert lens == lens[..n] + [lens[n]];
      SumIsTotal(lens[..n]);
      EndsSplit(lens[..n], [lens[n]], 0);
      EndsOfOne(lens[n], 0);
    }
  }

  lemma {:induction false} EndsAreSums(lens: seq<nat>, k: nat)
    requires k < |lens|
    ensures |Ends(lens, 0)| == |lens| && Ends(lens, 0)[k] == Sum(lens[..k + 1])
  {
    var a, b := lens[..k], lens[k + 1..];
    assert lens == a + ([lens[k]] + b);
    EndsSplit(a, [lens[k]] + b, 0);
    EndsBounded(a, 0);
    EndsBounded(lens, 0);
    OneMore(b, lens[k], Total(a));
    SumIsTotal(a);
    assert lens[..k + 1][..k] == a;
  }

  /** The decoder of a written table adds the sums of the lengths, in pairs: the set contains what lies in runs with odd
      numbers. */
  lemma EncodedSet(es: seq<Entry>)
    requires AllFit(es) && Sum(Runs(es)) <= 0xffff_ffff
    ensures var t, lens := Encoded(es), Runs(es);
      WellFormed(t) && |SetOf(t)| == |lens| - |lens| % 2 &&
      (forall k :: 0 <= k < |SetOf(t)| ==> SetOf(t)[k] == Sum(lens[..k + 1])) &&
      (forall c :: Member(SetOf(t), c) <==> exists k: nat :: InRunOf(lens, k, c))
  {
    hide Tail, Whole, Ends, Sum, Total, Member, Encoded, Runs;
    var t, lens := Encoded(es), Runs(es);
    assert t[0..] == t;
    EncodedRead(t, 0, es);
    SumIsTotal(lens);
    var s := SetOf(t);
    EndsBounded(lens, 0);
    forall k | 0 <= k < |s|
      ensures s[k] == Sum(lens[..k + 1])
    {
      EndsAreSums(lens, k);
    }
    forall c
      ensures Member(s, c) <==> exists k: nat :: InRunOf(lens, k, c)
    {
      RunsAreIntervals(s, lens, c);
    }
  }

  lemma RunsAreIntervals(s: Points, lens: seq<nat>, c: int)
    requires |s| == |lens| - |lens| % 2 && forall k :: 0 <= k < |s| ==> s[k] == Sum(lens[..k + 1])
    ensures Member(s, c) <==> exists k: nat :: InRunOf(lens, k, c)
  {
    hide Sum;
    if Member(s, c) {
      var i: nat :| Inside(s, i, c);
      assert s[2 * i] == Sum(lens[..2 * i + 1]);
      assert InRunOf(lens, 2 * i + 1, c);
    }
    if k: nat :| InRunOf(lens, k, c) {
      var i := k / 2;
      assert k == 2 * i + 1;
      assert s[2 * i] == Sum(lens[..2 * i + 1]) && s[2 * i + 1] == Sum(lens[..2 * i + 2]);
      assert Inside(s, i, c);
    }
  }

  ///// The index

  /** An entry of the index: so many entries of the table, `off` bytes into a block of 32, end at the code point. */
  datatype Mark = Mark(code: nat, off: nat, entries: nat)

  predicate MarkFits(m: Mark) {
    m.code < 0x20_0000 && m.off < 8
  }

  /** 24 bits, the lowest byte first: the code point below the offset. */
  function MarkBytes(m: Mark): seq<Byte>
    requires MarkFits(m)
  {
    [m.code % 256, m.code / 256 % 256, m.code / 65536 + 32 * m.off]
  }

  function Index(ms: seq<Mark>): (s: seq<Byte>)
    requires forall i :: 0 <= i < |ms| ==> MarkFits(ms[i])
    ensures |s| == 3 * |ms|
  {
    if ms == [] then [] else MarkBytes(ms[0]) + Index(ms[1..])
  }

  lemma {:induction false} IndexAt(ms: seq<Mark>, i: nat)
    requires (forall i :: 0 <= i < |ms| ==> MarkFits(ms[i])) && i < |ms|
    ensures Index(ms)[3 * i..3 * i + 3] == MarkBytes(ms[i])
    decreases |ms|
  {
    hide MarkBytes;
    var rest := Index(ms[1..]);
    if i == 0 {
      assert Index(ms)[0..3] == MarkBytes(ms[0]);
    } else {
      IndexAt(ms[1..], i - 1);
      assert Index(ms)[3 * i..3 * i + 3] == rest[3 * (i - 1)..3 * (i - 1) + 3];
    }
  }

  lemma MarkRead(ms: seq<Mark>, i: nat)
    requires (forall i :: 0 <= i < |ms| ==> MarkFits(ms[i])) && i < |ms|
    ensures CodeAt(Index(ms), i) == ms[i].code && PosAt(Index(ms), i) == 32 * (i + 1) + ms[i].off
    ensures Le24(Index(ms), i) == ms[i].code + 0x20_0000 * ms[i].off
  {
    hide Index;
    IndexAt(ms, i);
    var s, m := MarkBytes(ms[i]), ms[i];
    assert Index(ms)[3 * i] == s[0] && Index(ms)[3 * i + 1] == s[1] && Index(ms)[3 * i + 2] == s[2];
    assert m.code / 256 / 256 == m.code / 65536;
  }

  /** The mark number `i` is right: its entries fill the bytes up to the place it names, have an even number of runs,
      and end at its code point. */
  ghost predicate Marks(es: seq<Entry>, m: Mark, i: nat)
    requires AllFit(es)
  {
    m.entries <= |es| && |Encoded(es[..m.entries])| == 32 * (i + 1) + m.off &&
    |Runs(es[..m.entries])| % 2 == 0 && Sum(Runs(es[..m.entries])) == m.code
  }

  /** The decoder comes to the end of the first entries. */
  lemma {:induction false} BoundaryAt(t: Table, p: nat, code: nat, odd: bool, es: seq<Entry>, n: nat)
    requires AllFit(es) && n <= |es| && p <= |t| && t[p..] == Encoded(es)
    requires (|Runs(es[..n])| % 2 == 1) == odd
    ensures Boundary(t, p, code, odd, p + |Encoded(es[..n])|, code + Total(Runs(es[..n])))
    decreases n
  {
    hide Bytes, Lengths, Fits, HasEntry, EntrySize, Lens;
    if n > 0 {
      var e, rest := es[0], es[1..];
      FirstRead(t, p, es);
      assert es[..n][0] == e && es[..n][1..] == rest[..n - 1];
      OneOrTwo(e);
      BoundaryAt(t, p + EntrySize(t[p]), code + Total(Lens(t, p)), odd != (|Lens(t, p)| == 1), rest, n - 1);
      EndsSplit(Lengths(e), Runs(rest[..n - 1]), 0);
    }
  }

  lemma OneOrTwo(e: Entry)
    ensures |Lengths(e)| == 1 || |Lengths(e)| == 2
  {
  }

  lemma MarkNames(es: seq<Entry>, ms: seq<Mark>, i: nat)
    requires AllFit(es) && i < |ms| && Marks(es, ms[i], i)
    requires forall i :: 0 <= i < |ms| ==> MarkFits(ms[i])
    ensures Names(Encoded(es), Index(ms), i)
  {
    hide Encoded, Runs, Sum, Index, Total, Boundary, MarkBytes, CodeAt, PosAt, Le24, Bytes, Lengths, Fits, HasEntry,
      EntrySize, Lens, MarkFits;
    var t, m := Encoded(es), ms[i];
    assert t[0..] == t;
    BoundaryAt(t, 0, 0, false, es, m.entries);
    SumIsTotal(Runs(es[..m.entries]));
    MarkRead(ms, i);
  }

  /** An index written for a table is one that the lookup accepts. The last mark only says where the table ends. */
  lemma IndexIsOf(es: seq<Entry>, ms: seq<Mark>)
    requires AllFit(es) && Sum(Runs(es)) <= 0xffff_ffff && ms != []
    requires forall i :: 0 <= i < |ms| ==> MarkFits(ms[i])
    requires forall i :: 0 <= i < |ms| - 1 ==> Marks(es, ms[i], i)
    requires var m := ms[|ms| - 1]; m.off == 0 && m.code <= Sum(Runs(es))
    ensures WellFormed(Encoded(es)) && IndexOf(Encoded(es), Index(ms))
    ensures IndexEnd(Index(ms)) == ms[|ms| - 1].code
  {
    hide Encoded, Runs, Sum, Index, Tail, Whole, Total, Boundary, MarkBytes, CodeAt, PosAt, Le24, Marks, Names;
    var t, index := Encoded(es), Index(ms);
    assert t[0..] == t;
    EncodedRead(t, 0, es);
    SumIsTotal(Runs(es));
    forall i | 0 <= i < |index| / 3 - 1
      ensures Names(t, index, i)
    {
      MarkNames(es, ms, i);
    }
    MarkRead(ms, |ms| - 1);
  }
}
