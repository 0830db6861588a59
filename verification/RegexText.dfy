/** How a subject is read: a UTF-16 subject is walked through code point by code point, in both directions. */
module RegexText {
  import opened Surrogates
  import opened RegexInput
  import Utf8

  type CodePoint = c: nat | c <= 0x10FFFF

  /** Surrogates may stand on their own, but not the two of a pair next to each other. */
  ghost predicate Unpaired(cs: seq<CodePoint>) {
    forall k :: 0 < k < |cs| ==> !(0xD800 <= cs[k - 1] <= 0xDBFF && 0xDC00 <= cs[k] <= 0xDFFF)
  }

  ghost function Units(cs: seq<CodePoint>): seq<Unit> {
    if cs == [] then [] else Units(cs[..|cs| - 1]) + Utf8.UnitsOf(cs[|cs| - 1])
  }

  /** Where the character number `k` starts. */
  ghost function Place(cs: seq<CodePoint>, k: nat): nat
    requires k <= |cs|
  {
    |Units(cs[..k])|
  }

  lemma {:induction false} UnitsAt(cs: seq<CodePoint>, k: nat)
    requires k < |cs|
    ensures var p, u := Place(cs, k), Utf8.UnitsOf(cs[k]);
      Place(cs, k + 1) == p + |u| <= |Units(cs)| && Units(cs)[p..p + |u|] == u
    decreases |cs|
  {
    hide Utf8.UnitsOf;
    var n := |cs| - 1;
    var front := cs[..n];
    assert cs[..k + 1][..k] == cs[..k];
    if k == n {
      assert cs[..k + 1] == cs;
    } else {
      UnitsAt(front, k);
      assert front[..k] == cs[..k] && front[..k + 1] == cs[..k + 1];
      var p, e := Place(cs, k), Place(cs, k + 1);
      assert Units(cs)[p..e] == Units(front)[p..e];
    }
  }

  /** The units of one character, and whether they are a pair. */
  lemma UnitsHere(cs: seq<CodePoint>, k: nat)
    requires k < |cs|
    ensures var p, u, c := Place(cs, k), Units(cs), cs[k];
      if c < 0x10000 then Place(cs, k + 1) == p + 1 <= |u| && u[p] == c
      else (Place(cs, k + 1) == p + 2 <= |u| && IsHiSurrogate(u[p]) && IsLoSurrogate(u[p + 1]) &&
            FromSurrogate(u[p], u[p + 1]) == c)
  {
    hide Units;
    UnitsAt(cs, k);
    var p, u, c := Place(cs, k), Units(cs), cs[k];
    var v := u[p..p + |Utf8.UnitsOf(c)|];
    assert v[0] == u[p];
    if c >= 0x10000 {
      assert v[1] == u[p + 1];
    }
  }

  lemma PlaceEnds(cs: seq<CodePoint>)
    ensures Place(cs, 0) == 0 && Place(cs, |cs|) == |Units(cs)|
  {
    assert cs[..|cs|] == cs;
  }

  /** Characters start at aligned places. */
  lemma PlaceIsAligned(x: Subject, cs: seq<CodePoint>, k: nat)
    requires Unpaired(cs) && x.kind.Utf16? && x.units == Units(cs) && k <= |cs|
    ensures Aligned(x, Place(cs, k))
  {
    hide Units, Place;
    PlaceEnds(cs);
    if 0 < k < |cs| {
      UnitsHere(cs, k - 1);
      UnitsHere(cs, k);
    }
  }

  /** Reading forward from a character gives the character and comes to the next; reading backward comes back. */
  lemma Walk(x: Subject, cs: seq<CodePoint>, k: nat)
    requires Unpaired(cs) && x.kind.Utf16? && x.units == Units(cs) && k < |cs|
    ensures var p, q := Place(cs, k), Place(cs, k + 1);
      p < q <= |x.units| && CharAt(x, p) == cs[k] && NextPos(x, p) == q && PrevPos(x, q) == p && PrevChar(x, q) == cs[k]
  {
    hide Units, Place;
    UnitsHere(cs, k);
    PlaceIsAligned(x, cs, k);
    PlaceIsAligned(x, cs, k + 1);
    PlaceEnds(cs);
    if k + 1 < |cs| {
      UnitsHere(cs, k + 1);
    }
  }

  /** There are no other aligned places. */
  lemma AlignedIsPlace(x: Subject, cs: seq<CodePoint>, i: nat) returns (k: nat)
    requires Unpaired(cs) && x.kind.Utf16? && x.units == Units(cs) && i <= |x.units| && Aligned(x, i)
    ensures k <= |cs| && i == Place(cs, k)
  {
    hide Units, Place;
    PlaceEnds(cs);
    k := 0;
    while k < |cs| && Place(cs, k) < i
      invariant k <= |cs| && Place(cs, k) <= i
    {
      UnitsHere(cs, k);
      k := k + 1;
    }
  }

  /** Otherwise every unit is a character. */
  lemma WalkUnits(x: Subject, i: nat)
    requires !x.kind.Utf16? && i < |x.units|
    ensures CharAt(x, i) == x.units[i] == PrevChar(x, i + 1) && NextPos(x, i) == i + 1 && PrevPos(x, i + 1) == i
    ensures Aligned(x, i)
  {
  }
}
