/** The subject of a match and the character macros of the regular-expression VM.
    Positions are indices of code units.  `kind` is the source's `cbuf_type`:
    8-bit units, 16-bit units, or 16-bit units read as UTF-16. */
module RegexInput {
  import opened Surrogates

  datatype Kind = Bytes | Words | Utf16

  datatype Subject = Subject(units: seq<Unit>, kind: Kind, multiLine: bool)

  predicate IsLineTerminator(c: int) {
    c == 10 || c == 13 || c == 0x2028 || c == 0x2029
  }

  predicate IsWordChar(c: int) {
    48 <= c <= 57 || 97 <= c <= 122 || 65 <= c <= 90 || c == 95
  }

  const DIGITS := "0123456789"
  const CAPITALS := "ABCDEFGHIJKLMNOPQRSTUVWXYZ"
  const LETTERS := "abcdefghijklmnopqrstuvwxyz"

  predicate OneOf(s: string, c: int) {
    exists k :: 0 <= k < |s| && s[k] as int == c
  }

  lemma DigitsAre(c: int)
    ensures OneOf(DIGITS, c) <==> 48 <= c <= 57
  {
    forall k | 0 <= k < |DIGITS|
      ensures DIGITS[k] as int == 48 + k
    {
    }
    if 48 <= c <= 57 {
      assert DIGITS[c - 48] as int == c;
    }
  }

  lemma CapitalsAre(c: int)
    ensures OneOf(CAPITALS, c) <==> 65 <= c <= 90
  {
    forall k | 0 <= k < |CAPITALS|
      ensures CAPITALS[k] as int == 65 + k
    {
    }
    if 65 <= c <= 90 {
      assert CAPITALS[c - 65] as int == c;
    }
  }

  lemma LettersAre(c: int)
    ensures OneOf(LETTERS, c) <==> 97 <= c <= 122
  {
    forall k | 0 <= k < |LETTERS|
      ensures LETTERS[k] as int == 97 + k
    {
    }
    if 97 <= c <= 122 {
      assert LETTERS[c - 97] as int == c;
    }
  }

  /** The word characters are these 62 and the underscore (section 22.2.2.7.3 of ECMA-262), and no others. */
  lemma WordCharsAre(c: int)
    ensures IsWordChar(c) <==> OneOf(DIGITS, c) || OneOf(CAPITALS, c) || OneOf(LETTERS, c) || c == '_' as int
  {
    DigitsAre(c);
    CapitalsAre(c);
    LettersAre(c);
  }

  lemma LineTerminatorsAre(c: int)
    ensures IsLineTerminator(c) <==> c in [0x0A, 0x0D, 0x2028, 0x2029]
  {
  }

  /** The units at `i` and `i + 1` are one UTF-16 pair. */
  predicate PairAt(x: Subject, i: int) {
    x.kind.Utf16? && 0 <= i && i + 1 < |x.units| && IsHiSurrogate(x.units[i]) && IsLoSurrogate(x.units[i + 1])
  }

  /** `i` does not split a surrogate pair. */
  predicate Aligned(x: Subject, i: int) {
    !PairAt(x, i - 1)
  }

  // GET_CHAR: the character that starts at i ...
  function CharAt(x: Subject, i: nat): (c: int)
    requires i < |x.units|
    ensures 0 <= c <= 0x10FFFF
  {
    if PairAt(x, i) then FromSurrogate(x.units[i], x.units[i + 1]) else x.units[i]
  }

  // ... and the position after it.
  function NextPos(x: Subject, i: nat): (j: nat)
    requires i < |x.units|
    ensures i < j <= |x.units|
  {
    if PairAt(x, i) then i + 2 else i + 1
  }

  // PREV_CHAR
  function PrevPos(x: Subject, i: nat): (j: nat)
    requires 0 < i <= |x.units|
    ensures j < i
  {
    if PairAt(x, i - 2) then i - 2 else i - 1
  }

  // PEEK_PREV_CHAR
  function PrevChar(x: Subject, i: nat): int
    requires 0 < i <= |x.units|
  {
    if PairAt(x, i - 2) then FromSurrogate(x.units[i - 2], x.units[i - 1]) else x.units[i - 1]
  }

  /** After a character the position is aligned, wherever the character started. */
  lemma NextIsAligned(x: Subject, i: nat)
    requires i < |x.units|
    ensures Aligned(x, NextPos(x, i))
  {
  }

  /** PREV_CHAR undoes GET_CHAR exactly at the positions that do not split a pair. */
  lemma PrevUndoesNext(x: Subject, i: nat)
    requires i < |x.units|
    ensures PrevPos(x, NextPos(x, i)) == i <==> Aligned(x, i)
  {
  }
}
