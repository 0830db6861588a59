/** Regular expressions after the surface syntax has been read: one node per term
    the parser emits code for.  Non-capturing groups leave no node. */
module RegexSyntax {

  /** The repeat count that stands for infinity. */
  const INT32_MAX := 0x7fff_ffff
  const UINT32_MAX := 0xffff_ffff
  const CAPTURE_COUNT_MAX := 255

  datatype Regex =
    | Empty
    | Chr(c: int)
    | Dot
    | Any
    | Class(points: seq<int>)
    | LineStart
    | LineEnd
    | WordBoundary(negated: bool)
    | Cat(left: Regex, right: Regex)
    | Alt(left: Regex, right: Regex)
    | Capture(body: Regex)
    | Look(negated: bool, body: Regex)
    | Quant(body: Regex, min: nat, max: nat, greedy: bool)

  /** Strictly increasing boundary array of even length (libunicode's CharRange). */
  predicate Canonical(points: seq<int>) {
    |points| % 2 == 0 &&
    (forall k :: 0 <= k < |points| ==> 0 <= points[k] <= UINT32_MAX) &&
    (forall j, k :: 0 <= j < k < |points| ==> points[j] < points[k])
  }

  /** Membership in the set a boundary array denotes. */
  predicate InClass(points: seq<int>, c: int) {
    exists k :: 0 <= k < |points| / 2 && points[2 * k] <= c < points[2 * k + 1]
  }

  predicate Valid(r: Regex) {
    match r
    case Chr(c) => 0 <= c <= 0x10FFFF
    case Class(points) => Canonical(points)
    case Cat(a, b) => Valid(a) && Valid(b)
    case Alt(a, b) => Valid(a) && Valid(b)
    case Capture(b) => Valid(b)
    case Look(_, b) => Valid(b)
    case Quant(b, min, max, _) => Valid(b) && min <= max <= INT32_MAX
    case _ => true
  }

  /** No character class has too many ranges for its 16-bit count. */
  predicate ClassesFit(r: Regex) {
    match r
    case Class(points) => |points| / 2 < 65535
    case Cat(a, b) => ClassesFit(a) && ClassesFit(b)
    case Alt(a, b) => ClassesFit(a) && ClassesFit(b)
    case Capture(b) => ClassesFit(b)
    case Look(_, b) => ClassesFit(b)
    case Quant(b, _, _, _) => ClassesFit(b)
    case _ => true
  }

  /** The number of capture groups. */
  function Captures(r: Regex): nat {
    match r
    case Cat(a, b) => Captures(a) + Captures(b)
    case Alt(a, b) => Captures(a) + Captures(b)
    case Capture(b) => 1 + Captures(b)
    case Look(_, b) => Captures(b)
    case Quant(b, _, _, _) => Captures(b)
    case _ => 0
  }
}
