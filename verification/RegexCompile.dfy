/** The code emitted for each term, as a function of the term.  All jumps are relative,
    so the code of a term does not depend on where it is placed. */
module RegexCompile {
  import opened RegexSyntax
  import opened RegexCode

  ///// The two scans of the code of an atom

  predicate IsCharOp(i: Instr) {
    i.IChar8? || i.IChar16? || i.IChar32? || i.IDot? || i.IAny? || i.IRange? || i.IRange32?
  }

  predicate IsAssertionOp(i: Instr) {
    i.ILineStart? || i.ILineEnd? || i.IWordBoundary?
  }

  /** `re_is_simple_quantifier`: the number of characters the atom reads, -1 when another opcode occurs. */
  function SimpleScan(code: Code): (n: int)
    ensures -1 <= n
  {
    if code == [] then 0
    else if IsCharOp(code[0]) then
      var n := SimpleScan(code[1..]);
      if n < 0 then -1 else n + 1
    else if IsAssertionOp(code[0]) then SimpleScan(code[1..])
    else -1
  }

  /** The opcodes whose effect on the position `re_need_check_advance` can predict. */
  predicate Predictable(i: Instr) {
    IsCharOp(i) || IsAssertionOp(i) || i.IPushI32? || i.IPushCharPos? || i.IDrop? || i.ISave? || i.ISaveReset?
  }

  predicate AllPredictable(code: Code) {
    code == [] || (Predictable(code[0]) && AllPredictable(code[1..]))
  }

  predicate ReadsChar(code: Code) {
    code != [] && (IsCharOp(code[0]) || ReadsChar(code[1..]))
  }

  /** `re_need_check_advance`: false only if the code always advances. */
  predicate NeedCheck(code: Code) {
    !AllPredictable(code) || !ReadsChar(code)
  }

  ///// Character classes

  function Pairs16(points: seq<int>): (pairs: seq<(int, int)>)
    requires |points| % 2 == 0
    ensures |pairs| == |points| / 2
  {
    if points == [] then []
    else [(points[0], if points[1] - 1 == UINT32_MAX - 1 then 0xffff else points[1] - 1)] + Pairs16(points[2..])
  }

  function Pairs32(points: seq<int>): (pairs: seq<(int, int)>)
    requires |points| % 2 == 0
    ensures |pairs| == |points| / 2
  {
    if points == [] then [] else [(points[0], points[1] - 1)] + Pairs32(points[2..])
  }

  /** The largest boundary, the infinite one aside. */
  function HighPoint(points: seq<int>): int
    requires |points| >= 2
  {
    if points[|points| - 1] == UINT32_MAX then points[|points| - 2] else points[|points| - 1]
  }

  /** `re_emit_range` */
  function ClassInstr(points: seq<int>): Instr
    requires |points| % 2 == 0
  {
    if points == [] then IChar32(UINT32_MAX)
    else if HighPoint(points) <= 0xffff then IRange(Pairs16(points))
    else IRange32(Pairs32(points))
  }

  function CharInstr(c: int): Instr {
    if c <= 0x7f then IChar8(c) else if c <= 0xffff then IChar16(c) else IChar32(c)
  }

  ///// Quantifiers

  /** The code of one optional iteration: when the atom may match the empty string,
      it is bracketed by a test that the position moved. */
  function Iteration(atom: Code): Code {
    if NeedCheck(atom) then [IPushCharPos] + atom + [ICheckAdvance] else atom
  }

  function SimpleCode(atom: Code, min: nat, max: nat): Code {
    [ISimpleGreedy(CodeSize(atom) + 1, min, max, SimpleScan(atom))] + atom + [IMatch]
  }

  function OptionCode(atom: Code, greedy: bool): Code {
    [ISplit(greedy, CodeSize(Iteration(atom)))] + Iteration(atom)
  }

  function StarCode(atom: Code, greedy: bool): Code {
    var n := CodeSize(Iteration(atom));
    [ISplit(greedy, n + 5)] + Iteration(atom) + [IGoto(-(n + 10))]
  }

  function CountedCode(atom: Code, greedy: bool, count: nat): Code {
    var n := CodeSize(Iteration(atom));
    [IPushI32(count), ISplit(greedy, n + 5)] + Iteration(atom) + [ILoop(-(n + 10)), IDrop]
  }

  function PlusCode(atom: Code, greedy: bool): Code {
    atom + [ISplit(!greedy, -(CodeSize(atom) + 5))]
  }

  function TimesCode(atom: Code, count: nat): Code {
    [IPushI32(count)] + atom + [ILoop(-(CodeSize(atom) + 5)), IDrop]
  }

  function ResetCode(cc: nat, captures: nat): Code {
    if captures > 0 then [ISaveReset(cc, cc + captures - 1)] else []
  }

  predicate IsSimple(atom: Code, max: nat, greedy: bool) {
    greedy && max > 0 && SimpleScan(atom) > 0
  }

  function QuantCode(atom: Code, cc: nat, captures: nat, min: nat, max: nat, greedy: bool): Code {
    if IsSimple(atom, max, greedy) then SimpleCode(atom, min, max)
    else LoopCode(atom, cc, captures, min, max, greedy)
  }

  /** The generic loops. */
  function LoopCode(atom: Code, cc: nat, captures: nat, min: nat, max: nat, greedy: bool): Code {
    if min == 0 then ResetCode(cc, captures) + OptionalCode(atom, max, greedy)
    else if min == 1 && max == INT32_MAX && !NeedCheck(atom) then PlusCode(atom, greedy)
    else MandatoryCode(atom, min) + RestCode(atom, min, max, greedy)
  }

  /** The code of `{0,max}`. */
  function OptionalCode(atom: Code, max: nat, greedy: bool): Code {
    if max == 0 then []
    else if max == 1 then OptionCode(atom, greedy)
    else if max == INT32_MAX then StarCode(atom, greedy)
    else CountedCode(atom, greedy, max)
  }

  function MandatoryCode(atom: Code, min: nat): Code {
    if min == 1 then atom else TimesCode(atom, min)
  }

  /** The code after the mandatory iterations, with its own copy of the atom. */
  function RestCode(atom: Code, min: nat, max: nat, greedy: bool): Code {
    if max == INT32_MAX then StarCode(atom, greedy)
    else if max > min then CountedCode(atom, greedy, max - min)
    else []
  }

  /** The code of `r` when `cc` is the number of the next capture group. */
  function CodeOf(r: Regex, cc: nat): Code
    requires Valid(r)
  {
    match r
    case Empty => []
    case Chr(c) => [CharInstr(c)]
    case Dot => [IDot]
    case Any => [IAny]
    case Class(points) => [ClassInstr(points)]
    case LineStart => [ILineStart]
    case LineEnd => [ILineEnd]
    case WordBoundary(negated) => [IWordBoundary(negated)]
    case Cat(a, b) => CodeOf(a, cc) + CodeOf(b, cc + Captures(a))
    case Alt(a, b) => AltCode(CodeOf(a, cc), CodeOf(b, cc + Captures(a)))
    case Capture(b) => [ISave(false, cc)] + CodeOf(b, cc + 1) + [ISave(true, cc)]
    case Look(negated, b) => LookCode(negated, CodeOf(b, cc))
    case Quant(b, min, max, greedy) => QuantCode(CodeOf(b, cc), cc, Captures(b), min, max, greedy)
  }

  function AltCode(a: Code, b: Code): Code {
    [ISplit(true, CodeSize(a) + 5)] + a + [IGoto(CodeSize(b))] + b
  }

  function LookCode(negated: bool, b: Code): Code {
    [ILook(negated, CodeSize(b) + 1)] + b + [IMatch]
  }

  ///// A whole program (`lre_compile`)

  /** Try every start position in turn, unless the match is sticky. */
  function SearchPrefix(sticky: bool): Code {
    if sticky then [] else [ISplit(false, 6), IAny, IGoto(-11)]
  }

  function ProgramCode(r: Regex, sticky: bool): Code
    requires Valid(r)
  {
    SearchPrefix(sticky) + ([ISave(false, 0)] + CodeOf(r, 1) + [ISave(true, 0), IMatch])
  }

  /** The code of `r` and of every term inside it is smaller than 2 GiB. */
  predicate Small(r: Regex, cc: nat)
    requires Valid(r)
  {
    CodeSize(CodeOf(r, cc)) < TWO31 &&
    match r
    case Cat(a, b) => Small(a, cc) && Small(b, cc + Captures(a))
    case Alt(a, b) => Small(a, cc) && Small(b, cc + Captures(a))
    case Capture(b) => Small(b, cc + 1)
    case Look(_, b) => Small(b, cc)
    case Quant(b, _, _, _) => Small(b, cc)
    case _ => true
  }
}
