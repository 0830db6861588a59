# Models of the algorithmic core of QuickJS-NG

This project models four self-contained parts of the JavaScript engine in `c_src/quickjs_ng` and proves
what they are for. Each part takes the form of the code: buffers are arrays or fields that methods update in
place, loops keep their variables and their branches, and what a loop computes is tied to a function or a
predicate about which the lemmas are proved. `dafny verify dfyconfig.toml` verifies everything.

## Regular expressions (`libregexp.c`), files `Regex*.dfy`

A parsed regular expression is a term (`RegexSyntax`). Its meaning is the ordered, finite list of end positions
that the matcher of section 22.2.2 of ECMA-262 tries (`RegexSemantics.Ends`); with captures, cleared in every iteration
as the standard does, it is `RegexGroups.Results`, and with captures reset where the code resets them `Matches`. The
code of a term is a list of instructions (`RegexCompile.CodeOf`) with the real opcode numbers, operand widths and relative
jumps (`RegexCode`). The machine is a transition system over byte code, position, captures, operand stack and saved
states (`RegexVM`).

* The emitter (`RegexEmit.Emitter`), which appends, inserts in front of code already emitted, copies atoms and
  patches offsets, leaves exactly the assembled `CodeOf` in its buffer.
* The code of every term offers exactly the matches of the term, in order (`RegexProgram.CodePerforms`), for
  characters, classes, assertions, concatenation, alternation, groups, lookaheads and greedy and lazy quantifiers
  of every bound.
* A program finds the leftmost start with the preferred end (`RegexSearch.ExecCorrect`). The interpreter with its
  mutable arrays (`RegexExec`) follows the transition system step by step, so the chain from `RegexCompiler.Compile`
  to `RegexExec.Exec` is closed: compiled bytes, executed, report what the specification says.
* Every group that ECMA-262 reports is in the capture array with its bounds, for every term (`RegexGroups.ResultsAlike`,
  in the contract of `Exec`), and nothing else is there when what a quantifier repeats records all its groups each time.
  Otherwise the array can keep the bounds of an earlier iteration: `RegexGroups.StaleGroup` shows it for `(?:(a)|b)*` on
  "ab", where the standard has no group 1 and the code has (0, 1).
* From a start index inside a surrogate pair this fails for some expressions, and only then:
  `RegexAlignment.CorrectIffAligned` is an equivalence. There section 22.2.7.2 of ECMA-262 starts the matcher at the whole
  pair (`RegexSearch.Search`), and the code at its low unit, so an expression for the lone low unit matches in the code
  only. The header comment of `lre_exec` asks for an index between 0 and the length and does not mention this.
* The linear stack analysis of the compiler is exact in every reachable state (`RegexStack.RunsLevel`).
* The simple greedy opcode refines the generic loop (`RegexProgram.SimpleRefinesLoop`), and the three encodings of a
  class and the binary search over their bytes decide membership (`RegexClass`, `RegexTables`).

## Numbers and strings (`dtoa.c`)

`Limbs`, `InvariantDivision` and `Bignum` are the limb arithmetic, in place; `Rounding` says what rounding means and
that it is unique. A double is its bits, `Doubles.Units` is its value times 2^1074, and `Doubles.IsNearest` is rounding
to the nearest double with ties to even (section 4.3.1 of IEEE 754), infinity counting as 2^1024.

* Scaling by a power of a radix of either sign and rounding is exact, although negative powers divide repeatedly and
  truncate (`MulPow.MulPowRound`); rounding to a double is correct through subnormals, carries and both cut-offs
  (`RoundToDouble.MulPowRoundToD`).
* The search for digits, in every radix from 2 to 36, finds digits that read back and are the closest of their length
  (`ShortestSearch.Search`). They are the fewest if and only if, for every smaller number of digits, the closest number
  failing to read back means that the next one up fails too (`LopsidedDoubles.FewestIff`, a condition on the double, the
  radix and the number of digits tried first). That holds unless the significand is 2^52 (`FewestUnlessLopsided`), and
  `NotAlwaysShortest` shows that it can fail there: 2^-44 is printed with 17 digits although 16 are enough. The comment in
  the source promises the minimum without exception.
* The constant tables and the 52 limbs of the buffer suffice in every radix: the estimate of the exponent is exact, the
  cut-offs are right, and no intermediate number is too long (`RadixLogs`, `RadixTables`, `RadixEstimate`). Logarithms are
  bounded by comparing powers of odd numbers with powers of two (`RadixCertificates`).
* For every string and radix from 2 to 36, reading ends with failure exactly for a malformed numeral, and otherwise with
  the correctly rounded double of the digits that count (`AtoD.StringToD`); in a radix that is a power of two all digits
  count. An exponent from 2147483640 on is not kept: then the result is right if and only if the number is out of range,
  which it is unless the numeral has hundreds of millions of digits (`AtoD.ShortDecides`, `AtoD.LongFraction`).
* The numerals that are read are exactly those of a grammar of concatenated parts, in every radix
  (`NumeralGrammar.NumeralIff`, `ParseWritten`), and the case of digits makes no difference (`NumeralCase`).
* The digits of every finite double are laid out as section 6.1.6.1.20 of ECMA-262 asks for: dot, padding, and an exponent
  if and only if the number is at least 10^21, or not zero and below 10^-6 (`NumberText`).
* What is printed in radix 10 is read back, for every double, sign and exponent mode (`DoubleRoundTrip.PrintAndRead`).

## Character sets, sorting, normalization (`libunicode.c`, `libunicode.h`, `cutils.h`)

* A set is a sequence of boundaries (`CharSets`), strictly increasing ones are unique; union, intersection, symmetric
  difference, complement and compression, in place, are what their names say (`CharRanges`), and converting a set with
  the case tables gives the image set (`CaseFolding`).
* `Quicksort.QuickSort` sorts any array by any total preorder with its fixed stack of 50 entries, falling back on
  `Heapsort`.
* A lookup through the block index agrees with the linear decoder of the same table (`PropertyTables`). An encoder of run
  lengths and of index entries (`RunEncoding`) says what the bytes mean: decoding its output gives the runs it was given,
  and every complete table is its output.
* `Normalization` proves canonical ordering in place, and that the composition loop composes as definition D117 of
  section 3.11 of the Unicode Standard does when composites are starters; a small pair function with another composite
  shows that the two can differ otherwise.

## UTF-8 and UTF-16 (`cutils.h`), files `Utf8.dfy` and `Utf8Table.dfy`

The bytes of a code point are those of the table of section 3 of RFC 3629, surrogates being code points of their own, and
are ordered as code points are; the decoder accepts exactly the rows of the table. Encoding and decoding are inverse on
single code points in both directions, and every sequence of 16-bit units, lone surrogates included, survives the buffer
loops; the scan counts what the decoder produces.

## Model

| member | source | states |
|---|---|---|
| RegexInput.PrevUndoesNext | c_src/quickjs_ng/libregexp.c:1906-1987 | stepping back after reading a character returns to where it started if and only if that place does not split a surrogate pair (UTF-16 mode) |
| RegexInput.WordCharsAre | c_src/quickjs_ng/libregexp.c:1898-1904 | the word characters are the ten digits, the 26 capitals, the 26 small letters and the underscore, and no others |
| RegexInput.LineTerminatorsAre | c_src/quickjs_ng/libregexp.c:1893-1896 | the line terminators are U+000A, U+000D, U+2028 and U+2029, and no others |
| RegexText.Walk | c_src/quickjs_ng/libregexp.c:1906-1987 | on the UTF-16 encoding of any code points, reading forward from the place of one gives it and comes to the place of the next, and reading backward comes back |
| RegexText.AlignedIsPlace | c_src/quickjs_ng/libregexp.c:1906-1987 | the places of the code points are exactly the positions that do not split a surrogate pair |
| RegexCode.FetchEncoded | c_src/quickjs_ng/libregexp-opcode.h:28-57 | every instruction, written with its real opcode number and operand widths, decodes to itself wherever it lies in the buffer |
| RegexCode.OpcodeNumbers | c_src/quickjs_ng/libregexp-opcode.h:28-57 | the number of every opcode, in the order of the header |
| RegexCode.FieldBytes | c_src/quickjs_ng/libregexp.c:349-371 | 16-bit and 32-bit fields have their lowest byte first |
| RegexCode.AssembledAt | c_src/quickjs_ng/libregexp.c:349-383 | an assembled list of instructions is found in the buffer, instruction by instruction, at the offsets its sizes give |
| RegexEmit.Emitter.EmitGoto | c_src/quickjs_ng/libregexp.c:364-371 | a jump to an absolute target is stored as the 32-bit word, modulo 2^32, of the distance from behind the operand |
| RegexEmit.Emitter.Insert | c_src/quickjs_ng/libregexp.c:122-129 | inserting bytes moves what follows and leaves both sides unchanged |
| RegexEmit.IsSimpleQuantifier | c_src/quickjs_ng/libregexp.c:999-1037 | the byte scan returns the number of characters an atom of character and assertion opcodes reads, and -1 for any other atom |
| RegexEmit.NeedCheckAdvance | c_src/quickjs_ng/libregexp.c:943-996 | the byte scan asks for an advance check unless the code consists of predictable opcodes and reads a character |
| RegexEmit.Emitter.EmitQuantifier | c_src/quickjs_ng/libregexp.c:1541-1667 | inserting splits, counters and checks before the atom, copying the atom and patching offsets leaves exactly the assembled code of the quantifier, for every minimum, maximum, greediness and atom |
| RegexEmit.Emitter.EmitAlt | c_src/quickjs_ng/libregexp.c:1716-1748 | the split inserted before the first alternative and the goto patched behind it give the code of the disjunction; failure exactly for too many captures or too many ranges |
| RegexEmit.Emitter.EmitLook | c_src/quickjs_ng/libregexp.c:1275-1286 | the lookahead with its jump patched over its own match opcode |
| RegexEmit.Emitter.EmitCapture | c_src/quickjs_ng/libregexp.c:1309-1327 | a group numbered in order of its opening parenthesis, refused when 255 groups exist |
| RegexEmit.Emitter.Emit | c_src/quickjs_ng/libregexp.c:1186-1748 | emitting any term appends the assembled code of the term and counts its groups; it fails exactly when a limit is exceeded |
| RegexFit.CodeFit | c_src/quickjs_ng/libregexp.c:1541-1748 | all operands of the emitted code fit their fields when the code is below 2 GiB and the group and range limits hold |
| RegexEmit.Emitter.EmitRange | c_src/quickjs_ng/libregexp.c:785-821 | a character class is emitted in the encoding chosen for it; refused exactly from 65535 intervals on |
| RegexClass.Range16Agrees | c_src/quickjs_ng/libregexp.c:785-821 | the 16-bit table with 0xffff for infinity accepts a code point exactly when it is in the class |
| RegexClass.ClassAgrees | c_src/quickjs_ng/libregexp.c:785-821 | whichever of the three encodings is chosen (never matching, 16-bit, 32-bit), the opcode accepts a code point exactly when it is in the class |
| RegexTables.SearchRange16 | c_src/quickjs_ng/libregexp.c:2363-2402 | the unsigned binary search over the bytes of a sorted 16-bit table decides membership and never goes below index zero |
| RegexTables.SearchRange32 | c_src/quickjs_ng/libregexp.c:2403-2439 | the same for 32-bit tables |
| RegexTables.ProgramSorted | c_src/quickjs_ng/libregexp.c:785-821 | every range table of a compiled program is sorted, as the binary search needs |
| RegexSemantics.MatchesPositions | c_src/quickjs_ng/libregexp.c:1580-1589 | the states the code visits have exactly the end positions, in order, of the matcher of section 22.2.2 of ECMA-262, although captures are reset once before a loop and not in each iteration |
| RegexYields.YieldsAppend | c_src/quickjs_ng/libregexp.c:2092-2161 | a run that offers some results and, when they are given up, others, offers the concatenation: the rule of backtracking |
| RegexCorrect.BindMatches | c_src/quickjs_ng/libregexp.c:2092-2161 | continuing every result of one piece of code with the next piece offers the ordered flat map |
| RegexCorrect.SplitYields | c_src/quickjs_ng/libregexp.c:2184-2202 | a split offers the results of its preferred branch, then those of the other |
| RegexCorrect.LookPerforms | c_src/quickjs_ng/libregexp.c:2148-2158 | a lookahead offers its start position once, keeping the captures of its first match if positive, and nothing if its body decides against it; the choice points of the body are discarded |
| RegexCorrect.CapturePerforms | c_src/quickjs_ng/libregexp.c:2251-2257 | the code of a capture group offers what `Matches` says of the group; which bounds that records is stated by RegexGroups.GroupBounds |
| RegexGroups.GroupBounds | c_src/quickjs_ng/libregexp.c:2251-2257 | in every match of a group, the two captures of the group are the position where its body started and the position where it ended |
| RegexGroups.ResultsAlike | c_src/quickjs_ng/libregexp.c:2251-2272 | for every term, the code and the matcher of ECMA-262, which maps group numbers to bounds and clears the groups of a repeated term in every iteration, reach the same positions in the same order; every group of the standard has the same bounds in the code, and when what is repeated records all its groups each time the captures are the same |
| RegexGroups.StaleGroup | c_src/quickjs_ng/libregexp.c:1580-1589 | for a star over an alternative with a group in its first branch they are not, on "ab": the code keeps the bounds of the first iteration, which the standard clears |
| RegexLoops.StarPerforms | c_src/quickjs_ng/libregexp.c:1592-1605 | the unbounded loop performs RepeatMatcher of section 22.2.2.3.1 of ECMA-262: iterations that do not advance are given up |
| RegexLoops.CountedPerforms | c_src/quickjs_ng/libregexp.c:1606-1622 | the loop with a counter on the operand stack performs at most that many iterations |
| RegexLoops.PlusPerforms | c_src/quickjs_ng/libregexp.c:1623-1626 | the short form of one-or-more, used when every match advances, performs RepeatMatcher |
| RegexLoops.UncheckedIterates | c_src/quickjs_ng/libregexp.c:943-996 | where the scan omits the advance check, every match advances anyway |
| RegexQuant.RepeatIsTimesThen | c_src/quickjs_ng/libregexp.c:1627-1665 | RepeatMatcher is the mandatory iterations followed by optional ones, which is how the code is split |
| RegexQuant.TimesPerforms | c_src/quickjs_ng/libregexp.c:1628-1639 | the counting loop performs exactly the mandatory iterations |
| RegexAtoms.SimpleSound | c_src/quickjs_ng/libregexp.c:999-1037 | an atom the scan accepts has at most one match, found by the nested run, and stepping back by its character count undoes it |
| RegexAtoms.CapturesNotSimple | c_src/quickjs_ng/libregexp.c:999-1037 | an atom with a capture group is never accepted by the scan |
| RegexSimple.SimplePerforms | c_src/quickjs_ng/libregexp.c:2125-2147 | the simple greedy opcode, which counts runs and then steps back, offers what RepeatMatcher asks for in the same order |
| RegexProgram.SimpleRefinesLoop | c_src/quickjs_ng/libregexp.c:1541-1565 | for an atom the scan accepts, the simple greedy code and the generic greedy loop offer the same states in the same order |
| RegexProgram.QuantPerforms | c_src/quickjs_ng/libregexp.c:1541-1667 | the code of any quantifier offers the matches of the quantified term, best first |
| RegexProgram.CodePerforms | c_src/quickjs_ng/libregexp.c:1186-1748 | compilation preserves meaning: the code of every term offers exactly the term's matches, all of them, in order of preference, and then fails back to the saved states it started with |
| RegexCaptures.MatchesRecord | c_src/quickjs_ng/libregexp.c:2251-2272 | matching changes only the captures of the term's own groups, and a recorded group has its start not behind its end |
| RegexSearch.PrefixYields | c_src/quickjs_ng/libregexp.c:1831-1839 | the prefix of a program that is not sticky offers the matches of every start position in turn |
| RegexSearch.GroupsFirst | c_src/quickjs_ng/libregexp.c:2251-2272 | the first match of a whole program has the group bounds of the result that ECMA-262 prefers |
| RegexSearch.FirstOfAll | c_src/quickjs_ng/libregexp.c:1831-1853 | from a start index that does not split a surrogate pair, the first of all these matches is the leftmost start with the preferred end and the group bounds that RegExpBuiltinExec of section 22.2.7.2 of ECMA-262 asks for |
| RegexSearch.ExecCorrect | c_src/quickjs_ng/libregexp.c:2075-2493 | from every start index that does not split a surrogate pair the machine stops, and reports success with the leftmost start, the preferred end and its group bounds exactly when there is a match |
| RegexAlignment.CorrectIffAligned | c_src/quickjs_ng/libregexp.c:2494-2534 | all compiled programs run correctly from a start index, as RegExpBuiltinExec of section 22.2.7.2 of ECMA-262 asks, if and only if the index does not split a surrogate pair |
| RegexAlignment.SplitPairFails | c_src/quickjs_ng/libregexp.c:1909-1924 | from every start index inside a pair the program for the lone low unit succeeds, where the standard takes the character at that index to be the whole pair and finds no match |
| RegexStack.CodeFits | c_src/quickjs_ng/libregexp.c:1751-1794 | the code of every term keeps the depth of the linear analysis at every jump target, wherever it is placed |
| RegexStack.StepLevel | c_src/quickjs_ng/libregexp.c:2109-2124 | every step of the machine, including restoring a saved state, keeps the operand stack of the state and of all saved states at the depth the analysis gives for its program counter |
| RegexStack.RunsLevel | c_src/quickjs_ng/libregexp.c:2273-2296 | in every state of every run of a compiled program the operand stack has exactly the depth of the linear analysis, so it is never negative nor above the computed size |
| RegexCompiler.ComputeStackSize | c_src/quickjs_ng/libregexp.c:1751-1794 | the byte loop returns the deepest level of the straight walk, and -1 above the limit |
| RegexCompiler.Limits | c_src/quickjs_ng/libregexp.c:1310-1327 | an expression is too large exactly from 255 groups, a stack of 256 words or a class of 65535 intervals on |
| RegexCompiler.EmitPrefix | c_src/quickjs_ng/libregexp.c:1831-1839 | the bytes of the search prefix are its assembled instructions |
| RegexCompiler.Compile | c_src/quickjs_ng/libregexp.c:1800-1890 | compiling succeeds exactly when no limit is exceeded, and leaves header, prefix, body and final match with capture count, stack size and length patched in |
| RegexExec.Interpreter.constructor | c_src/quickjs_ng/libregexp.c:2498-2532 | the interpreter starts with all captures unset, an empty operand stack and no saved states |
| RegexExec.Interpreter.PushState | c_src/quickjs_ng/libregexp.c:2026-2062 | saving a state copies the captures and the operand stack, so later changes do not reach it |
| RegexExec.Interpreter.Opcode | c_src/quickjs_ng/libregexp.c:2088-2491 | one opcode, executed on the mutable arrays, is one transition of the machine |
| RegexExec.Interpreter.StackOp | c_src/quickjs_ng/libregexp.c:2273-2296 | pushing, dropping, counting down and the advance check on the operand stack in place, within its size |
| RegexExec.Interpreter.GreedyOp | c_src/quickjs_ng/libregexp.c:2446-2488 | counting the runs of the atom and saving the greedy point |
| RegexExec.Interpreter.StepBack | c_src/quickjs_ng/libregexp.c:2125-2147 | restoring a greedy point, stepping back the atom's characters and counting down in the saved state |
| RegexExec.Interpreter.Unwind | c_src/quickjs_ng/libregexp.c:2099-2161 | unwinding one saved state after a failure or a match, for split points, lookaheads of both kinds and greedy points |
| RegexExec.Backtrack | c_src/quickjs_ng/libregexp.c:2075-2493 | the interpreter loop ends with the result and the captures of the transition system, through all its backtracking |
| RegexExec.Exec | c_src/quickjs_ng/libregexp.c:2498-2534 | compiled bytes run on a buffer of 8-bit or 16-bit units, read as UTF-16 when the program has the unicode flag, from a start index that does not split a surrogate pair: success exactly when there is a match from the start index on, with the leftmost start, the preferred end and the bounds of every group of ECMA-262's result in the capture array, and no other bounds when what is repeated records all its groups each time |
| RegexExec.FlagsMean | c_src/quickjs_ng/libregexp.h:37-45 | of a flag word only the values 4, 16 and 32 matter: multi-line, unicode, sticky |
| RegexExec.MultiLineMeans | c_src/quickjs_ng/libregexp.c:2221-2239 | a line starts at 0 and ends at the end of the subject, and with the flag of value 4 also behind and before each of the four line terminators |
| Heapsort.SiftDown | c_src/quickjs_ng/cutils.h:1392-1398 | one element sinks to its place: the heap reaches one element further down and the range is rearranged only |
| Heapsort.RootIsLargest | c_src/quickjs_ng/cutils.h:1400-1409 | no element of a heap is larger than its root |
| Heapsort.HeapSort | c_src/quickjs_ng/cutils.h:1380-1412 | heap sort leaves its range sorted, a permutation of what it was, and everything else unchanged |
| Quicksort.MedianIsMiddle | c_src/quickjs_ng/cutils.h:1414-1419 | for a total preorder the chosen pivot lies between the two other elements |
| Quicksort.ScanUp | c_src/quickjs_ng/cutils.h:1462-1470 | the scan from the left keeps the five zones and stops at an element above the pivot |
| Quicksort.ScanDown | c_src/quickjs_ng/cutils.h:1471-1477 | the scan from the right keeps the five zones and stops at an element below the pivot |
| Quicksort.SwapBlocks | c_src/quickjs_ng/cutils.h:1494-1509 | two blocks that do not overlap are exchanged and nothing else changes |
| Quicksort.Partition | c_src/quickjs_ng/cutils.h:1452-1515 | the partition leaves less, equal and more than the pivot, with at least one equal element |
| Quicksort.DividesKeeps | c_src/quickjs_ng/cutils.h:1518-1531 | replacing a piece by the two ends of its partition keeps all pairs in order but those inside a pending piece |
| Quicksort.InsertionSort | c_src/quickjs_ng/cutils.h:1533-1537 | insertion sort of a short piece |
| Quicksort.SortTop | c_src/quickjs_ng/cutils.h:1439-1538 | one round of the outer loop: the stack never exceeds its 50 entries because the entry at index k has depth at least k, and the pending work shrinks |
| Quicksort.QuickSort | c_src/quickjs_ng/cutils.h:1422-1539 | for every total preorder the sort ends with the array sorted and a permutation of what it was |
| Limbs.AddLimb | c_src/quickjs_ng/dtoa.c:75-89 | adding a limb with carry: value plus outgoing carry is the exact sum, and higher limbs are unchanged |
| Limbs.MulLimb | c_src/quickjs_ng/dtoa.c:91-104 | multiplying by a limb and adding one, exactly, in place |
| Limbs.DivLimb | c_src/quickjs_ng/dtoa.c:137-148 | dividing by a limb: value = quotient * b + remainder with remainder < b, in place |
| Limbs.ShiftRight | c_src/quickjs_ng/dtoa.c:152-166 | shifting right with bits entering from above: nothing is lost, what leaves is the result |
| Limbs.ShiftLeft | c_src/quickjs_ng/dtoa.c:170-183 | shifting left with bits entering from below, exactly |
| InvariantDivision.Inverse | c_src/quickjs_ng/dtoa.c:107-115 | the precomputed inverse is floor((2^64 - 1) / d) - 2^32 |
| InvariantDivision.EstimateIsClose | c_src/quickjs_ng/dtoa.c:117-135 | the quotient estimate by two multiplications is the quotient or one less |
| InvariantDivision.DivideNormalized | c_src/quickjs_ng/dtoa.c:117-135 | with the top bit of the divisor set the result is the true quotient and remainder for every a1 < d, all words wrapping around as in C |
| InvariantDivision.DivNormalized | c_src/quickjs_ng/dtoa.c:186-199 | dividing any number of limbs by a normalized divisor in place: value(a) = value(q) * (b >> shift) + remainder, with remainder < (b >> shift) |
| Rounding.RoundedOnly | c_src/quickjs_ng/dtoa.c:313-398 | the rounding that the three modes ask for is unique |
| Rounding.RoundedIsNearest | c_src/quickjs_ng/dtoa.c:313-398 | in both nearest modes no integer is closer than the rounded one |
| Bignum.Mpb.Renorm | c_src/quickjs_ng/dtoa.c:214-218 | dropping leading zero limbs keeps the value and leaves it normalized |
| Bignum.BitsAt | c_src/quickjs_ng/dtoa.c:300-310 | a bit of a number, and whether any bit below it is set, read from the limbs |
| Bignum.RoundedByBits | c_src/quickjs_ng/dtoa.c:339-373 | the last bit kept, the first bit dropped and the sticky bit decide rounding in all three modes |
| Bignum.Mpb.ShiftDownRound | c_src/quickjs_ng/dtoa.c:313-398 | shifting right rounds the quotient by 2^shift in the given mode, also when all limbs are shifted out, and keeps the number normalized |
| Bignum.Mpb.ShiftRound | c_src/quickjs_ng/dtoa.c:313-398 | for shifts of either sign the result is round(value / 2^shift); a non-zero number stays normalized |
| Bignum.Mpb.Compare | c_src/quickjs_ng/dtoa.c:401-417 | comparison of two normalized numbers is the order of their values |
| Bignum.Mpb.SetU64 | c_src/quickjs_ng/dtoa.c:419-432 | a 64-bit number on one or two limbs |
| Bignum.Mpb.GetU64 | c_src/quickjs_ng/dtoa.c:434-445 | the low 64 bits, which are the whole value when it is below 2^64 |
| Bignum.Mpb.FloorLog2 | c_src/quickjs_ng/dtoa.c:448-456 | the position of the highest bit set, -1 for zero |
| Bignum.Mpb.MulBaseAdd | c_src/quickjs_ng/dtoa.c:1332-1351 | multiplying by a base, 2^32 being written as zero, and adding a limb |
| RadixPowers.DigitsPerLimb | c_src/quickjs_ng/dtoa.c:702-708 | the table gives a number of digits whose power of the radix fits in a limb |
| RadixPowers.RadixBase | c_src/quickjs_ng/dtoa.c:710-720 | the table of bases is the power of the radix for so many digits, modulo 2^32 |
| RadixPowers.TableIsPower | c_src/quickjs_ng/dtoa.c:221-231 | the two tables of powers of five, joined, hold 5^b |
| RadixPowers.TableIsInverse | c_src/quickjs_ng/dtoa.c:233-238 | the table of inverses holds the inverse of each normalized power of five |
| RadixPowers.PowUi | c_src/quickjs_ng/dtoa.c:241-269 | the power, by table or by repeated squaring, when it fits in 64 bits |
| RadixPowers.PowUiInv | c_src/quickjs_ng/dtoa.c:271-292 | the power shifted until its top bit is set, the shift and the inverse |
| MulPow.StickyRounds | c_src/quickjs_ng/dtoa.c:924-952 | with two or more bits to drop, a truncated quotient with its lowest bit set when something was cut off rounds as the exact fraction does, in every mode |
| MulPow.MulDigits | c_src/quickjs_ng/dtoa.c:900-916 | multiplying by a power of the odd part of the radix in chunks of digits, exactly and within the counted limbs |
| MulPow.DivDigits | c_src/quickjs_ng/dtoa.c:935-950 | repeated truncating division in chunks gives the truncated quotient by the whole power and whether anything was cut off |
| MulPow.ScaleByPower | c_src/quickjs_ng/dtoa.c:893-956 | scaling by a power of the radix of either sign up to a power of two, with the sticky bit for negative powers |
| MulPow.ScaledRounds | c_src/quickjs_ng/dtoa.c:893-967 | the scaled number, shifted and rounded, is the exact fraction rounded |
| MulPow.MulPowRound | c_src/quickjs_ng/dtoa.c:959-967 | for every m, e, f of either sign for which the limbs are there, and every rounding mode, the result is round(m * 2^e * radix^f), exactly |
| Doubles.NearestOnly | c_src/quickjs_ng/dtoa.c:1003-1013 | at most one double is the nearest to a number, with ties to even and infinity counting as 2^1024 (section 4.3.1 of IEEE 754) |
| Doubles.Landmarks | c_src/quickjs_ng/dtoa.c:1123-1166 | the bits of 1, of 10, of the smallest double and of infinity |
| Doubles.RoundedIsNearestDouble | c_src/quickjs_ng/dtoa.c:970-1001 | rounding the significand at the right binade, carry into the next binade included, gives the nearest double among all doubles |
| Doubles.NearestToItself | c_src/quickjs_ng/dtoa.c:970-1001 | a double is the nearest to its own value |
| Doubles.InfinityIff | c_src/quickjs_ng/dtoa.c:1556-1562 | infinity is the nearest double exactly from 2^1024 - 2^970 on, halfway beyond the largest finite double |
| Doubles.ZeroIff | c_src/quickjs_ng/dtoa.c:1556-1562 | zero is the nearest double exactly up to 2^-1075, half of the smallest double |
| Doubles.LargeIsInfinite | c_src/quickjs_ng/dtoa.c:1577-1588 | from 2^1024 on the nearest is infinity, which justifies the overflow cut-off |
| Doubles.SmallIsZero | c_src/quickjs_ng/dtoa.c:1577-1588 | up to 2^-1075 the nearest is zero, which justifies the underflow cut-off |
| RoundToDouble.RoundToD | c_src/quickjs_ng/dtoa.c:970-1001 | the significand and exponent are those of rounding to 53 bits, or to fewer below the normal range |
| RoundToDouble.RoundsToNearest | c_src/quickjs_ng/dtoa.c:1594-1607 | the bits encoded from significand and exponent, subnormal and overflowing cases included, are the nearest double |
| RoundToDouble.MulPowRoundToD | c_src/quickjs_ng/dtoa.c:1006-1013 | the nearest double of a * radix^f for f of either sign |
| NearestDoubles.NearestIffWithin | c_src/quickjs_ng/dtoa.c:1216-1222 | a number is read as a double exactly when it lies within half of the gap on its side, the ends counting for even significands |
| ShortestDigits.BestOfDigits | c_src/quickjs_ng/dtoa.c:1195-1207 | no number with at most P digits, at any exponent, is closer to the double than the one on the grid of P digits |
| ShortestDigits.EnoughDigits | c_src/quickjs_ng/dtoa.c:1187-1194 | with radix^(P-1) >= 2^53 the nearest P-digit number always reads back, so the unchecked first try is right |
| FreeFormat.Decode | c_src/quickjs_ng/dtoa.c:1123-1166 | significand and exponent of a finite double, subnormal ones normalized |
| FreeFormat.RoundedOnGrid | c_src/quickjs_ng/dtoa.c:1202 | the scaled and rounded integer is the nearest multiple of the unit of the last digit |
| FreeFormat.BestAtEstimate | c_src/quickjs_ng/dtoa.c:1180-1182 | at the estimated exponent the rounded integer is at least B^(P-1) and at most 2 * B^P |
| FreeFormat.BestAboveEstimate | c_src/quickjs_ng/dtoa.c:1200-1207 | when it has one digit too many, the next exponent is right: the correction loop runs at most one extra time |
| ShortestSearch.FirstFit | c_src/quickjs_ng/dtoa.c:1196-1207 | the exponent loop ends at the estimate or the next exponent with the closest number of P digits |
| ShortestSearch.StripZeros | c_src/quickjs_ng/dtoa.c:1208-1212 | removing trailing zeros keeps the value and leaves a last digit that is not zero |
| ShortestSearch.ReadBack | c_src/quickjs_ng/dtoa.c:1216-1222 | the comparison of significand and exponent says whether the digits read back to the same double |
| ClosestDigits.StrippedIsClosest | c_src/quickjs_ng/dtoa.c:1208-1212 | the closest number of P digits, its trailing zeros removed, is the closest of its shorter length |
| ClosestDigits.SkippedReadBack | c_src/quickjs_ng/dtoa.c:1208-1231 | when the closest number of P digits reads back and ends in zeros, the closest numbers of the lengths that removing them skips read back too |
| ShortestSearch.Search | c_src/quickjs_ng/dtoa.c:1180-1236 | in every radix the digits found read back, no number with as many digits is closer, the closest numbers read back down to their length and not with one digit less; they are the fewest if and only if the closest number decides for every smaller length, and always unless the significand is 2^52 |
| LopsidedDoubles.NearestOrNext | c_src/quickjs_ng/dtoa.c:1193-1233 | when some number of P digits reads back, the closest one or the next one up does |
| LopsidedDoubles.FewestIff | c_src/quickjs_ng/dtoa.c:1193-1233 | the digits found are the fewest if and only if, for every number of digits below the one tried first, the closest number failing to read back means that the next one up fails too |
| LopsidedDoubles.FewestUnlessLopsided | c_src/quickjs_ng/dtoa.c:1193-1233 | they are the fewest for every double but those with significand 2^52, whose gaps below and above differ |
| LopsidedDoubles.NotAlwaysShortest | c_src/quickjs_ng/dtoa.c:1193-1233 | whatever the search finds for 2^-44 in radix 10 has 17 digits, although a number with 16 digits reads back |
| RadixLogs.PowerBelow | c_src/quickjs_ng/dtoa.c:460-471 | below the lower fraction around its logarithm a power of the radix is below the power of two |
| RadixLogs.PowerAbove | c_src/quickjs_ng/dtoa.c:460-471 | above the upper fraction it is above |
| RadixTables.RowsOk | c_src/quickjs_ng/dtoa.c:702-751 | in every radix that is no power of two, factor, digit counts, cut-offs and digits per limb satisfy the inequalities that printing and reading rely on |
| RadixEstimate.EstimateIsExact | c_src/quickjs_ng/dtoa.c:473-488 | in every radix the estimated exponent satisfies radix^(E-1) <= 2^(e-1) < radix^E for every exponent of a double |
| RadixEstimate.MostDigitsFit | c_src/quickjs_ng/dtoa.c:722-725 | in every radix the number of digits tried first is worth at least 53 bits, and the digits fit in 63 |
| RadixEstimate.BufferIsEnough | c_src/quickjs_ng/dtoa.c:64-65 | in every radix the buffer of 52 limbs is enough for every double, every number of digits tried and both exponents, for the digits and for reading them back |
| Numerals.ValueOfDigits | c_src/quickjs_ng/dtoa.c:561-588 | the digits of a number have the value of the number |
| Numerals.DigitsInGroups | c_src/quickjs_ng/dtoa.c:860-879 | the digits of a number are those of its quotient followed by those of its remainder, which is how groups are written |
| Numerals.DigitLetters | c_src/quickjs_ng/dtoa.c:1320-1330 | the character at place d of "0...9a...z" and of "0...9A...Z" has the digit d, and the first of them is the one printed |
| Numerals.OnlyDigitLetters | c_src/quickjs_ng/dtoa.c:1320-1330 | no other character has a digit |
| DigitOutput.PutDigits | c_src/quickjs_ng/dtoa.c:532-588 | the last digits of a number, written from the last to the first, at their place in the buffer and nowhere else |
| DigitOutput.PutU32 | c_src/quickjs_ng/dtoa.c:590-603 | a 32-bit number in decimal without leading zeros |
| DigitOutput.PutU64 | c_src/quickjs_ng/dtoa.c:616-645 | a 64-bit number in decimal, in groups of nine digits |
| DigitOutput.OutputDigits | c_src/quickjs_ng/dtoa.c:847-889 | the requested digits of a big number in any radix, by shifts or by division, with the dot moved into place unless it would come last |
| DtoA.PutExponent | c_src/quickjs_ng/dtoa.c:1283-1301 | the exponent with its sign |
| DtoA.PutLayout | c_src/quickjs_ng/dtoa.c:1278-1312 | the digits in the layout of their exponent and mode; NumberText.LayoutIsText says which text that is |
| DtoA.DecimalDigits | c_src/quickjs_ng/dtoa.c:1180-1236 | the decimal digits of every finite double: at most 17, reading back, closest of their length, and the fewest if and only if the closest number decides for every length below 17, which it does unless the significand is 2^52 |
| DtoA.OnlyIntegersFit | c_src/quickjs_ng/dtoa.c:1168-1177 | the condition of the integer fast path holds exactly for integers below 2^53 |
| DtoA.DToString | c_src/quickjs_ng/dtoa.c:1108-1318 | the whole text: sign, and the text of the magnitude that NumberText.FreeTextShows and ZeroText describe, or Infinity, and the terminating zero |
| NumberText.LayoutIsText | c_src/quickjs_ng/dtoa.c:1278-1312 | the layouts are those of section 6.1.6.1.20 of ECMA-262 between 10^-6 and 10^21, always exponential, or never, according to the mode |
| NumberText.FreeTextShows | c_src/quickjs_ng/dtoa.c:1108-1318 | in every mode the text of a finite double that is not zero is that layout of an integer not ending in zero and a power of ten which read back as the double |
| NumberText.ZeroText | c_src/quickjs_ng/dtoa.c:1139-1149 | zero is printed as "0", or "0e+0" when an exponent is wanted |
| NumberText.ExponentIff | c_src/quickjs_ng/dtoa.c:1282-1284 | without a mode the text has the letter "e" if and only if the number that is read from it is at least 10^21, or not zero and below 10^-6 |
| NumberText.SignAfterE | c_src/quickjs_ng/dtoa.c:1294-1301 | the letter is followed by a sign |
| NumeralScan.SkipZeros | c_src/quickjs_ng/dtoa.c:1442-1461 | skipping zeros and a dot among them stops at the first significant digit |
| NumeralScan.ReadDigits | c_src/quickjs_ng/dtoa.c:1462-1493 | reading the digits: the collected value is that of the digits up to the limit, and whether any digit beyond it is not zero |
| DigitInput.AddDigit | c_src/quickjs_ng/dtoa.c:1480-1489 | one more digit; a full limb goes to the big number |
| DigitInput.CutOffs | c_src/quickjs_ng/dtoa.c:735-751 | in every radix with an odd factor radix^max_exponent is at least 2^1024 and radix^min_exponent at most 2^-1075 |
| DigitInput.ParseRoom | c_src/quickjs_ng/dtoa.c:64-65 | in every radix with an odd factor 52 limbs are enough for the digits that are used and every power between the cut-offs |
| DigitInput.ConvertScaled | c_src/quickjs_ng/dtoa.c:1583-1589 | in every radix with an odd factor the digits times a power of the radix become the nearest double, the cut-offs included |
| DigitInput.ConvertBinary | c_src/quickjs_ng/dtoa.c:1572-1581 | a radix that is a power of two: digits with a sticky last bit times a power of two become the nearest double of all digits |
| AtoD.ReadExponent | c_src/quickjs_ng/dtoa.c:1533-1552 | the exponent, or the fact that it is at least 2147483640 |
| AtoD.StickyDigits | c_src/quickjs_ng/dtoa.c:1507-1511 | setting the lowest bit for digits beyond the limit stands for all of them |
| AtoD.NotKeptOutcome | c_src/quickjs_ng/dtoa.c:1555-1562 | infinity or zero for an exponent that is not kept is right if and only if the number is at least 2^1024 - 2^970, or at most 2^-1075 |
| AtoD.ShortDecides | c_src/quickjs_ng/dtoa.c:1555-1562 | it is right for every numeral of at most 2147482565 digits, or that many bits of digits when the exponent is binary |
| AtoD.LongFraction | c_src/quickjs_ng/dtoa.c:1555-1562 | it is wrong for 2^-4 written with 536870911 fraction digits in radix 16 and the exponent p2147483640 |
| AtoD.StringToD | c_src/quickjs_ng/dtoa.c:1354-1620 | for every string and every radix: failure exactly for a malformed numeral, otherwise the sign, the end of the numeral and, wherever the int arithmetic on the exponent is defined, the correctly rounded double of the digits that count, if and only if an exponent that is not kept decides |
| NumeralGrammar.ParseWritten | c_src/quickjs_ng/dtoa.c:1372-1563 | sign, prefix, digits, dot, more digits, exponent letter, its sign and its digits, written one after the other and followed by text that does not go on, are read as the numeral they are, in every radix |
| NumeralGrammar.NumeralIff | c_src/quickjs_ng/dtoa.c:1372-1563 | nothing else is read as a numeral |
| NumeralGrammar.InfinityIff | c_src/quickjs_ng/dtoa.c:1416-1417 | infinity is read exactly from its name with at most one sign before it, in a radix in which its letters are digits too |
| NumeralCase.LoweredParse | c_src/quickjs_ng/dtoa.c:1320-1330 | a numeral means the same with its digit letters lowered |
| NumeralCase.LoweredOutcome | c_src/quickjs_ng/dtoa.c:1320-1330 | reading has the same outcome |
| DoubleRoundTrip.ParseOfForm | c_src/quickjs_ng/dtoa.c:1385-1563 | the grammar takes a printed text apart into the parts it was made of |
| DoubleRoundTrip.DigitsReadBack | c_src/quickjs_ng/dtoa.c:1278-1312 | any layout of digits that read back is read as the double |
| DoubleRoundTrip.FreeTextReadsBack | c_src/quickjs_ng/dtoa.c:1108-1318 | whatever free format prints for a double is read as that double, to the end of the text |
| DoubleRoundTrip.PrintAndRead | c_src/quickjs_ng/dtoa.c:1108-1620 | for every finite or infinite double of either sign, zeros included, and every exponent mode, reading what was printed with the minus-zero flag succeeds, consumes the whole text and returns the same sign and bits |
| CharSets.MemberIsOdd | c_src/quickjs_ng/libunicode.c:485-502 | a code point is in a set exactly when an odd number of boundaries is at or below it |
| CharSets.CanonicalUnique | c_src/quickjs_ng/libunicode.c:426-453 | a set has only one strictly increasing sequence of boundaries |
| CharRanges.CharRange.AddInterval | c_src/quickjs_ng/libunicode.h:81-90 | an interval is appended as two boundaries |
| CharRanges.CharRange.Compress | c_src/quickjs_ng/libunicode.c:427-453 | compressing in place keeps the set and leaves strictly increasing boundaries |
| CharRanges.CharRange.Operate | c_src/quickjs_ng/libunicode.c:456-506 | the merge gives the union, intersection or symmetric difference of two sorted boundary arrays, stated by membership in either, with strictly increasing boundaries |
| CharRanges.CharRange.UnionWith | c_src/quickjs_ng/libunicode.c:508-518 | union with another set, replacing the contents |
| CharRanges.CharRange.UnionInterval | c_src/quickjs_ng/libunicode.h:94-100 | union with the code points from c1 to c2 |
| CharRanges.CharRange.Invert | c_src/quickjs_ng/libunicode.c:520-532 | the complement in [0, 2^32 - 1) |
| CharRanges.InvertTwice | c_src/quickjs_ng/libunicode.c:520-532 | inverting canonical boundaries twice gives back the same boundaries |
| CharRanges.DeMorgan | c_src/quickjs_ng/libunicode.c:456-532 | the complement of a union is the intersection of the complements, boundary for boundary |
| CaseFolding.SortAndRemoveOverlap | c_src/quickjs_ng/libunicode.c:1346-1380 | sorting the intervals and merging those that overlap or touch, in place, keeps the set and leaves strictly increasing boundaries |
| CaseFolding.FindEntry | c_src/quickjs_ng/libunicode.c:1419-1427 | the entry of a code point, searched from the entry of the one before |
| CaseFolding.FoldIntervals | c_src/quickjs_ng/libunicode.c:1407-1445 | runs of converted code points, merged as they come, denote the image of the converted part |
| CaseFolding.RegexpCanonicalize | c_src/quickjs_ng/libunicode.c:1384-1459 | for any sorted conversion table the result is canonical and denotes exactly the conversions of the code points of the input set |
| PropertyTables.SetIsCanonical | c_src/quickjs_ng/libunicode.c:1228-1265 | the linear decoder builds strictly increasing boundaries |
| PropertyTables.AddProperty | c_src/quickjs_ng/libunicode.c:1228-1265 | the linear decoder adds the intervals of the set that the run lengths of the table describe; RunEncoding.EncodedSet says which set that is |
| RunEncoding.EncodedSet | c_src/quickjs_ng/libunicode.c:1228-1265 | on the encoding of any run lengths the decoder's boundaries are the sums of the lengths, and its set is what lies in the runs with odd numbers |
| RunEncoding.EncodedRead | c_src/quickjs_ng/libunicode.c:1238-1259 | the entries of one, two and three bytes are read as the runs they were written for |
| RunEncoding.EveryTable | c_src/quickjs_ng/libunicode.c:1238-1259 | every complete table is the encoding of some entries |
| PropertyTables.GetIndexPos | c_src/quickjs_ng/libunicode.c:273-304 | the index gives a place in the table at or before the code point, or -1 exactly when it does not cover the code point |
| PropertyTables.RestDecides | c_src/quickjs_ng/libunicode.c:306-339 | from any run boundary outside the set at or before a code point, the rest of the table decides membership as the whole table does |
| PropertyTables.IsInTable | c_src/quickjs_ng/libunicode.c:306-339 | for any table and any index whose entries name run boundaries outside the set, the lookup answers membership in the decoder's set for every code point the index covers, and no for the others; it never reads past the table |
| PropertyTables.LookupIsWholeSet | c_src/quickjs_ng/libunicode.c:306-339 | lookup and decoder agree on all code points if and only if the last interval of the set ends within the index |
| RunEncoding.MarkRead | c_src/quickjs_ng/libunicode.c:281-303 | an index entry is 21 bits of code point and 3 bits of place within its block of 32 bytes, lowest byte first |
| RunEncoding.IndexIsOf | c_src/quickjs_ng/libunicode.c:273-304 | an index written for the entries of a table is one that the lookup accepts |
| Utf8.DecodeEncode | c_src/quickjs_ng/cutils.h:906-1016 | every code point, surrogates included, is decoded from its encoding whatever bytes follow (section 3 of RFC 3629, extended to surrogates) |
| Utf8.EncodeDecode | c_src/quickjs_ng/cutils.h:950-1016 | what decodes without an error is the encoding of the result: no other form of a code point is accepted |
| Utf8.DecodedEncoded | c_src/quickjs_ng/cutils.h:1130-1238 | every sequence of 16-bit units, lone surrogates included, survives encoding and decoding |
| Utf8Table.EncodeIsTable | c_src/quickjs_ng/cutils.h:906-936 | the bytes of a code point are those of the table of section 3 of RFC 3629, and no others |
| Utf8Table.DecodeIsTable | c_src/quickjs_ng/cutils.h:950-1016 | the decoder reads every row of the table, whatever follows |
| Utf8Table.TableOrError | c_src/quickjs_ng/cutils.h:950-1016 | it reads nothing else: anything else is an error of one byte |
| Utf8Table.EncodeKeepsOrder | c_src/quickjs_ng/cutils.h:906-936 | the bytes of a smaller code point are lexicographically smaller |
| Utf8Table.PairOf | c_src/quickjs_ng/cutils.h:540-553 | the surrogate pair of a code point from 0x10000 on, as section 2.1 of RFC 2781 gives it |
| Utf8.DecodeBuf16 | c_src/quickjs_ng/cutils.h:1130-1154 | the number of units the bytes decode to, of which as many are stored as there is room for |
| Utf8.EncodeBuf16 | c_src/quickjs_ng/cutils.h:1200-1238 | the number of bytes of the whole encoding; all of it and a zero byte when there is room, else whole characters only and a zero byte |
| Utf8.ThereAndBack | c_src/quickjs_ng/cutils.h:1130-1238 | with enough room, decoding what was encoded returns the original units |
| Utf8.Scan | c_src/quickjs_ng/cutils.h:1054-1092 | the scan reports exactly the decoder's number of units and the kinds of characters, on any bytes |
| Normalization.InsertByClass | c_src/quickjs_ng/libunicode.c:889-901 | one code point moves down past those of larger class: stable insertion |
| Normalization.SortByClass | c_src/quickjs_ng/libunicode.c:879-906 | canonical ordering in place: starters stay where they are and each run of non-starters is sorted stably by class |
| Normalization.OrderedUnique | c_src/quickjs_ng/libunicode.c:879-906 | a string has only one canonical order |
| Normalization.FindStarter | c_src/quickjs_ng/libunicode.c:999-1011 | the inner loop finds the last starter, or that the last character blocks it |
| Normalization.LoopIsStandard | c_src/quickjs_ng/libunicode.c:996-1020 | on a string in canonical order, when composites are starters, the loop's rule of looking at the last character only composes as definition D117 in section 3.11 of the Unicode Standard does |
| Normalization.ComposeInPlace | c_src/quickjs_ng/libunicode.c:996-1022 | the in-place loop computes that composition |
| Normalization.NonStarterCompositesCanDiffer | c_src/quickjs_ng/libunicode.c:1012-1015 | a pair function with a composite that is no starter can make loop and standard differ: five code points where it does |

## Left out

Regular expressions:

- Surface syntax: escapes, Annex B forms, group names, the pre-scan for groups and error messages; the model starts from a parsed term. Flags other than sticky and multi-line, and named groups behind the code, are not modelled.
- Ignore-case matching, back references, lookbehind and the opcodes they need.
- RegexGroups.ResultsAlike: says that the captures are those of ECMA-262 when what is repeated records all its groups each time, and not that they differ for every other term: whether an iteration can leave a group out depends on which subjects the alternatives and lookaheads inside it match.
- RegexExec.Exec: has a start index that does not split a surrogate pair; RegexAlignment.CorrectIffAligned proves that this is exactly when all programs run correctly.
- Timeouts, interrupt polling, allocation failure and C stack checks: they never fire.
- RegexEmit.Emitter.Emit: assumes that the code of the term stays below 2 GiB, the reach of a signed 32-bit offset; the limits that the compiler itself checks are failures of the method.
- A repeat count equal to INT32_MAX means infinity, as in the code. A loop counter of zero, which the C code would wrap around, is a stuck state that compiled code never reaches.
- The nested run of a simple quantifier is a call of the interpreter on itself in C and a loop over its opcodes here.

Numbers:

- Printing with a fixed number of digits or of fraction digits, printing in other radixes than 10, the bound on the length of the text, and integer printing in other radixes.
- AtoD.StringToD: has the radix given and no flags, so radix zero, octal and binary prefixes, underscores and integer-only input are not modelled. Correct rounding is promised where no C int overflows (`IntsFit`): digits, the position of the dot and a kept exponent, each times the bits per digit in a radix that is a power of two, stay below 2^31. Where they do not, the C arithmetic is undefined.
- RadixEstimate.EstimateIsExact: covers the exponents of doubles, -1073 to 1024, which are all that is passed; the comment of `mul_log2_radix` promises -2048 to 2047.
- AtoD.StringToD: rounds the digits that count. In a radix that is not a power of two the digits beyond `atod_max_digits_table` are read as zeros, as in the code (`Truncated`).
- RoundToDouble.RoundToD: has a shift of 53 - precision bits written as a power of two; for numbers far below the smallest double the C shift count exceeds 63, where the significand is zero.
- NaN is not a number of the model; its text is not read back.
- Source and destination of the limb loops are one array, as in every call. Bit operations on words are written arithmetically.

Sorting, sets, tables, normalization, transcoding:

- Quicksort.QuickSort: sorts an array of elements; element sizes and the byte-wise exchange functions are not modelled.
- CharRanges.CharRange.Operate: writes into an empty object, as its callers do; the growing buffer is a sequence and its reallocation does not fail.
- CharRanges.CharRange.UnionInterval: needs c2 below 2^32 - 1, where c2 + 1 wraps around in C.
- CaseFolding.RegexpCanonicalize: has the mask, the conversion table and the conversion of an entry as parameters; the table of the Unicode data is not part of this model.
- PropertyTables.IsInTable: is about any table whose last entry is complete and whose run lengths sum to less than 2^32; the tables of the Unicode data are not part of this model.
- Normalization.ComposeInPlace: has combining classes and pair composition as parameters; decomposition, the composition of Hangul syllables and the shortcut for Latin-1 text are not modelled.
- The 8-bit variants of the transcoding loops.
- The list, half-float, byte-swap and NaN-boxing helpers, threads, clocks and the Elixir side, which would add only easy members or plumbing.
