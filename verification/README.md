# JSCoverage: a verified model

JSCoverage measures how much of a JavaScript program is executed. It instruments scripts with
counters, serves them, and reports the result. The scripts are parsed and their constants printed by
an embedded copy of SpiderMonkey. This project models the parts of both that carry the hardest
guarantees, and proves those guarantees with Dafny 4.11. `dafny verify dfyconfig.toml` checks
everything.

Code that updates state is modelled by classes and methods with the same loops and branches, each
tied to a specification; the properties are then proved of the specification, for all inputs.

## The parts

**dtoa/** is the exact decimal conversion of `js/dtoa.c`. `BigInts` and `Kernel` are the
multiprecision kernel on arrays of 32-bit words, `QuoRems` one step of long division, `PowersOfFive`
the cache of powers of five, `DoubleBits`, `Scaling` and `Dtoa` the way from a double to scaled
integers, `DigitLoops` the two digit loops. `Shortest`, `Decimals` and `Minimal` carry the meaning of
the digits from integers to all decimals, `Printing` puts them together with the scaling.
`SmallIntegers` is the loop for integers below 10^15. `ShortestPrinting` and `FixedPrinting` are dtoa as
a whole. On the way back, `Strtod` is the half-ulp comparison, `Rounding` the branches of strtod's loop
that end it, `Nearest` the order of the doubles. `RoundTrip` puts both together: what is printed is read
back. `MissedTies` are the half-way points that strtod does not round to even.

**instrument/** is `instrument-js.cpp`. `Syntax` has parse trees, `Semantics` says what a program
does, for any machine that executes its operators, with a number of steps as fuel. `Instrumentation`
is the compiler from trees to trees, and `Walker` the recursive walk that performs it while marking
lines. `Jumps` says which labels a statement can jump to when it is run. `Preservation` is the simulation,
`Meaning` the main theorem and two families of programs for which it fails, `Labels` the exact condition for
jumps, `Counters` and `Collected` which counters and functions there are. `LineScanner`, `Nesting` and `SourceWriter` deal with directives and the copy of
the source, `InstrumentFile` with the whole file, highlighted or not.

**arena/** is the arena allocator of `js/jsarena.cpp` and `js/jsarena.h`, slow paths and inline fast
paths, with addresses as 64-bit numbers. A mark is the state of the pool at that moment. `Arenas` has the
pool and its operations, `OversizedArenas` what becomes of oversized allocations. A pool is regular if the
size of its arenas is below the alignment or a multiple of it, and what can be left behind an oversized
allocation holds no other oversized one.

**atoms/** is `js/jsatom.cpp`. `AtomTable` has the critical sections of `js_AtomizeString` and the
sweep; `Interning` any number of threads that go through them, and `InternRuns` whole runs. `Chains`,
`HashTables`, `AtomLists` and `AtomMaps` are the atom lists of the compiler, together with the hash
table of `js/jshash.cpp` they turn into.

**http/** is the HTTP message reader and writer: `Connections` the buffered streams, `ChunkedBodies`
the chunked coding octet by octet and chunk by chunk, `Headers` fields and lists of them,
`TransferCodings` the value of Transfer-Encoding, `Readers` and `Messages` the reading and writing,
`MessageBodies` a message as a whole. Octets that have not arrived yet are part of a connection's
input, so that nothing proved depends on how they arrive.

**report/** is the highlighter and the summary of missing lines. `TokenPlaces` has the lines and columns
the highlighter counts and where it finds the tokens, `Markup` and `DisplayedLines` what a page shows,
`Highlighting` the highlighter itself, `HighlightedSource` the copy of its page line by line, and `Ranges`
the summary.

## Where the code does not do what it is for

These are theorems too, each with an example and with the condition under which the code is right.

- A label directly before a for-in loop with an initialiser (`l: for (var a = b in c)`) is separated
  from the loop, because two statements are written. If the loop jumps to the label, the jump does not find it
  (`Labels.LabelLost`, `Meaning.LabelledSeqDiffers`; condition: `Labels.StmtBound`); a label that nothing jumps
  to does no harm (`Preservation.SimSeparated`).
- A block directly in a body or list loses its braces. If it contains a function declaration, the
  function is declared earlier than before (`Meaning.FunctionInBlockDiffers`; condition:
  `Meaning.HoistingKept`).
- Integers below 10^15 are printed with a fixed number of digits by another loop than other numbers. It
  rounds a half to even where the other rounds it up: 25 in one digit is 20 (`FixedPrinting.TwentyFive`).
  And it does not suppress a zero that the digits end in: 205 in two digits is written 20, and is neither
  rounded up nor written 2 (`FixedPrinting.TwoHundredAndFive`; condition for both: `FixedPrinting.PrintFixed`).
  These are halves, at which the quick path of mode 2 gives up. Without it, in modes 6 and 7, zeros are left
  where there is no half too: 1001 in two digits is written 10 (`FixedPrinting.ThousandAndOne`).
- Half-way above an odd denormal number strtod keeps it, unless all its bits are ones, so that ties do not
  go to even. Such decimals have 752 digits or more; 7/2 of the smallest double is one
  (`MissedTies.SevenHalves`; condition: `MissedTies.ReadHalfAbove`, `Rounding.RefineOnce`).
- An exclusive directive behind the last token, as in a file of `x;` and the directive, is recorded behind
  the end of the array of lines (`InstrumentFile.InstrumentDirectiveBehind`, `LineScanner.DirectiveBehind`;
  condition: `LineScanner.ScanDirectives`).
- `JS_ArenaGrow` takes an oversized allocation to own its arena. In every pool aligned less than pointers up to
  seven bytes are left behind one, and what is allocated next can have them (`OversizedArenas.SharesArena`;
  conditions: `OversizedArenas.AllocateBehind`, `Arenas.ArenaPool.OversizedIsAlone`). Growing the oversized one
  then loses the other (`OversizedArenas.GrowsOverOther`; condition: `Arenas.ArenaPool.ArenaRealloc`).
- If the arena size is no multiple of the alignment, an allocation can become oversized in place without the
  word before it that leads to the arena before (`OversizedArenas.GrowsWithoutHeader`). If the least oversized
  allocation is smaller than what can be left behind one, a second one may lie behind it and not at the base
  (`OversizedArenas.OversizedBehind`). The condition for both is that the pool is regular
  (`Arenas.ArenaPool.OversizedIsBacked`, `Arenas.ArenaPool.AssertedIsSo`).
- `JS_ARENA_GROW` of an allocation of no bytes that was made before any other follows a null pointer
  (`OversizedArenas.NothingThenGrow`; condition: `Arenas.ArenaPool.GrowNothing`).
- An allocation of almost 2^64 bytes is rounded up to none and succeeds (`Arenas.ArenaPool.AlignedIs`).
- A thread that is between the two critical sections of `js_AtomizeString` for a multiple of 2^32
  changes of the table takes its placeholder for unchanged, and there may be two atoms for one string
  (`InternRuns.TwoAtomsAfterWrapAround`; conditions: `InternRuns.WhenPlaceholderReused`,
  `InternRuns.UniqueUnlessDoubled`).
- Removing from an atom list frees the highest index, whichever element goes
  (`AtomMaps.RemoveKeepsIndexed`).
- A length is not ignored when there is a Transfer-Encoding other than identity, as section 4.4 of RFC 2616
  demands. A chunked body is not read as it was sent unless the length is zero, and a body with another coding
  is cut short unless all that comes is no longer than the length (`MessageBodies.EmptyBodyNotEmpty`,
  `MessageBodies.GzipCutShort`; condition: `MessageBodies.ReadAsMeant`, `MessageBodies.WhenSpelledAlike`,
  `MessageBodies.ReadMessage`).
- Fields are joined if their names are spelled alike, but looked up in any case. If one name is spelled in two
  ways, the values under the second spelling are lost (`Headers.SecondSpellingLost`; condition:
  `Headers.MergedMeaning`), and the chunks of a body may not be looked for (`MessageBodies.SecondCodingLost`;
  condition: `MessageBodies.ReadAsMeant`).
- A value of Transfer-Encoding that is no list of transfer codings is accepted if it begins with one that is
  followed by something else than a comma. It counts as not chunked: with `chunked x` the framing of the
  chunks becomes part of the body (`TransferCodings.ChunkedAndMore`, `MessageBodies.ChunkedAndMoreIsPlain`;
  condition: `TransferCodings.WhenAccepted`). A list with an empty element at its end, which section 2.1 of
  RFC 2616 allows, is refused (`TransferCodings.EmptyElementRefused`).
- Headers without a value, or with white space around it, do not come back as they were written
  (`Headers.NormalUnchanged`).
- If a conditional entry begins within another one, or right behind it, and goes on further, the lines
  behind the other one are counted although it covers them (`Ranges.CountedAlthoughCovered`; condition:
  `Ranges.AllCovered`).
- What `highlight.cpp:476` writes as an assertion that two columns are equal is an assignment. A token that
  does not end in the column it says is no error then, unless that column is 0, and the columns behind it are
  counted from there (`Highlighting.ColumnSet`; condition: `Highlighting.MatchingTokens`).

## Model

| member | source | states |
|---|---|---|
| BigInts.MultAdd | js/dtoa.c:552-607 | the value becomes b*m + a exactly, in place or in a copy with room for one word more; the sign stays, and the list link of b |
| BigInts.I2B | js/dtoa.c:729-743 | a new one-word number of the given value |
| BigInts.Mult | js/dtoa.c:745-852 | the exact product, without leading zero words and within the capacity chosen |
| BigInts.Bcopy | js/dtoa.c:549-550 | sign, length and words in use are those of the other number |
| PowersOfFive.Pow5Cache.Pow5Mult | js/dtoa.c:857-912 | b*5^k exactly; the list only grows, and node i of it holds 5^(4*2^i) before and after |
| PowersOfFive.Pow5Cache.Next | js/dtoa.c:889-907 | the node after node i, made if it is missing; the list stays well linked and every node keeps its power |
| Kernel.LShift | js/dtoa.c:914-971 | b*2^k exactly, in a new number of sufficient capacity |
| Kernel.Cmp | js/dtoa.c:974-1005 | the sign of the difference of the values; for equal values the difference of the lengths, so 0 except for the two forms of zero |
| Kernel.Diff | js/dtoa.c:1008-1100 | the absolute value of the difference, and its sign |
| QuoRems.EstimateIsClose | js/dtoa.c:2450-2459 | the quotient of the top words is never above the true quotient and at most one below it |
| QuoRems.QuoRem | js/dtoa.c:2424-2540 | for b < 10*S with S aligned, the exact quotient, at most 9, and the remainder left in b without leading zeros |
| DoubleBits.Lo0Bits | js/dtoa.c:681-724 | the number of trailing zero bits, and the odd number that is left |
| DoubleBits.Hi0Bits | js/dtoa.c:647-678 | the number of leading zero bits; shifted by it the word has its top bit set |
| DoubleBits.D2B | js/dtoa.c:1214-1344 | an odd integer b and an exponent e with d = b*2^e, and the exact bit length of b, for normal and denormal doubles |
| DigitBuffer.RoundOff | js/dtoa.c:3276-3289 | one unit more in the last place, without the zeros that come from nines; reports whether all digits were nines |
| DigitBuffer.TrimZeros | js/dtoa.c:3290-3296 | the same number without trailing zeros |
| Shortest.OnlyCandidates | js/dtoa.c:3178-3261 | a decimal of n digits in the rounding interval shows that truncating or rounding up the digits so far is acceptable |
| Shortest.NoneOfLength | js/dtoa.c:3178-3261 | when the loop goes on, no decimal of the length reached is in the rounding interval |
| DigitLoops.ShortestLoop | js/dtoa.c:3178-3261 | the loop ends; the digits lie in the rounding interval, no shorter ones do, and none of that length is closer, except 10 for the upper end itself |
| DigitLoops.FixedLoop | js/dtoa.c:3262-3297 | floor(10^(n-1)*b/S + 1/2) without trailing zeros, with k moved up exactly if all digits were nines |
| Decimals.IntervalOfReals | js/dtoa.c:3135-3176 | being in the scaled integer interval is being in the interval around the double, over the reals |
| Minimal.NoneAtAll | js/dtoa.c:2575-2608 | if no shorter decimal at this scale is in the interval, none of any magnitude is |
| Minimal.ClosestAtAll | js/dtoa.c:2575-2608 | the closest decimal at this scale is closest among all decimals of that length |
| Scaling.Exponents | js/dtoa.c:2827-2845 | the differences of b2, s2, b5, s5 and m2 that make b/S the scaled double and mlo/S its half-gap, for normal and denormal numbers |
| Scaling.AlignShift | js/dtoa.c:3116-3136 | the shift after which the divisor's top word has exactly four leading zero bits |
| Dtoa.CheckEstimate | js/dtoa.c:2821-2826 | the estimate stays right or one too large; it is right if no further check is asked for, and otherwise negative or above 22 |
| Dtoa.AlignAndShift | js/dtoa.c:3116-3140 | both numbers multiplied by the same power of two, and the divisor aligned for quorem |
| Dtoa.Prepare | js/dtoa.c:2827-3140 | b/S is d/10^k and mhi*2^m2/S the half-gap below d over 10^k, with the divisor aligned |
| Dtoa.CorrectEstimate | js/dtoa.c:3141-3149 | after the check S <= b < 10*S and 10^k <= d < 10^(k+1), with the ratios unchanged |
| Dtoa.Gaps | js/dtoa.c:3165-3176 | mlo and mhi are the half-gaps, mhi twice mlo for a power of two, and the same object otherwise |
| Dtoa.SeventeenDigits | js/dtoa.c:2575-2608 | the rounding interval of every double is so wide that 17 digits always suffice |
| Printing.ScaleForPrinting | js/dtoa.c:2820-3176 | the state in which the digit loop starts represents the double and its rounding interval at scale 10^k |
| Printing.ShortestOverReals | js/dtoa.c:3178-3261 | what the loop promises about scaled integers is the promise about all decimals |
| SmallIntegers.IntegerByExponent | js/dtoa.c:2998 | the guard on the exponent of the odd part holds exactly if the double is an integer |
| SmallIntegers.FineUnit | js/dtoa.c:2996-2998 | below 10^15 the lowest bit of a double is worth less than one, so that no integer among them is beyond 53 bits |
| SmallIntegers.QuotientIsExact | js/dtoa.c:3008-3009 | dividing in doubles and dropping the fraction gives the exact digit: the rounding of the quotient cannot reach the next integer |
| SmallIntegers.IntegerLoop | js/dtoa.c:3007-3046 | the digits of the integer over its power of ten, up to the limit or until nothing is left, the last one rounded with a half going to even; they end in a zero exactly if that was the last digit and a remainder was dropped |
| ShortestPrinting.ExactIsShortest | js/dtoa.c:2996-3046 | the digits of an integer below 10^15 without its trailing zeros are the fewest that read back as the double |
| ShortestPrinting.PrintInteger | js/dtoa.c:2996-3046 | the branch for small integers keeps the promise of modes 0 and 1 with at most 15 digits |
| ShortestPrinting.PrintLong | js/dtoa.c:3048-3297 | and so does the multiprecision part, with at most 17 |
| ShortestPrinting.PrintShortest | js/dtoa.c:2641-3331 | modes 0 and 1: at most 17 digits that read back as the double; no decimal with fewer does, and none with as many is closer (section 9.8.1 of ECMA-262, 3rd edition) |
| FixedPrinting.PrintNothing | js/dtoa.c:3150-3164 | mode 3 with no digit left: zero, or one unit of the last place, whichever d rounds to |
| FixedPrinting.RoundedInteger | js/dtoa.c:3033-3043 | for an integer below 10^15 the loop gives the number rounded with halves going up exactly if it does not lie half-way above an even multiple of the last place, and that multiple otherwise |
| FixedPrinting.FixInteger | js/dtoa.c:2998-3047 | the whole branch for small integers, with no digit left too, does exactly that |
| FixedPrinting.PrintFixed | js/dtoa.c:2641-3331 | modes 6 and 7, which are 2 and 3 without the quick path: the double rounded at the last place asked for, halves going up, if and only if it is not an integer below 10^15 half-way above an even multiple of a place it has; trailing zeros are left if and only if it is such an integer whose last digit kept is a zero with something behind it |
| FixedPrinting.WhenRounded | js/dtoa.c:2641-3331 | so what the comment on modes 2 and 3 promises holds exactly outside these two cases |
| FixedPrinting.TwentyFive | js/dtoa.c:3033-3043 | 25 in one digit is 20, not 30 |
| FixedPrinting.TwoHundredAndFive | js/dtoa.c:3033-3046 | 205 in two digits is 20, not 21, with a zero at its end |
| FixedPrinting.ThousandAndOne | js/dtoa.c:3033-3046 | without the quick path, 1001 in two digits ends in a zero |
| Nearest.NextValue | js/dtoa.c:1103-1140 | the next bit pattern is the next number, a gap away; the gap is seen alike from both sides, and one of the two is even |
| Nearest.Apart | js/dtoa.c:2827-2845 | there is no other double within a gap of a double |
| Nearest.ReadsBackIsNearest | js/dtoa.c:3178-3261 | the interval from which dtoa prints is exactly the set of numbers whose nearest double, ties to even, is this one |
| Strtod.S2B | js/dtoa.c:609-645 | the value of all digits before and after the point |
| Strtod.HalfUlpExponents | js/dtoa.c:1962-2012 | the differences of the exponents with which bb, bd and bs stand for rv, the decimal and half an ulp, in the scaled and denormal cases too |
| Strtod.CommonScale | js/dtoa.c:2013-2029 | the three numbers with exactly these factors |
| Strtod.HalfUlpTest | js/dtoa.c:1956-2033 | how delta and bs compare is how abs(rv - decimal) and half an ulp of rv compare, and dsign says on which side rv is |
| Rounding.UnscaledValue | js/dtoa.c:2394-2403 | the double strtod will return for its scaled words is the number those words stand for, with the gaps strtod assumes |
| Rounding.ZapLowBits | js/dtoa.c:1907-1921 | clearing the low bits leaves words that scale down exactly, changed by less than the bits cleared; too small a number becomes the smallest denormal |
| Rounding.NextIsNext | js/dtoa.c:2225-2226 | above the denormals, stepping the scaled words steps to the next double |
| Rounding.NearestExactly | js/dtoa.c:2126-2181 | the approximation is the nearest double exactly if it is within half an ulp, or a quarter below a power of two, ties to even |
| Rounding.RoundUp | js/dtoa.c:2222-2239 | half-way above an odd double it is the next one that is nearest, and not this one |
| Rounding.RoundDown | js/dtoa.c:2181-2220 | beyond half-way to the previous double that one is nearest, and not this one |
| Rounding.BelowHalf | js/dtoa.c:2126-2156 | within half an ulp the loop ends with the nearest double, dropping below a power of two exactly when that is nearer |
| Rounding.HalfWay | js/dtoa.c:2157-2240 | at exactly half an ulp the loop ends with the nearest double, except in a missed tie |
| Rounding.RefineOnce | js/dtoa.c:1956-2240 | one turn of the loop goes on exactly if the error is above half an ulp; otherwise it settles on the nearest double if and only if there is no missed tie |
| RoundTrip.HalfWayIsLong | js/dtoa.c:2157-2240 | a decimal half-way between multiples of 2^-n has at least the digits of 5^n |
| RoundTrip.NoMissedTie | js/dtoa.c:2222-2223 | decimals below 5^1075, so those of up to 751 digits, are no missed ties |
| RoundTrip.NearestUnique | js/dtoa.c:35-44 | a number in the rounding interval of a double has no other nearest double |
| RoundTrip.PrintThenRead | js/dtoa.c:1956-2240 | if the decimal is what dtoa printed, strtod's loop can only end with the double that was printed, from whatever approximation, and ends if it has it |
| RoundTrip.PrintedIsRead | js/dtoa.c:1956-2240 | what modes 0 and 1 print, in at most 17 digits, is read back as the double that was printed |
| MissedTies.StartsFromLower | js/dtoa.c:1907-1921 | from any approximation between two denormal numbers, strtod starts with the words of the lower one |
| MissedTies.MissedAbove | js/dtoa.c:2157-2240 | half-way above a denormal number q, the loop rounds to even if and only if q is even or has all its bits set; otherwise it leaves q |
| MissedTies.NextIsNearest | js/dtoa.c:2157-2240 | half-way above an odd denormal number the nearest double is the next one |
| MissedTies.ReadHalfAbove | js/dtoa.c:1907-2240 | from such an approximation to the end of the loop: the decimal (2q+1)*5^1075*10^-1075 is rounded to even exactly then, and is left at q for every odd q below 2^21 - 1 |
| MissedTies.SevenHalves | js/dtoa.c:2222-2223 | 7/2 of the smallest double is left at 3 of them, although 4 are nearest |
| Walker.Instrumenter.Statement | instrument-js.cpp:1370-1385 | the tree written is the instrumented tree, exactly the lines of its counters become marked, and it fails exactly on a line beyond the end of the file |
| Walker.Instrumenter.OutputStatement | instrument-js.cpp:1017-1364 | the same for what is written after the counter, statement by statement |
| Walker.Instrumenter.LabelledStatement | instrument-js.cpp:1264-1291 | the same for labels: no counter comes between label and statement |
| Walker.Instrumenter.IfStatement | instrument-js.cpp:1036-1084 | the same for ifs, which may gain an else branch that marks a conditional |
| Walker.Instrumenter.LoopStatement | instrument-js.cpp:1121-1176 | the same for the loops, whose bodies get braces |
| Walker.Instrumenter.ForStatement | instrument-js.cpp:1141-1176 | the same for a for loop, of which each of the three expressions may be missing |
| Walker.Instrumenter.TryStatement | instrument-js.cpp:1184-1219 | the same for try with its catch clauses and guards |
| Walker.Instrumenter.FunctionBody | instrument-js.cpp:354-475 | the same for functions; an expression closure becomes a function that returns |
| Collected.ListFunctions | instrument-js.cpp:354-475 | the functions of the instrumented program are those of the program, each instrumented |
| Counters.ItemKnown | instrument-js.cpp:1370-1385 | every line that can be counted in a statement, or in the functions in it, has a counter that is written |
| Preservation.SimItem | instrument-js.cpp:1370-1385 | from related worlds a statement and what is written for it end alike, in related worlds |
| Preservation.SimSingle | instrument-js.cpp:1017-1364 | the same for a statement with labels directly in front of it |
| Preservation.SimItems | instrument-js.cpp:1023-1035 | the same for a list of statements |
| Preservation.SimCall | instrument-js.cpp:354-475 | the same for a call of a function and its instrumented form |
| Preservation.SimSeparated | instrument-js.cpp:1264-1291 | a for-in loop with an initialiser, and labels before it that it does not jump to, ends like the two statements that are written for it |
| Meaning.InstrumentedRun | instrument-js.cpp:1017-1385 | for every program in which no block directly in a body declares a function and no label separated from its loop is jumped to, every machine and number of steps: same completion and store, every counter is the number of times a counted statement on its line was entered, and every line entered has one |
| Meaning.HoistingKept | instrument-js.cpp:1023-1035 | the functions declared before a body runs stay the same exactly if no block directly in it has a function declaration |
| Meaning.FunctionInBlockDiffers | instrument-js.cpp:1023-1035 | a program with such a block that leaves another store once it is instrumented |
| Meaning.LabelledSeqDiffers | instrument-js.cpp:1264-1291 | a program with a label before such a loop that ends normally, while its instrumented form jumps to a label that is not there |
| Labels.StmtBound | instrument-js.cpp:1264-1291 | all jumps written find their labels exactly if those in the source do so without the labels of for-in loops with an initialiser |
| Labels.LabelLost | instrument-js.cpp:1264-1291 | an example of a label that is lost |
| LineScanner.ScanLine | instrument-js.cpp:1461-1484 | where the line ends and where the next one begins, with CR and LF together as one terminator |
| LineScanner.CharactersStartWith | instrument-js.cpp:1387-1404 | whether the line begins with the text |
| LineScanner.CharactersAreWhiteSpace | instrument-js.cpp:1406-1419 | whether there is nothing but white space |
| LineScanner.CloseDirective | instrument-js.cpp:1501-1508 | the latest directive without an end gets this one |
| LineScanner.ScanDirectives | instrument-js.cpp:1447-1510 | for every text: it writes behind the array exactly if an exclusive directive is on a line the array has no place for, and fails exactly if there are more lines than can be counted; otherwise exactly the lines with an exclusive directive are marked, and the others are found with their ends |
| LineScanner.DirectiveBehind | instrument-js.cpp:1447-1489 | a text of one line and an exclusive directive has such a line if the array has one place |
| Nesting.AllMatched | instrument-js.cpp:1485-1509 | every directive found has the end that closes it like a bracket, or none does |
| Nesting.DirectiveEnd | instrument-js.cpp:1501-1508 | a directive ends on a line if and only if that line closes it |
| SourceWriter.WriteSource | instrument-js.cpp:1677-1755 | without highlighting: one string for each line the scanner finds, and no others |
| SourceWriter.LineShown | instrument-js.cpp:1685-1750 | undoing the escapes of JavaScript and the entities of HTML gives the line back |
| InstrumentFile.InitialiseCounters | instrument-js.cpp:1566-1570 | zeros for exactly the marked lines, in ascending order |
| InstrumentFile.CopySource | instrument-js.cpp:1613-1755 | with or without highlighting: one string for each line of the source |
| InstrumentFile.InstrumentJS | instrument-js.cpp:1425-1611 | for every text, tree and number of lines: when it writes out of bounds, and when it fails; otherwise the lines initialised are exactly those with a counter somewhere in the program written, nested functions included, and the source and the directives are those of the text |
| InstrumentFile.InstrumentDirectiveBehind | instrument-js.cpp:1440-1489 | a file of one line with tokens and an exclusive directive behind it is one for which it writes out of bounds |
| InstrumentFile.InstrumentedFileRun | instrument-js.cpp:1425-1611 | running the file, initialisation included, gives the run of the original, and each counter its exact count |
| Addresses.Align | js/jsarena.h:120 | the least aligned number that is not smaller |
| Addresses.OversizedBase | js/jsarena.cpp:84-129 | for every alignment and address, the base of an oversized arena is aligned for the pool and for pointers, the slot of the back-pointer fits before it, and the request behind it |
| Arenas.ArenaPool.constructor | js/jsarena.cpp:63-82 | an empty pool that satisfies the invariants, aligned to the least power of two that is not below what was asked for |
| Arenas.ArenaPool.ArenaAllocate | js/jsarena.cpp:131-197 | fails exactly if the current arena is full and no arena can be had; otherwise the block is at the end of what is used of the current arena or at the base of a new one, aligned, in bounds and disjoint from all live ones; an oversized arena has its back-pointer; remaining quota plus arenas held is constant; malloc is called at most once |
| Arenas.ArenaPool.Allocate | js/jsarena.h:146-157 | the inline fast path keeps the same contract, with and without its guard, for every size |
| Arenas.ArenaPool.AlignedIs | js/jsarena.h:120 | a size is rounded up exactly if that does not take more than a machine word; otherwise it becomes 0 |
| Arenas.ArenaPool.MarkHere | js/jsarena.h:182 | the mark identifies the present state |
| Arenas.ArenaPool.OnlyMatch | js/jsarena.h:188-189 | of all arenas only the one marked matches the mark |
| Arenas.ArenaPool.FreeArenaList | js/jsarena.cpp:293-322 | exactly the arenas behind head are given back, and the quota with them |
| Arenas.ArenaPool.ArenaRelease | js/jsarena.cpp:324-339 | after any run of allocations since the mark, the arenas, what is used of them, and the live allocations are those of the mark |
| Arenas.ArenaPool.Release | js/jsarena.h:203-216 | the same on the fast path and on the slow one, with the same current arena |
| Arenas.ArenaPool.FreeArenaPool | js/jsarena.cpp:341-346 | nothing is left, and the quota has got everything back |
| Arenas.ArenaPool.StillMarked | js/jsarena.cpp:324-339 | marks may be nested: releasing the later one leaves the earlier one good |
| Arenas.ArenaPool.MarkAgain | js/jsarena.h:182 | a mark made while another one is good is a later mark than that |
| Arenas.ArenaPool.ReleaseAgain | js/jsarena.h:203-216 | releasing it restores its state, and all can still be released to the earlier one |
| Arenas.ArenaPool.OversizedIsBacked | js/jsarena.cpp:84-129 | in every state of a regular pool, an oversized allocation is at the base of an arena made for it, and the word before it leads to the arena before |
| Arenas.ArenaPool.OversizedIsAlone | js/jsarena.cpp:276-282 | if a regular pool is aligned at least like pointers, it is the only allocation in that arena, in every state |
| Arenas.ArenaPool.AssertedIsSo | js/jsarena.cpp:199-262 | in every state of a regular pool, what realloc asserts of an oversized allocation and of the arena behind it is so |
| Arenas.ArenaPool.WrittenInSlot | js/jsarena.cpp:247-251 | when realloc has moved an arena, the word it sets before the base of the next one is that arena's back-pointer |
| Arenas.ArenaPool.ArenaRealloc | js/jsarena.cpp:199-262 | for any allocation at the base of its arena: fails exactly if realloc or the quota does, leaving everything; otherwise only this allocation and its arena change, the arenas stay in order, and quota plus arenas held is constant. Of the other allocations exactly those of other arenas still lie in an arena and off this one; if there are no others in its arena, all invariants and the marks made before are kept |
| Arenas.ArenaPool.Stretch | js/jsarena.h:168-170 | growing in place changes this allocation only, which stays disjoint from the others; marks made before it stay good |
| Arenas.ArenaPool.Grow | js/jsarena.h:162-180 | in place, with its arena, or in a new place, and when each of these fails; with its arena, what is said of realloc, and otherwise all other allocations stay, marks made before the allocation stay good, back-pointers are right, and quota plus arenas held is constant |
| OversizedArenas.AllocateThenGrow | js/jsarena.cpp:131-287 | in every regular pool, whatever its alignment and wherever realloc moves the arena: an oversized allocation that is made and then grown owns the last arena, whose back-pointer is right, and all can be released to the mark made before; it fails only if malloc or realloc does or the quota does not pay |
| OversizedArenas.GrowsWithoutHeader | js/jsarena.h:168-170 | if the arena size is above the alignment and no multiple of it, an allocation can become oversized in place, with nothing written before it |
| OversizedArenas.OversizedBehind | js/jsarena.cpp:150-197 | in every pool whose least oversized allocation is smaller than the alignment of headers: one made behind another oversized one lies in its arena, and not at the base |
| OversizedArenas.NothingThenGrow | js/jsarena.h:162-180 | in a pool without any allocation, one of no bytes is made and grown: this goes through the null pointer behind the last arena |
| Arenas.ArenaPool.GrowNothing | js/jsarena.h:162-180 | growing an allocation of no bytes follows a null pointer exactly if the first arena is the current one and it was made there; otherwise it fails exactly as allocating does, and leaves all else as allocating does |
| OversizedArenas.AllocateBehind | js/jsarena.cpp:150-197 | in every state of a regular pool, and of others if the oversized allocation needs a new arena: an allocation made behind a new oversized one shares its arena exactly if it is no larger than what the alignment of the base has left over, less than the larger of the alignments of pool and pointers |
| OversizedArenas.SharesArena | js/jsarena.cpp:276-282 | in every state of every regular pool aligned less than pointers: a byte allocated next behind a new oversized allocation lies in its arena |
| OversizedArenas.GrowsOverOther | js/jsarena.cpp:199-262 | and growing it leaves the other allocation outside all arenas or overlapped |
| AtomTable.AtomState.AtomizeBegin | js/jsatom.cpp:709-728 | what the first critical section may do: return an equal atom that is there, or leave an atom or a placeholder and count a change |
| AtomTable.AtomState.AtomizeEnd | js/jsatom.cpp:750-775 | what the second one may do: reuse the placeholder if nothing has changed, otherwise look again |
| AtomTable.AtomState.Sweep | js/jsatom.cpp:571-606 | placeholders and unreachable atoms without a pin go, and the generation changes in any case |
| Interning.InvNext | js/jsatom.cpp:609-781 | every step of every thread keeps: no two initialised entries are equal, and a placeholder of a thread for which nothing has changed is still there |
| Interning.PlaceholderReused | js/jsatom.cpp:751-752 | an unchanged generation means an untouched placeholder, and no equal atom in the table |
| InternRuns.ReturnedLives | js/jsatom.cpp:765-775 | the atom a call returns is in the table then, pinned if that was asked for |
| InternRuns.StaysAlive | js/jsatom.cpp:571-606 | only a sweep that finds it unreachable and not pinned takes an atom away |
| InternRuns.EqualStringsSameAtom | js/jsatom.cpp:662-781 | in every run, two calls for equal strings return the same atom unless it was collected in between |
| InternRuns.WhenPlaceholderReused | js/jsatom.cpp:751-752 | a thread takes its placeholder for unchanged exactly if the number of changes is a multiple of 2^32 |
| InternRuns.UniqueUnlessDoubled | js/jsatom.cpp:750-775 | completing a call leaves no two equal atoms exactly if it does not fill a placeholder while an equal atom is there |
| InternRuns.TwoAtomsAfterWrapAround | js/jsatom.cpp:751-752 | a run after which there are two atoms for one string |
| HashTables.HashTable.constructor | js/jshash.cpp:97-135 | an empty table |
| HashTables.HashTable.RawLookup | js/jshash.cpp:169-194 | finds the first entry of the key if there is one, and reorders nothing that counts |
| HashTables.HashTable.Resize | js/jshash.cpp:196-246 | more or fewer buckets, with the order of entries with the same key kept; on failure nothing changes |
| HashTables.HashTable.RawAdd | js/jshash.cpp:248-277 | the new entry comes before the others with its key, also if the table has grown |
| HashTables.HashTable.RawRemove | js/jshash.cpp:301-317 | the first entry of the key is gone and nothing else, also if the table has shrunk |
| AtomLists.AtomList.RawLookup | js/jsatom.cpp:1024-1047 | returns the first element of the plain sequence for the atom, which stays the same |
| AtomLists.AtomList.MakeTable | js/jsatom.cpp:1084-1118 | the table has the elements of the list, in the order in which they count |
| AtomLists.AtomList.Add | js/jsatom.cpp:1051-1146 | UNIQUE returns what is there, otherwise the new element, with the count as its index, is in front (SHADOW) or at the end (HOIST) of the plain sequence; on failure that stays the same |
| AtomLists.AtomList.RawRemove | js/jsatom.cpp:1148-1169 | the plain sequence loses its first element for the atom |
| AtomLists.AtomList.Remove | js/jsatom.h:157-162 | the same, after a lookup; nothing if there is none |
| AtomMaps.AddKeepsIndexed | js/jsatom.cpp:1143 | adding keeps the indices a numbering of the elements from 0 |
| AtomMaps.RemoveKeepsIndexed | js/jsatom.cpp:1168 | removing keeps the numbering if and only if the element had the last index |
| AtomMaps.AddKeepsOneEach | js/jsatom.cpp:1059-1060 | there is still one element for each atom exactly if there was none for this one |
| AtomMaps.MapTable | js/jsatom.cpp:1201-1209 | every entry of the table puts its atom in the place of its index |
| AtomMaps.InitAtomMap | js/jsatom.cpp:1216-1247 | the vector is filled by the numbering, from the list or from the table, and the list is cleared |
| AtomMaps.MapInverts | js/jsatom.cpp:1216-1247 | place n of the vector holds an atom if and only if n is the index of that atom |
| Connections.HTTPConnection.ReadOctet | http-connection.c:109-130 | takes the next octet of the input, however it is split into calls of recv; at its end, -1 or the error |
| Connections.HTTPConnection.PeekOctet | http-connection.c:132-148 | the same, and the input stays as it is |
| Connections.HTTPConnection.Write | http-connection.c:150-179 | the octets are appended to the output in order; if sending fails a prefix of them has been taken |
| Connections.HTTPConnection.Flush | http-connection.c:181-192 | if it succeeds everything written has been sent |
| ChunkedBodies.ReadChunkSize | http-message.c:656-694 | succeeds exactly if hexadecimal digits end the line or come before white space or a semicolon and their value fits in a size_t, and then gives that value |
| ChunkedBodies.WrittenSize | http-message.c:656-694 | a size written in hexadecimal is read again exactly if a size_t can hold it |
| ChunkedBodies.NextInChunk | http-message.c:833-847 | taking one octet off a chunk takes it off the decoded body |
| ChunkedBodies.LastInChunk | http-message.c:848-869 | after the last octet of a chunk, CR and LF must come |
| ChunkedBodies.DecodesEncoded | http-message.c:807-873 | decoding undoes every encoding: any split into chunks, any way of writing sizes, with extensions, whatever follows (section 3.6.1 of RFC 2616) |
| ChunkedBodies.EvenOverhead | http-message.c:807-873 | decoding from the beginning of a chunk leaves an even number of line feeds out of the body |
| ChunkedBodies.OddOverhead | http-message.c:807-873 | decoding from within a chunk leaves an odd number of them out |
| ChunkedBodies.LengthNotIgnored | http-message.c:461-488 | for every input and length: starting with the length as the rest of a chunk gives what starting with a chunk does if and only if the length is 0 or both find nothing |
| TransferCodings.ScanTransferEncoding | http-message.c:490-567 | for every value: fails exactly if a coding has no name or one of its parameters is not complete; otherwise finds whether the last coding is chunked and nothing comes behind it |
| TransferCodings.ParseQuotedString | http-message.c:89-117 | what the pointer loop makes of a quoted string is where it ends, or that it does not |
| TransferCodings.CodingsRead | http-message.c:490-567 | of transfer codings as they may be written, with any parameters, quoted or not, and any white space anywhere, exactly the last one counts, unless something comes behind it (section 3.6 of RFC 2616) |
| TransferCodings.CodingsFound | http-message.c:490-567 | whatever is accepted has been written like that |
| TransferCodings.WhenAccepted | http-message.c:551-563 | a value is accepted exactly if it is a list of transfer codings, or begins with one followed by something that neither goes on it nor is a comma, and never both; it counts as chunked exactly if it is a list whose last coding is |
| TransferCodings.ChunkedAndMore | http-message.c:551-563 | `chunked x` is no list and is accepted as not chunked |
| TransferCodings.EmptyElementRefused | http-message.c:496-502 | a list with a comma and white space behind it is refused |
| Headers.FieldIsParsed | http-message.c:409-449 | name and value come out whatever white space is put around colon and value; a field without a value is ignored |
| Headers.MergedMeaning | http-message.c:160-290 | in a list built from fields, looking a name up in any case gives the values of all fields with that name in any case, in order and separated by commas (section 4.2 of RFC 2616), if and only if those fields are spelled alike; something is found exactly if there is such a field, and no spelling is there twice |
| Headers.FoundAsFirst | http-message.c:160-290 | what is found is always the values of the fields that are spelled like the first of them |
| Headers.MergedBySpelling | http-message.c:160-183 | for each spelling, the list has the values of all fields spelled so, in order and separated by commas |
| Headers.SecondSpellingLost | http-message.c:160-290 | two fields whose names differ only in case, of which only the first is found |
| Headers.AddKeepsDistinct | http-message.c:160-183 | adding a header keeps names distinct |
| Headers.SetKeepsDistinct | http-message.c:185-194 | and so does setting one |
| Headers.ReadsWritten | http-message.c:584-613 | reading headers that have been written gives them all, in their order, with values trimmed and empty ones dropped |
| Headers.NormalUnchanged | http-message.c:409-449 | they come back unchanged if and only if no value is empty or has white space around it |
| Readers.ReadLine | http-message.c:309-328 | takes a line off the input; an incomplete one only at its end |
| Readers.ReadHeader | http-message.c:332-356 | takes a line and exactly the lines that continue it off the input |
| Readers.ParseText | http-message.c:409-446 | what the pointer loops make of a header text is the field in it, or its absence |
| Messages.ReadLength | http-message.c:463-485 | succeeds exactly for decimal numbers that a size_t can hold |
| Messages.HeadRoundTrip | http-message.c:367-613 | a start line and headers that have been written are read back with Connection: close among them, whatever follows |
| Messages.HTTPMessage.AddHeaderTo | http-message.c:160-183 | the value is joined to the header of that name, or a new header comes last |
| Messages.HTTPMessage.SetHeaderIn | http-message.c:185-194 | the value replaces that of the header of that name, or a new header comes last |
| Messages.HTTPMessage.ReadStartLineAndHeaders | http-message.c:367-571 | succeeds only with the start line and headers of the input and leaves what follows them; length and chunking are those of the headers; fails only if these are malformed, the length does not fit, or the connection fails |
| Messages.HTTPMessage.WriteStartLineAndHeaders | http-message.c:573-614 | writes start line and headers once, with Connection: close |
| Messages.HTTPMessage.ReadChunkedEntityBody | http-message.c:807-873 | for any capacity: what is delivered followed by what remains is what remained, less than the capacity means the end, and failure means a malformed body or a failing connection |
| Messages.HTTPMessage.ReadPlainBody | http-message.c:875-899 | the same for a body with a length, or up to the end of input |
| Messages.HTTPMessage.ReadEntireEntityBody | http-message.c:909-924 | repeated reads deliver exactly the body and leave what follows it, or fail |
| MessageBodies.ReadAsMeant | http-message.c:461-571 | a message whose body rules 2, 3 and 5 of section 4.4 of RFC 2616 define, with its fields joined as section 4.2 says, is read like that if and only if it has no Transfer-Encoding other than identity, or what is found of it is accepted and says like the whole whether there are chunks, and a length that is found is 0 (chunks) or not below what comes (no chunks) |
| MessageBodies.WhenSpelledAlike | http-message.c:461-571 | if the fields named Transfer-Encoding are spelled alike, this is a matter of the length alone |
| MessageBodies.GzipCutShort | http-message.c:875-899 | with the coding gzip and a length of 1, any body of more than one octet is cut short |
| MessageBodies.SecondCodingLost | http-message.c:461-571 | with gzip and chunked in two fields spelled differently, the chunks with their framing are read as the body |
| MessageBodies.ReadMessage | jscoverage-server.c:142-151 | reading headers and body, for any octets: what is read, when it fails, and that on a connection that does not fail it is what the message means exactly in these cases |
| MessageBodies.ChunkedMessage | http-message.c:461-571 | a chunked message as it is written, whatever its chunks and whatever follows it, is read as it was sent exactly if it has no length or a length of 0 |
| MessageBodies.ChunkedAndMoreIsPlain | http-message.c:551-566 | with `chunked x` and no length, everything up to the end of the input is the body |
| MessageBodies.EmptyBodyNotEmpty | http-message.c:461-488 | an empty chunked body with a length of 1 means no octets, and is read as a body of one octet |
| Markup.RenderErased | highlight.cpp:97-157 | without tags and entities exactly the characters that were put in are left |
| TokenPlaces.GapEndsPast | highlight.cpp:159-214 | between tokens the first place at or behind a position is where it stops, exactly if there is no NUL before it and no beginning or end of a comment is cut in two there |
| TokenPlaces.TokenEndsAt | highlight.cpp:453-477 | a token ends at the place whose line and column it carries, exactly if no escape is cut in two there |
| TokenPlaces.PlacesFound | highlight.cpp:216-484 | tokens that carry the lines and columns of places in the text are found there, and no column is changed |
| TokenPlaces.FoundPlaces | highlight.cpp:216-484 | tokens that are found, each ending in the column it says, carry the lines and columns of such places |
| DisplayedLines.SameLines | highlight.cpp:132-144 | the lines displayed are the lines the scanner of directives counts |
| DisplayedLines.FinalLineFeed | highlight.cpp:479-481 | the line feed at the end does not make another line |
| Highlighting.PaintChars | highlight.cpp:97-157 | whatever the classes, the text displayed is the source with each line terminator made one line feed |
| Highlighting.Highlighter.OutputCharacter | highlight.cpp:97-157 | one character more is displayed, in its class, and never a line end inside a span |
| Highlighting.Highlighter.MarkNontokenChars | highlight.cpp:159-214 | characters between tokens are classed as comments and other characters, up to where the position given is reached, or the end; it fails exactly if a NUL or a limit comes first |
| Highlighting.Highlighter.MarkToken | highlight.cpp:445-477 | the characters of a token have its class, in strings a backslash and what follows it have their own; it fails exactly if the text ends first, a limit is reached, or it does not end on the line it says |
| Highlighting.Highlighter.MarkNext | highlight.cpp:240-477 | the classes with those of one token more, exactly if that is found where it says |
| Highlighting.Highlight | highlight.cpp:216-484 | for any tokens: succeeds exactly if they are found where they say and what follows them fits; then every character has the class that tokens and comments give it, spans are balanced, not nested and closed before line ends, the page without markup is the source, and its lines are the scanner's |
| Highlighting.MatchingTokens | highlight.cpp:216-484 | below the limits, it succeeds without changing a column exactly if the tokens carry the lines and columns of places that follow each other in the text, with no NUL between them and no comment or escape cut in two |
| Highlighting.ColumnSet | highlight.cpp:476 | a string that is said to end within an escape, which is no error |
| HighlightedSource.LineCopied | instrument-js.cpp:1625-1669 | undoing the escapes of JavaScript gives the line of the page back |
| HighlightedSource.CopyPage | instrument-js.cpp:1615-1676 | one string for each line of the page, and no others |
| HighlightedSource.LinesShown | instrument-js.cpp:1615-1676 | the lines of a page are pieces of HTML of their own, with closed spans, and show the lines of its text one by one |
| HighlightedSource.StringShows | instrument-js.cpp:1615-1676 | what is written for a line gives the text of that line, without escapes, tags and entities |
| HighlightedSource.WriteHighlightedSource | instrument-js.cpp:1613-1676 | with highlighting: succeeds exactly if the highlighter does, and there is one string for each line of the source, which shows that line |
| Ranges.LeftOut | jscoverage.js:498-507 | for any entries: a line is left out exactly if an entry at which nothing was being left out has not come to its end |
| Ranges.OnlyCovered | jscoverage.js:498-507 | no line is left out that no entry covers |
| Ranges.AllCovered | jscoverage.js:498-507 | every line that an entry covers is left out, if and only if no entry crosses the end of one that was being followed |
| Ranges.CountedAlthoughCovered | jscoverage.js:498-507 | two entries that cross, and lines that are counted because of that |
| Ranges.Count | jscoverage.js:487-520 | the numbers of statements and of executed ones, and the missing lines in ascending order |
| Ranges.Extend | jscoverage.js:575-593 | missing lines are taken together up to the next executed line |
| Ranges.GroupMissing | jscoverage.js:567-601 | ranges begin and end with missing lines, contain every missing line and no executed one, and between two of them a line was executed |
| Ranges.InOneRange | jscoverage.js:567-601 | every missing line is in one range only |
| Ranges.GroupsUnique | jscoverage.js:567-601 | there is no other way to group the missing lines like this |

## Left out

- dtoa's estimate of k from log10 and its quick floating-point path: the estimate is a parameter that must be right or one too large.
- FixedPrinting.PrintFixed: modes 2 and 3 are modelled without the quick path, which is what modes 6 and 7 are; the quick path leaves out trailing zeros, and gives up at exact halves.
- In the loop for integers below 10^15 the doubles are the integers they stand for (`SmallIntegers.FineUnit`); that a quotient is rounded to within 2^-50 is taken from IEEE 754.
- dtoa's modes 4, 5, 8 and 9, other rounding modes, and the VAX, IBM and 16-bit variants; zero, infinity and NaN, which are printed before any of this.
- `Balloc`'s free list, `Bfree` and the lock around them: numbers are allocated afresh and never freed.
- strtod's parsing, its starting approximation, the correction by `ratio` that follows when the error is above half an ulp, and the final multiplication by 2^-106: the words to be tested are parameters, and for numbers that are not scaled they must be far above the denormals, as the code chooses them.
- Strtod.S2B: the number written by the first nine digits is a parameter, as in the code.
- The text of expressions in the instrumented file: which of these functions the instrumenter calls for a literal is not modelled.
- In the instrumenter: let, XML, comprehensions, destructuring and duplicate functions (`TOK_NAME`); hoisting of variables and the completion values of statements, which nothing observes in a file; the mode that does not instrument, and the header of the output.
- In the semantics of programs, what variables and operators do is left to the machine, which may be any.
- In the report of conditionals, what `SetConditional` stores is not used by programs; only its place in the output is modelled.
- Arena contents: blocks are addresses, so the copying of bytes by realloc and growing is not modelled. What malloc and realloc answer is a parameter.
- Arenas.ArenaPool.Grow, Arenas.ArenaPool.ArenaRealloc: what the code asserts is asked of callers: an oversized allocation is at the base of its arena and the word before it is the back-pointer, and so for the arena behind if that is as full as an oversized one (it is, in regular pools: `Arenas.ArenaPool.AssertedIsSo`); and sizes that fit a machine word.
- Unit strings and small integers, which never enter the atom table (js/jsatom.cpp:676-704), and the allocation of keys; a hash table without memory ends a call like a failing allocation.
- AtomTable.AtomState.AtomizeBegin: js_AtomizeDouble is the case without flags and without a key of its own.
- jsdhash is represented by what its add operation may do: move all entries, which counts as a change, and find or take a slot. js/jshash.cpp is modelled, with allocation failures as parameters and fewer than 2^30 entries.
- Sharing of one element list between a JSAtomSet and a JSAtomList, and the free list of elements.
- MessageBodies.ReadAsMeant: of section 4.4 of RFC 2616, messages that never have a body (rule 1) and multipart/byteranges (rule 4) are not modelled, and of chunked bodies the trailer; a Transfer-Encoding that is no list of transfer codings, or has empty elements in it, has no meaning in the model.
- In the HTTP reader: forwarding of chunked bodies with their framing, charsets, addresses and sockets. A send is complete or fails.
- Messages.HTTPMessage.ReadStartLineAndHeaders: if the connection ends in an error right after the headers, reading may succeed or fail.
- In the highlighter: the table from token types to classes (highlight.cpp:253-436); tokens come with their class, or without one where the code gives up.
- In the report: everything but the counting and the grouping of lines. Out-of-memory exits everywhere.
