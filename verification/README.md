# Data structures of the MRI 1.8.2 interpreter

This project models five parts of the C implementation of Ruby 1.8.2 and proves what they are for.

- **Multi-precision integers** (`ruby/bignum.c`): sign and magnitude arithmetic on little-endian digit
  buffers, long division with the remainder and the quotient in one buffer, bit operations and shifts
  through two's complement in place, printing and parsing. Digits have `w` bits, a long has `dpl`
  digits; both are parameters. Modules `Digits` to `BignumCompare`,
  and `NumeralReading`.
- **The mark and sweep collector** (`ruby/gc.c`): marking with a recursion limit and a mark stack of
  1024 entries that drops work when it overflows, sweeping, giving up and adding pages, allocation.
  Modules `GcGraph`, `GcFreeList`, `GcRun`, `Gc`, `GcPolicy`, `GcProgram`, `GcIdeal`.
- **Arrays with copy-on-write storage** (`ruby/array.c`): sharing through frozen roots, splicing in
  place, flattening in place. Modules `RArrays`, `RArrayOps`, `RArrayRuns`, `FlattenSpec`, `Flatten`.
- **Method lookup** (`ruby/eval.c`, `ruby/class.c`): the global cache of 2048 entries against the walk
  along super links, while methods are added, undefined, aliased and modules included. Modules
  `MethodTable`, `SuperChains`, `ClassTree`, `IncludeMerge`, `IncludeChain`, `IncludeOrder`, `StaleCache`,
  `MethodMeaning`, `MethodCache`, `MethodRuns`, `FrozenRuns`.
- **Green threads** (`ruby/eval.c`): the ring of threads and the scheduler's choice. Modules
  `ThreadChoice`, `ThreadRing`, `ThreadRuns`.

Loops and in-place updates are methods of classes, or on arrays, with loop invariants; what they compute is
said by functions and predicates. What those mean is proved without them: element by element for arrays, from
the characters for numerals, from chains and tables for methods, by counting cells for pages.

Where the code does not do what it is meant to, the model follows the code, and the exact condition is
proved:

- `^` loses the carry of the two's complement when the result is minus a power of the radix. `BitOp`
  proves that the result is right if and only if `LostCarry` does not hold; `CarryIsLost` is an example.
- `~` complements only the original digits after the number may have got one more. `Invert` proves that
  it is right if and only if `InvertsRight` holds; `InvertFails` is an example. The parameter `moves`
  says whether growing the buffer moves it, which the C library decides.
- `>>` of a negative number by as many digits as it has gives 0 instead of -1 in one case. `RShift`
  proves that it is right if and only if `LostSign` does not hold; `SignIsLost` is an example.
- `rb_include_module` raises on a cyclic include after it may have inserted entries, and then does not
  clear the method cache. `StaleIffOvertaken` proves that some entry that was right is wrong then if and
  only if a name is overtaken: from a class of the old chain on, the table of a newly included module has
  it, no table before has it, and a lookup found something else. That is a condition on the chains and
  tables before the call; `Merge` computes the chain to be made. `IncludeModule` proves the cache right in
  all other cases, and `CallsAreRight` carries that over whole runs; `CyclicIncludeLeavesStale` is an
  example.

`dafny verify dfyconfig.toml` checks everything.

## Model

| member | source | states |
|---|---|---|
| Digits.ValUnique | ruby/bignum.c:991-994 | two buffers of equal length with equal values hold equal digits: comparing digits compares numbers |
| Digits.ValCompare | ruby/bignum.c:950-954 | the first differing digit from the top decides which of two numbers of equal length is larger |
| Digits.CarryStep | ruby/bignum.c:1135-1139 | one column of a signed carry loop: digits written so far and carry still stand for the exact partial sum |
| Digits.NoBorrow | ruby/bignum.c:1093-1106 | a subtraction whose exact result is not negative ends without a borrow |
| Bignums.Bignum.Clone | ruby/bignum.c:58-66 | a fresh buffer with the same digits, sign and length |
| Bignums.Bignum.Trim | ruby/bignum.c:106-107 | drops leading zero digits and no value |
| Bignums.Bignum.ToUlong | ruby/bignum.c:109-113 | the accumulated machine word is the magnitude when it fits |
| Bignums.Bignum.Norm | ruby/bignum.c:99-124 | a fixnum results exactly when the value is in the fixnum range, and then it is the value; otherwise the same object, without leading zeros |
| Bignums.Bignum.FromUlong | ruby/bignum.c:133-153 | a canonical number of the given value |
| Bignums.Bignum.FromLong | ruby/bignum.c:155-171 | a canonical number of the given signed value |
| Bignums.SplitDigits | ruby/bignum.c:143-146 | the digits written by repeated low/high splitting are the digits of the number |
| Bignums.ToBig | ruby/bignum.c:1168-1172 | operands are turned into canonical bignums of the same value, bignums staying the same object |
| BignumAdd.AddDigits | ruby/bignum.c:1131-1151 | the sum of two buffers, carry included, fits in one digit more than the longer one and is exact |
| BignumAdd.RippleDigits | ruby/bignum.c:1141-1150 | a carry or borrow is carried to the end of the longer operand |
| BignumAdd.SubDigits | ruby/bignum.c:1093-1106 | the difference of two buffers is exact when the first number is not smaller |
| BignumAdd.Below | ruby/bignum.c:1077-1087 | the scan from the top digit down decides which magnitude is smaller |
| BignumAdd.BigSub | ruby/bignum.c:1064-1109 | the exact signed difference of two magnitudes, the smaller one taken from the larger one |
| BignumAdd.BigAdd | ruby/bignum.c:1111-1154 | the exact signed sum or difference, for all signs, of operands whose longer one is not smaller |
| BignumMul.MulRow | ruby/bignum.c:1247-1256 | adding one digit times y at place i is exact and stays inside the row, although the store of a zero is skipped |
| BignumMul.MulDigits | ruby/bignum.c:1239-1257 | the rows add up to the exact product |
| BignumMul.BigMul | ruby/bignum.c:1239-1259 | the exact signed product |
| BignumMul.Mul | ruby/bignum.c:1215-1260 | the exact product of any two integers, normalised: a fixnum exactly when it fits |
| BignumMul.HalveExponent | ruby/bignum.c:1611-1614 | squaring and halving keeps z times x to the yy |
| BignumMul.PowLoop | ruby/bignum.c:1605-1617 | the square and multiply loop computes the power |
| BignumMul.BigPow | ruby/bignum.c:1585-1626 | x to the y for every nonnegative y, zero included |
| TrialDigit.TrialIsDigit | ruby/bignum.c:1340-1341 | the trial digit is a digit, and its product with the top digit does not exceed the top two digits of the remainder |
| TrialDigit.TrialNotBelow | ruby/bignum.c:1340-1341 | the trial digit is never below the true quotient digit |
| TrialDigit.TrialAtMostTwoAbove | ruby/bignum.c:1340-1341 | with a normalised divisor the trial digit is at most two above the true one |
| BignumDiv.TrialResidue | ruby/bignum.c:1343-1353 | after multiply and subtract the borrow is 0 or -1 |
| BignumDiv.SubMul | ruby/bignum.c:1343-1353 | subtracting q times the divisor from the window is exact up to the final borrow |
| BignumDiv.AddBack | ruby/bignum.c:1355-1362 | adding the divisor back once repays one borrow |
| BignumDiv.CorrectDigit | ruby/bignum.c:1354-1363 | from a trial digit at most two above, the add back loop runs at most twice and leaves the true digit and the true remainder |
| BignumDiv.ReduceWindow | ruby/bignum.c:1343-1363 | for a nonzero trial digit: digit times divisor plus what is left is the window, what is left is below the divisor, and the digit is at most two below the trial digit |
| BignumDiv.DivStep | ruby/bignum.c:1340-1365 | one step: the quotient digit replaces the top digit of the window, the remainder stays below it |
| BignumDiv.DivLoop | ruby/bignum.c:1338-1366 | one buffer ends up with quotient digits above and the remainder below; together with the divisor they make up the dividend |
| LongDivision.DivSmall | ruby/bignum.c:1287-1292 | division in place by one digit |
| LongDivision.Normalising | ruby/bignum.c:1306-1311 | the shift that brings the top bit of the divisor up |
| LongDivision.ScaleDivisor | ruby/bignum.c:1312-1322 | the divisor scaled by that power of two, with no digit more |
| LongDivision.ScaleDividend | ruby/bignum.c:1323-1336 | the dividend scaled, with a top digit below half the radix |
| LongDivision.DivLong | ruby/bignum.c:1301-1366 | normalise, divide, and the low digits shifted back are the remainder |
| LongDivision.TakeQuotient | ruby/bignum.c:1367-1373 | the upper digits are the quotient |
| LongDivision.TakeRemainder | ruby/bignum.c:1374-1389 | the lower digits, shifted back, are the remainder |
| LongDivision.DivRemDigit | ruby/bignum.c:1283-1300 | the one digit divisor |
| LongDivision.DivRemLong | ruby/bignum.c:1301-1390 | the divisor of several digits |
| LongDivision.BigDivRem | ruby/bignum.c:1262-1390 | for every x and every y without a leading zero digit: zero division exactly for y zero, else abs(x) = q*abs(y) + r with r below abs(y) and signs as for truncation, the quick exit included |
| LongDivision.RoundDown | ruby/bignum.c:1400-1403 | quotient less one and remainder plus divisor, when signs differ |
| LongDivision.BigDivMod | ruby/bignum.c:1392-1408 | floor division: x = div*y + mod, mod zero or of the sign of y and smaller than it, for all four sign combinations |
| TwosComplement.ComplementValue | ruby/bignum.c:77 | complementing every digit gives B^n - 1 minus the number |
| TwosComplement.TopBit | ruby/bignum.c:85-89 | the top digit tells whether the number is below half of B^n |
| TwosComplement.CombinedBits | ruby/bignum.c:1674-1679 | combining digits one by one, the shorter operand filled up with its sign, combines every bit of the infinite two's complement readings |
| TwosComplement.PaddedReading | ruby/bignum.c:1677-1679 | filling up with the sign does not change what a pattern stands for |
| TwosComplement.XorCancels | ruby/bignum.c:1792-1797 | the pattern of ^ is all zero exactly when the operands are a power of the radix apart |
| BignumBits.NegateDigits | ruby/bignum.c:77-83 | complement and add one gives B^n minus the number, and nothing for zero |
| BignumBits.Get2comp | ruby/bignum.c:68-90 | the two's complement of a nonzero number in place; with carry the top bit is always set, if need be by a new top digit |
| BignumBits.Pattern | ruby/bignum.c:1649-1656 | the pattern of an operand, positive ones as they are |
| BignumBits.Combine | ruby/bignum.c:1657-1679 | the operand loop, with the longer operand behind |
| BignumBits.CombinedIsBitwise | ruby/bignum.c:1635-1682 | what the loop writes reads as the bitwise result of what the operands read as |
| BignumBits.TopBitKept | ruby/bignum.c:1674-1680 | for and and or a negative result keeps a nonzero top digit, so the final complement never sees an all zero pattern |
| BignumBits.ZeroPattern | ruby/bignum.c:1792-1798 | a negative result pattern is all zero exactly for ^ on operands of different sign a power of the radix apart |
| BignumBits.Uncomplement | ruby/bignum.c:1680 | the final complement gives back the number, except for the all zero pattern |
| BignumBits.BitOpBig | ruby/bignum.c:1635-1801 | and, or and xor of two bignums are the infinite two's complement operation at every bit if and only if the carry is not lost, which happens for ^ only |
| BignumBits.BitOp | ruby/bignum.c:1635-1801 | the same for a fixnum or bignum as second operand, with a normalised result |
| BignumBits.BitwiseUnique | ruby/bignum.c:1635-1801 | a bitwise operation has one result only |
| BignumBits.CarryIsLost | ruby/bignum.c:78-84 | operands for which ^ loses the carry: 0x8000000000000001 and -0x7FFFFFFFFFFFFFFF |
| BignumShift.Invert | ruby/bignum.c:1048-1062 | ~x is -x - 1 if and only if the explicit condition InvertsRight holds |
| BignumShift.InvertFails | ruby/bignum.c:1052-1059 | an all ones magnitude, for which ~ is not right |
| BignumShift.LShiftDigits | ruby/bignum.c:1826-1837 | the digit loop multiplies by 2^n |
| BignumShift.LShift | ruby/bignum.c:1812-1839 | left shift multiplies by 2^n, for every n |
| BignumShift.RShiftDigits | ruby/bignum.c:1872-1883 | the digit loop divides the sign extended reading by 2^n, rounding down |
| BignumShift.ShiftPattern | ruby/bignum.c:1868-1883 | the shifted pattern reads as the floored quotient; it has no digit left exactly when all are shifted out |
| BignumShift.RShiftPattern | ruby/bignum.c:1868-1886 | floor division by 2^n, or zero when the sign is lost |
| BignumShift.RShift | ruby/bignum.c:1848-1888 | right shift is floor division by 2^n if and only if the sign is not lost, which needs a negative number shifted by exactly its length in digits |
| BignumShift.SignIsLost | ruby/bignum.c:1862-1886 | a negative number for which the sign is lost |
| BignumShift.ShiftBack | ruby/bignum.c:1812-1888 | (x << n) >> n is x, for every n |
| BignumShift.Shift | ruby/bignum.c:1824 | negative amounts shift the other way |
| BignumShift.PatternBit | ruby/bignum.c:1935-1938 | a bit of a digit of the pattern is a bit of the number |
| BignumShift.ArefFix | ruby/bignum.c:1922-1939 | x[k] for a fixnum k is bit k of the infinite two's complement of x; false for negative k, the sign for k beyond the digits |
| BignumShift.Aref | ruby/bignum.c:1909-1939 | the same for every index; a bignum index gives the sign when it is positive and false when it is negative, which is the bit asked for unless x has more bits than a fixnum can count |
| BignumCompare.Cmp | ruby/bignum.c:922-955 | -1, 0 or 1 as the signed values compare |
| BignumCompare.Eq | ruby/bignum.c:968-994 | equal exactly when the values are |
| BignumCompare.SameValueSameDigits | ruby/bignum.c:988-994 | canonical numbers of equal magnitude have the same digits |
| Numerals.DigitsFit | ruby/bignum.c:635-662 | if 2^q <= base^p then n bits need at most n*p/q + 1 digits, for every n |
| Numerals.TenVersusTwo | ruby/bignum.c:647-649 | 2^800 <= 10^241 |
| Numerals.ThreeVersusTwo | ruby/bignum.c:638-640 | 2^1024 <= 3^647 |
| Numerals.EstimateFits | ruby/bignum.c:635-662 | the size estimate for every base leaves room for every digit |
| Numerals.DigitMap | ruby/bignum.c:616 | the characters of the digits are 0 to 9 and a to z, by their codes, and each is read as the digit it was printed for |
| Numerals.DigitCodes | ruby/bignum.c:469-480 | which characters are read as digits, by their codes: 0 to 9, a to z and A to Z, and no others |
| Numerals.HornerNum | ruby/bignum.c:458-497 | accumulating the digits of a number from the top gives the number |
| BignumToString.ShrinksByOne | ruby/bignum.c:679-684 | dividing by the chunk power removes at most one top digit |
| BignumToString.Emit | ruby/bignum.c:685-691 | the digits of one chunk, without leading zeros in the last one |
| BignumToString.Convert | ruby/bignum.c:675-692 | the loop over the chunks writes exactly the digits of the number, inside the buffer |
| BignumToString.FillBuffer | ruby/bignum.c:662-692 | sign slot, digits and terminator are where they belong |
| BignumToString.TakeText | ruby/bignum.c:693-698 | the text is moved to the front behind its sign |
| BignumToString.Big2Str | ruby/bignum.c:617-699 | the numeral of the value in bases 2 to 36, with a minus sign for negative numbers and no leading zeros; "0" for zero; an error for other bases |
| BignumFromString.MulAdd | ruby/bignum.c:483-496 | multiply by the base and add a digit, in place, in a buffer that is large enough |
| BignumFromString.AllocationSuffices | ruby/bignum.c:426-456 | the digits allocated from the number of characters always suffice |
| BignumFromString.Accumulate | ruby/bignum.c:457-497 | the loop over the characters does what ScanFrom says, never leaving the buffer; ScanNumeral says what that means |
| BignumFromString.BigParse | ruby/bignum.c:451-508 | the number scanned, or an error exactly for a malformed string when that is checked |
| BignumFromString.ScanDigits | ruby/bignum.c:458-497 | scanning digit characters accumulates their digits and stops at the end |
| BignumFromString.SkipZeros | ruby/bignum.c:383-425 | prefix and leading zeros are skipped up to the last zero |
| NumberText.NoOverflow | ruby/bignum.c:426-429 | a string short enough for a word stands for a number that fits in it, so strtoul does not overflow |
| NumberText.Strtoul | ruby/bignum.c:429 | strtoul, as the C standard has it, on a string that does not overflow: number and end as StrtoulReads says |
| BignumFromString.ShortInum | ruby/bignum.c:431-449 | the checks behind strtoul reject a string without digits or with anything but blanks behind them; else the signed number, canonical |
| BignumFromString.CstrToInum | ruby/bignum.c:316-509 | by strtoul or by the loop over the characters, the number, or the error, that ReadNumber says; ReadsNumeral, NotRead and the lemmas behind them say what that is |
| BignumFromString.ReadsBack | ruby/bignum.c:316-509 | what is printed is read back, whichever way the string is read: blanks, signs and zeros of a printed number do not get in the way |
| BignumFromString.PrintAndParse | ruby/bignum.c:316-699 | printing any canonical bignum in any base and reading the text gives the same signed value |
| NumeralReading.ScanNumeral | ruby/bignum.c:458-482 | the loop reads all digits up to the first character that is neither a digit of the base nor an underscore; underscores add nothing, and two in a row stop it when they are checked |
| NumeralReading.MalformedIff | ruby/bignum.c:451-506 | Integer() rejects a numeral in the loop exactly for an underscore in front, behind or next to another one, or for anything but blanks behind the numeral |
| NumeralReading.StrtoulReads | ruby/bignum.c:429 | strtoul reads blanks, one sign and all digits; a minus sign gives the negated number in a word |
| NumeralReading.ReadsNumeral | ruby/bignum.c:316-509 | blanks, sign, radix prefix, digits and underscores, and whatever cannot go on with them: the value is that of the digits by Horner's rule, with the sign, in the base asked for, that of the prefix, 8 after a plain zero, else 10 or the one named by a negative radix; the result is the same by strtoul and by the loop; Integer() fails exactly for misplaced underscores and for nonblanks behind |
| NumeralReading.UnderscoresDoNotCount | ruby/bignum.c:458-465 | a numeral with single underscores between its digits reads as the numeral without them, checked or not, short or long |
| NumeralReading.LeadingIgnored | ruby/bignum.c:336-425 | blanks in front, a plus sign, and leading zeros change nothing |
| NumeralReading.PrefixReadsBack | ruby/bignum.c:354-409 | with no radix asked for, what is printed in base 16, 2, 8 or 10 is read back behind 0x, 0b, 0o or 0d, in either case |
| NumeralReading.PlainReadsBack | ruby/bignum.c:354-378 | an octal number is read back behind a plain zero, a decimal one as it is |
| NumeralReading.NotRead | ruby/bignum.c:350-413 | a second sign gives 0, or an error when checked; radix 1 and radixes above 36 are errors |
| GcGraph.LiveIsClosed | ruby/gc.c:736-992 | what reachable objects refer to is reachable |
| GcGraph.LiveIsLeast | ruby/gc.c:736-992 | the reachable objects are the least closed set with the roots |
| Gc.ObjSpace.GcMark | ruby/gc.c:701-727 | marks one object; what is below it is done, on the mark stack, or given up with the overflow flag set |
| Gc.ObjSpace.GcMarkChildren | ruby/gc.c:736-992 | every marked object is finished or pending again when the call returns, the last reference being followed in a loop |
| Gc.ObjSpace.GcMarkAll | ruby/gc.c:559-576 | rescanning the heap after an overflow makes up for everything given up |
| Gc.ObjSpace.GcMarkRest | ruby/gc.c:578-592 | working from the copy of the stack loses nothing while the stack is filled again |
| Gc.ObjSpace.MarkRoots | ruby/gc.c:1329-1397 | after the roots everything is marked, on the stack, or given up with the flag set |
| Gc.ObjSpace.MarkPhase | ruby/gc.c:1327-1407 | the outer loop ends, and exactly the reachable objects are marked |
| Gc.AllMarked | ruby/gc.c:1400-1407 | an empty stack without overflow means the marks are closed |
| Gc.ObjSpace.SweepPage | ruby/gc.c:1063-1090 | of a page, unmarked cells go to the front of the free list and marked ones are unmarked and untouched |
| Gc.ObjSpace.SweepHeap | ruby/gc.c:1055-1103 | after all pages: given up are exactly those without a marked cell that come after enough freed cells, never page 0, and the free list has each unmarked cell of the others |
| GcFreeList.SweptApart | ruby/gc.c:1055-1103 | after the sweep all marks are gone, marked cells are untouched and still lie on a page, and all others are free |
| Gc.ObjSpace.Malloc | ruby/gc.c:350-351 | memory that no page in use covers |
| Gc.ObjSpace.AddHeap | ruby/gc.c:326-373 | a page of the current size joins the pages, all its cells on the free list; objects and other pages are untouched |
| Gc.ObjSpace.FreeUnusedHeaps | ruby/gc.c:1012-1029 | compaction in place keeps page 0 and exactly the nonempty pages, in order |
| GcFreeList.PackedCovers | ruby/gc.c:1012-1029 | dropping empty pages loses no cell |
| GcFreeList.PackedApart | ruby/gc.c:1012-1029 | the kept pages are nonempty and disjoint, page 0 in front |
| Gc.ObjSpace.GcSweep | ruby/gc.c:1031-1120 | exactly the marked objects survive, unchanged and unmarked; the free list is acyclic, has each other cell of the pages once, and is not empty; empty pages are dropped in order, and a page is added exactly when fewer than 4096 cells were freed |
| GcPolicy.GivenUpIff | ruby/gc.c:1091-1102 | a page is given up if and only if none of its cells is marked and more than 4096 cells have been freed on the pages before it that are kept |
| GcPolicy.PagesLeft | ruby/gc.c:1109-1112 | after the sweep the pages not given up are left, and a page is added if and only if fewer than 4096 cells have been freed on them |
| GcPolicy.PackedInOrder | ruby/gc.c:1012-1029 | compaction keeps the pages that are left in their order and drops empty ones only |
| Gc.ObjSpace.GarbageCollect | ruby/gc.c:1305-1409 | exactly the reachable objects survive, unchanged, and a cell is free; with collection switched off a page is added when needed |
| Gc.ObjSpace.NewObj | ruby/gc.c:376-391 | always finds a free cell, which was not reachable; it is cleared: no references, data 0 |
| Gc.ObjSpace.constructor | ruby/gc.c:1524-1531 | the first page |
| GcRun.CollectKeepsLive | ruby/gc.c:1305-1409 | a collection does not change what is reachable |
| GcRun.NewIsAlone | ruby/gc.c:376-391 | an allocation makes one more object reachable and no other |
| GcRun.SafeStep | ruby/gc.c:376-391 | no step makes a reachable reference dangle |
| GcRun.RunIsSafe | ruby/gc.c:1305-1409 | over every run of allocations, writes, root changes and collections no reachable reference dangles |
| GcRun.ReachableIsKept | ruby/gc.c:1305-1409 | over every run an object that stays reachable and is not written keeps its contents |
| GcRun.NewIsUnused | ruby/gc.c:376-391 | over every run a new object differs from every reachable one, and no reachable object refers to it |
| GcProgram.DoesNext | ruby/gc.c:376-391 | a program that uses what it holds and finds there takes steps of such a run only |
| GcProgram.OneSimulated | ruby/gc.c:376-1409 | every operation, a collection included, answers as in a memory that is never collected, and reachable objects go on corresponding one to one |
| GcProgram.PerformOne | ruby/gc.c:199-391 | every operation of a program on the object space is the step it is meant to be |
| GcProgram.Perform | ruby/gc.c:199-1409 | a whole program on the object space is a run, and is answered as in a memory that is never collected: contents and identity of objects, however cells are reused |
| GcProgram.RunProgram | ruby/gc.c:1524-1531 | from the first page on, every program gets the answers of the memory that is never collected |
| GcIdeal.NewIsBlank | ruby/gc.c:376-391 | in the memory that is never collected a new object has data 0 and no references, is held in no other place, and changes nothing for the others |
| GcIdeal.WriteThenRead | ruby/gc.c:376-391 | there what was written is read, in whatever place the object is held, and other objects are as they were |
| GcIdeal.WriteThenLoad | ruby/gc.c:376-391 | and a reference that was written is loaded, the last one asked for by -1; other objects refer to what they did |
| GcIdeal.DropThenRead | ruby/gc.c:199-222 | and a root that is dropped is gone, while those behind it move up and no object changes |
| RArrays.Isolation | ruby/array.c:58-72 | whoever changes only itself and blocks of its own changes no other array, and the sharing invariant stays |
| RArrays.StillLooking | ruby/array.c:447-510 | the same for an array that goes on looking into a shared block |
| RArrays.HandedOver | ruby/array.c:462-481 | handing a block over to a frozen root changes no elements |
| RArrays.Relocated | ruby/array.c:58-72 | moving to a block of one's own changes no elements; the block left may be freed if nobody else was in it |
| RArrays.SplicedBehind | ruby/array.c:969-980 | gap cleared, replacement copied, length set: the elements, nils and replacement |
| RArrays.TailMoved | ruby/array.c:994-998 | moving the tail leaves everything before its new place alone: why an array can be spliced into itself |
| RArrays.SplicedInside | ruby/array.c:981-1002 | tail moved and replacement written, from another block or from the array itself: the elements before, the replacement, the elements behind |
| RArrays.StoredElements | ruby/array.c:362-386 | element by element: the value at its index, nil in the gap, all other elements as they were, and the length |
| RArrays.SplicedElements | ruby/array.c:952-1002 | element by element, for every beg and len: the length, what is before beg with nil in the gap, the replacement from beg on, and behind it what was behind the elements replaced, fewer than len at the end |
| RArrayOps.ArraySpace.Modify | ruby/array.c:58-72 | the array gets a block of its own, unless it is frozen; no elements change |
| RArrayOps.ArraySpace.Realloc | ruby/array.c:374-375 | a larger or smaller block with the same elements; nobody else was in the old one |
| RArrayOps.ArraySpace.MakeShared | ruby/array.c:462-481 | the array looks into the block of a frozen root; no elements change |
| RArrayOps.ArraySpace.NewArray | ruby/array.c:113-131 | an empty array |
| RArrayOps.ArraySpace.Freeze | ruby/array.c:74-79 | frozen, with the same elements |
| RArrayOps.ArraySpace.Store | ruby/array.c:349-386 | a[i] = v on one array and no other, as StoredElements says, growing the block; index and frozen errors change nothing |
| RArrayOps.ArraySpace.Pop | ruby/array.c:447-460 | the last element, and the array without it; no other array changes |
| RArrayOps.ArraySpace.Shift | ruby/array.c:496-510 | the first element, and the array without it; no other array changes |
| RArrayOps.ArraySpace.Subseq | ruby/array.c:594-622 | nil exactly when out of range, else a new array with the elements asked for, cut at the end; no other array changes |
| RArrayOps.ArraySpace.Replace | ruby/array.c:2160-2178 | the elements of the other array, by sharing its block; no other array changes |
| RArrayOps.ArraySpace.Splice | ruby/array.c:940-1003 | a[beg, len] = rpl, as SplicedElements says, also when rpl is a itself or shares its block; no other array changes |
| RArrayRuns.PerformOne | ruby/array.c:58-1003 | every operation answers, and does to elements and frozenness of all arrays, what it does on plain sequences |
| RArrayRuns.Perform | ruby/array.c:58-1003 | a whole run on shared, in-place storage is a run on plain sequences: every answer, error and state, for arrays made on the way as for old ones |
| RArrayRuns.Undisturbed | ruby/array.c:58-1003 | over every run, from whatever point on, an array that no operation writes to keeps its elements |
| RArrayRuns.FrozenForever | ruby/array.c:58-79 | over every run a frozen array stays frozen and keeps its elements, whatever is called on it |
| RArrayRuns.RunIsDetermined | ruby/array.c:58-1003 | answers and states of a run depend on what the program sees at the start, the operations and the identities of new arrays only: sharing cannot be observed |
| FlattenSpec.FlatOfTrees | ruby/array.c:2871-2900 | of trees the walk finds all leaves in order |
| FlattenSpec.TreesOfFlat | ruby/array.c:2871-2900 | where the walk ends, what it walked over is trees |
| FlattenSpec.FlatIffTree | ruby/array.c:2916-2940 | flattening an array fails exactly when it contains itself, directly or not; otherwise it gives the leaves of its tree |
| FlattenSpec.TreeIsUnique | ruby/array.c:2871-2900 | an element stands for at most one tree |
| FlattenSpec.FlatFrame | ruby/array.c:2881-2886 | the elements of an array being flattened do not matter for the walk |
| Flatten.UnfoldsKnown | ruby/array.c:2871-2900 | unfolding nested arrays brings no array into play that was not there |
| Flatten.FlattenAt | ruby/array.c:2871-2900 | the element at idx gives way to its leaves and the growth returned, possibly -1, is exact; or the array is recursive, or frozen; in any case only nested arrays were unfolded |
| Flatten.FlattenLoop | ruby/array.c:2887-2899 | caller's i and lim stay exact while nested arrays grow and shrink the array under the loop |
| Flatten.ArrayElement | ruby/array.c:2890-2895 | after a nested array the loop goes on behind its leaves |
| Flatten.LeavesAreNoArrays | ruby/array.c:2871-2900 | no array is left among the leaves |
| Flatten.FlattenBang | ruby/array.c:2916-2940 | nil exactly without nested arrays; else the leaves of the array, or an error exactly when it is recursive or frozen, and also then the elements are the old ones with nested arrays unfolded; no other array and nothing frozen changes, and the call always ends |
| MethodCache.Interpreter.SearchMethod | ruby/eval.c:376-391 | the loop over super links finds what is first along the chain |
| MethodMeaning.FoundFirst | ruby/eval.c:376-440 | the first table along the chain that has the name decides: without a body there is no method, an alias has the body, name and origin it keeps, any other method its own body, that class and the name, and both have the visibility of the entry |
| MethodMeaning.AbsentIff | ruby/eval.c:376-414 | there is no method if and only if no table along the chain has the name or the first entry has no body |
| MethodCache.Interpreter.GetMethodBody | ruby/eval.c:393-452 | a fresh walk, aliases resolved, as FoundFirst and AbsentIff say; the result is what is stored in the cache, also that there is none |
| MethodCache.Interpreter.Call | ruby/eval.c:5709-5724 | with a valid cache a call gets what a fresh walk finds, as FoundFirst and AbsentIff say, on a hit as on a miss, also for cached absences and colliding slots |
| MethodCache.Interpreter.ClearCache | ruby/eval.c:255-266 | all entries empty |
| MethodCache.Interpreter.ClearCacheById | ruby/eval.c:285-299 | exactly the entries for a name are emptied |
| MethodCache.InsertIsCoherent | ruby/eval.c:346-348 | clearing a name everywhere is enough for a new method in whatever table |
| MethodCache.Interpreter.AddMethod | ruby/eval.c:321-357 | the class finds just the body given, as its own method of that name, or nothing if none was given; visibility as given, initializers private unless the class is a singleton class; frozen classes refuse; the cache is still right |
| MethodMeaning.DefinedIsFound | ruby/eval.c:346-348 | after a definition every class whose chain comes to that table before another entry for the name finds just what was defined |
| MethodMeaning.DefinedBehind | ruby/eval.c:346-348 | a class that has another entry before that table, or that table not at all, finds what it found |
| MethodCache.Interpreter.Undef | ruby/eval.c:1883-1930 | an error exactly if the class is frozen or finds no method; else it finds none afterwards, and the cache is still right |
| MethodCache.Interpreter.Alias | ruby/eval.c:1989-2037 | an error exactly if the class is frozen or there is no such method, in a module also not in Object; else the new name means what the old one meant, aliases of aliases resolved, and the cache is still right |
| MethodCache.Interpreter.NewClass | ruby/class.c:21-35 | a new class, singleton class or module changes no chain, and the cache is still right |
| MethodCache.NewClassInherits | ruby/class.c:21-48 | a new class finds for every name what its superclass finds, a new module nothing |
| MethodCache.Interpreter.Freeze | ruby/object.c:731-741 | the class is frozen, and nothing else changes: no lookup, and the cache is still right |
| SuperChains.LinkedOk | ruby/class.c:337-363 | a new entry behind a class keeps all chains in order |
| SuperChains.LinkedChain | ruby/class.c:407 | in every chain through that class the new entry follows it; no other chain changes |
| ClassTree.ThroughOwner | ruby/class.c:337-363 | a chain that reaches the entry of an includer comes through the includer, or starts behind it: entries belong to one includer |
| ClassTree.NoneShared | ruby/class.c:365-413 | the chain of a module has no class in common with that of another class or module |
| ClassTree.LinkedTidy | ruby/class.c:407 | a new entry keeps the tree in order: one class below an entry, nothing below a module, only entries above it, each table once |
| ClassTree.OnlyKlassStep | ruby/class.c:407 | a new entry for a class changes no chain that does not come through it, and the others as its own |
| ClassTree.NewTidy | ruby/class.c:21-35 | a new class or module keeps the tree in order |
| MethodCache.Interpreter.FindEntry | ruby/class.c:392-406 | the first entry for a module, and whether the insertion point may move to it |
| IncludeMerge.FirstForeseen | ruby/class.c:392-406 | the first entry for a module is where the chain computed from the chains before the call has it |
| IncludeChain.IncludeSkips | ruby/class.c:392-410 | a module that is there already adds nothing, and the insertion point is where it was foreseen |
| IncludeChain.IncludeInserts | ruby/class.c:407-408 | a module that is not there gets one entry, before any superclass and where it was foreseen; no other chain changes |
| MethodCache.Interpreter.IncludeWalk | ruby/class.c:385-411 | the outer loop ends; all modules, or those before klass itself is met, have their places in the chain of klass, chains through klass have grown alike, and no other chain has changed |
| MethodCache.Interpreter.IncludeModule | ruby/class.c:365-413 | the exact new chain of klass, as Merge computes it from the chains before: old entries in order, everything from the first superclass on unchanged, every module of the chain included once and nothing else; chains through klass grow alike and no other chain changes; the cache is right afterwards unless the call raises after a name has been overtaken |
| MethodCache.Interpreter.IncludeTwice | ruby/class.c:365-413 | a second inclusion of the same module goes through and changes nothing |
| IncludeOrder.NewInOrder | ruby/class.c:385-411 | if none of the modules was included before, entries for them stand behind the includer in the order of the modules, and behind them is what was there |
| IncludeOrder.NewFollows | ruby/class.c:385-411 | in general a new module stands before any superclass, behind the one that comes before it in what is included and has a place there, or the includer, and apart from it only by modules that come later |
| IncludeOrder.MergeAt | ruby/class.c:384-408 | the insertion point is the place of the last module that has one before any superclass |
| IncludeChain.IncludedAlready | ruby/class.c:365-413 | after an inclusion all modules of the chain are included, and none of them has to be entered again |
| StaleCache.KeptMerge | ruby/class.c:365-413 | without the new places the chain that is made is the old one |
| StaleCache.LookupOvertaken | ruby/eval.c:376-391 | from any old class in the chain of klass a lookup changes if and only if a newly included table has the name, no table before it has, and the result differs |
| StaleCache.StaleIffOvertaken | ruby/class.c:389-390 | for every inclusion, whole or broken off: some cache entry that was right is wrong afterwards if and only if a name is overtaken, which is a condition on the chains and tables before the call |
| MethodCache.CyclicIncludeLeavesStale | ruby/class.c:389-390 | a cyclic include that fails after including another module leaves the cache wrong: a concrete world and entry |
| MethodCache.TwoModulesOk | ruby/class.c:389-390 | that world, with Object in it, and that entry are in order before the call |
| MethodRuns.PerformOne | ruby/eval.c:239-452 | every operation does what it does to classes, tables and chains, and keeps or loses the cache as RightAfter says |
| MethodRuns.Perform | ruby/eval.c:239-452 | a whole run of class definitions, method definitions, undefinitions, aliases, inclusions and calls is a run on classes, tables and chains |
| MethodRuns.CallsAreRight | ruby/eval.c:5709-5724 | over every run from a right cache, however operations are interleaved: until a cyclic inclusion overtakes a name, every call gets what a fresh walk finds at that time |
| MethodRuns.InclusionHeals | ruby/class.c:412 | whatever has happened before, even if the cache was wrong: after an inclusion that inserts an entry and succeeds, every call gets what a fresh walk finds, until a cyclic inclusion overtakes a name |
| MethodRuns.Untouched | ruby/eval.c:376-391 | over every run without inclusions a name nobody defines, undefines or makes an alias means what it meant, for every class |
| MethodRuns.DefinedIsCalled | ruby/eval.c:321-452 | over every run: after a definition a call to the class gets just the body given, its origin, name and visibility, until somebody touches the name |
| MethodRuns.AliasIsCalled | ruby/eval.c:1989-2037 | over every run: a call to an alias gets what the old name meant when the alias was made, until somebody touches the new name |
| MethodRuns.UndefinedIsCalled | ruby/eval.c:1883-1930 | over every run: a call to an undefined method finds nothing, until somebody touches the name |
| FrozenRuns.FreezeTakes | ruby/object.c:731-741 | what is frozen is frozen with the entries, superclass and methods it has |
| FrozenRuns.FrozenForever | ruby/class.c:372 | over every run a frozen class keeps its entries, its superclass and its methods, whatever is defined and included anywhere, and whoever tries to change it gets an error |
| ThreadRing.Scheduler.Allocate | ruby/eval.c:11254-11269 | a thread that is not started is in no ring |
| ThreadRing.InsertedRing | ruby/eval.c:11409-11417 | merging in a thread keeps next and prev inverse on one cycle, with the new thread behind the current one |
| ThreadRing.RemovedRing | ruby/eval.c:10024-10034 | taking out a thread keeps the cycle of the others; removed threads still lead back |
| ThreadRing.Scheduler.Start | ruby/eval.c:11396-11423 | the ring with the thread inserted behind the current one, with its priority; both have their stacks saved, the new one is current, and no other thread changes |
| ThreadRing.Scheduler.Remove | ruby/eval.c:10024-10034 | the ring without the thread, which is killed; no other thread changes |
| ThreadRing.Scheduler.StartingThread | ruby/eval.c:10188-10190 | from a killed thread the prev links lead back to a live one |
| ThreadRing.Scheduler.Choose | ruby/eval.c:10340-10350 | once around the ring: the first thread to be killed, else the first ready one of highest priority, else none |
| ThreadRing.Scheduler.SaveContext | ruby/eval.c:9817-9835 | a thread of the ring has its stack saved and changes in nothing else; a dead one and all others stay |
| ThreadRing.Scheduler.SetStatus | ruby/eval.c:10003-10012 | a thread of the ring stops, is ready again or is to be killed; the ring stays |
| ThreadRing.Scheduler.Schedule | ruby/eval.c:10340-10404 | the thread chosen runs, and the one left has its stack saved; no other field of any thread changes. A deadlock is reported only when no thread is ready or to be killed, and then the main thread is to be killed |
| ThreadRing.Scheduler.constructor | ruby/eval.c:12515-12517 | the main thread alone |
| ThreadChoice.ChoiceIsUnique | ruby/eval.c:10340-10350 | there is one choice only |
| ThreadChoice.PickIsNext | ruby/eval.c:10340-10350 | among threads of highest priority the pick is the next one around the ring |
| ThreadChoice.Fairness | ruby/eval.c:10340-10350 | with statuses and priorities fixed, each of the m ready threads of highest priority is picked within m picks, wherever they start |
| ThreadRing.Scheduler.RunAround | ruby/eval.c:10340-10404 | from a thread that has a stack, as many schedulings as there are ready threads of highest priority run each of them |
| ThreadRing.Scheduler.RunAroundAnew | ruby/eval.c:10340-10404 | from any current thread, saved or not, one scheduling more runs each thread that is ready and of highest priority once the current one has its stack |
| ThreadRuns.PerformOne | ruby/eval.c:10024-10404 | every operation does to threads and ring what it is meant to do |
| ThreadRuns.Perform | ruby/eval.c:10024-10404 | a whole run of allocating, starting, stopping, killing and scheduling threads keeps one cycle, and goes by these steps |
| ThreadRuns.RingIsStarted | ruby/eval.c:10024-10034 | over every run the ring holds exactly the threads that were in it or have been started and have not been killed |
| ThreadRuns.KilledNeverRuns | ruby/eval.c:10024-10034 | over every run a thread that has been killed is never scheduled again |
| ThreadRuns.LeftIsReady | ruby/eval.c:10388-10397 | over every run a thread that has been left for another one, or has been started, is ready whenever it is runnable, until it is killed |
| ThreadRuns.StatusKept | ruby/eval.c:10003-10012 | over every run a thread keeps its status unless it is set, or a deadlock is reported to the main thread |
| ThreadRuns.RunnableIsReady | ruby/eval.c:11396-11423 | over every run from the main thread alone: as soon as there are two threads, every runnable one is ready |

## Left out

- Floats, `quo`, `divide` beyond `divmod`, conversions to native long long and double, packing, hashing and random numbers of `bignum.c`.
- BignumFromString.CstrToInum: a missing string, and characters behind a NUL, do not exist in the model; `strtoul` knows the prefix `0x` and no other.
- BignumToString.Big2Str: does not model digit widths other than 16 and 32, the only ones the C code has estimates for, and the trimming of `T_BIGNUM` zero.
- BignumBits.Get2comp: does not model a buffer without digits, which `>>` by the whole length makes; `RShiftPattern` says what the code does with it.
- BignumMul.BigPow: does not model bignum, float and negative exponents, which give floats.
- BignumAdd.BigAdd: does not model operands whose longer one is the smaller one; canonical numbers never are.
- Machine overflow of lengths, indices and counters: lengths of buffers are unbounded numbers.
- Finalizers, the conservative scan of stack and registers (roots are a given list), `obj_free`, parser-time marking, `malloc` failure and the growth limit of `malloc_increase`.
- Gc.ObjSpace.GcMarkChildren: does not model the references of each object type; an object has a list of references and a last one. `StackCheck` may answer anything.
- Gc.ObjSpace.Store: does not model writes of references a user cannot reach.
- Cells, arrays, classes and threads are records in a map or sequence from addresses to records, as memory is; the methods update that memory in place. What a compiler does with two C references to one record is not captured.
- RArrayOps.ArraySpace.Splice: does not model replacements that are no arrays, which `to_ary` would convert; `REALLOC_N` always moves the block.
- Array operations that only add easy members (reverse, compact, index, assoc, unshift), sorting, taint and safe levels, the temporary lock during sort, and `beg + len` beyond the largest long.
- Flatten.FlattenAt: the memo array is a sequence handed down, so that popping is returning; objects with a `to_ary` method are not arrays.
- `remove_method`, visibility changes, class cloning, freeing of classes, lookups before `ruby_running` is set, and the hooks `method_added`, `singleton_method_added` and the like.
- MethodCache.Interpreter.IncludeModule: does not model cloned classes, which share entries with their original.
- MethodCache.Interpreter.AddMethod: requires that the node of an alias names a class that is there; only `rb_alias` makes such nodes.
- MethodRuns.Perform: definitions, undefinitions and aliases name classes and modules, not the entries of included modules, which a program does not see.
- MethodCache.Interpreter.Call: visibility checks and `method_missing` after the lookup.
- ThreadRing.Scheduler.Schedule: does not model waiting for time, files and joins, the stacks themselves and the termination flag; statuses are as they are when it is called.
- ThreadRing.Scheduler.Start: does not model starting again a thread that has links already, frozen thread groups and what the thread runs.
- ThreadRing.Scheduler.Remove: the main thread is never removed, since the interpreter stops with it.
- Continuations, signals, `fork`, evaluation, loading, and all Ruby scripts of the repository.
