# Verification of the sbase libraries

A Dafny model of the algorithms and state machines of this repository, with proofs about all inputs and all runs. Code that
changes state is modelled as classes and methods with loops and proved against specification functions; what the code is
for is then proved about those functions. `dafny verify dfyconfig.toml` checks the whole project.

## Components

**Big integers** (`manager/js/BigInt.js`). A number is a sign and base-65536 digits in an array; `Val` is the integer the
digits denote. JavaScript's 32-bit operators are written out (`JsNumbers`). Addition and multiplication are exact;
division is Knuth's Algorithm D (The Art of Computer Programming, volume 2, section 4.3.1) with its trial-digit theorem; and
printing and parsing are inverse in bases 2, 8, 10 and 16. Subtraction loses a borrow in `>>>= 16`: `DifferenceExactIff`
says exactly when, and every operation that goes through it (`AddInternal`, `Plus`, `Minus`, mixed-sign remainders) is exact
if and only if its subtraction is. Numbers with leading zeros are allowed throughout. Files: Digits, JsNumbers, BigInts,
Numerals, DigitBudget, BigIntText, BigIntSubtraction, BigIntSigned, BigIntMultiplication, TrialDigits, BigIntDivision,
BigIntDivMod, BigIntRoundTrip, BigIntLiterals.

**DEFLATE** (`manager/js/inflate.js`, RFC 1951). CanonicalCode gives the code that lengths define; HuffmanTables what a walk
over linked tables means; the Huft files build the tables as `zip_HuftBuild` does and prove that walking them is decoding
the canonical code. Deflate is the format itself: a function from a decoder state to the next output byte. BitReader,
SlidingWindow, SymbolDecoder, DynamicTrees and Inflate are the program: bit buffer, masked ring, headers, and the decoder that
stops in the middle of a match when the buffer is full. InflateAll proves that buffer sizes do not matter and that each
match byte equals the output byte `distance` before it; DeflateTables states the constant tables by the rules of the RFC.

**DES** (`manager/js/des.js`, FIPS 46-3 and FIPS 81). The unrolled permutations and rounds on 32-bit words, undone for any
schedule and any S-boxes; chained blocks with a length byte; keys of several parts; and the hexadecimal form. DesBits
follows single bits: the permutations and the indexes of the S-boxes are those of the tables of FIPS 46-3, and the loops are
its sixteen rounds.

**Connections** (`devel/libsbase/src/conn.c`). ConnBlocks is the block pool and the linked send queue. ConnWriter and
ConnReader are state machines whose steps are single accesses to shared state, interleaved in every order: pushers against
the writer, the reader thread against the handler thread. ConnSender and ConnReceiver are the handlers themselves; each
extends a run of the state machine by the steps its body takes. ConnFraming is the division of a stream into packets.
Assumptions about the headers `chunk.h`, `mmblock.h` and the devel `sbase.h`, which are not part of this model: a chunk is
bytes with `left`; it is over exactly when `left` is 0; a reset gives `left` 0; a write sends 1 to `left` bytes, would block
or fails; `D_STATE_FREE` is 0; a buffer is followed by a NUL byte. The events and messages of one connection's output are
handled by one thread.

**Events** (`devel/libevbase/src`). One map from descriptor to event; select, poll, epoll and kqueue each keep their own
form of the interest set, and `Valid` says that what is armed is what the map asks for. EventDispatch runs the select and
poll scans with handlers that add, change and destroy events on the way.

**Codecs.** base64 and UTF-8 (`manager/js`), the ini dictionary with its file format (`libsbase/src/iniparser.c`), and DNS
queries and names (`devel/libevbase/src/evdns.c`, RFC 1035). CodecForms and IniLines state the forms of the texts apart
from the code that reads them.

## Where the code and its intention differ

- A stored block's second length word is dropped (`inflate.js:425`), as RFC 1951 section 3.2.4 wants it.
- `bigint_sub_internal` is not exact in general; `0 - y` comes out as `y`, because `z == 0` compares a number object by its
  text. A zero of two or more digits prints as nothing, a negative one as "-", which is not a number and not equal to 0.
- `bigint_cmp` tells zeros apart that differ in sign or length, and takes more digits for a larger number.
- `bigint_divmod` returns undefined for an early quotient (`BigInt(1, 1)` without `new`); the short remainder loses its sign
  in `bigint_from_int`; and the search for the top digit of a divisor of several zero digits never ends. `DivMod` states all
  three.
- `dictionary_get` compares with NULL when the key's hash is 0 and an empty slot comes before the key; `Get` states exactly when.
- On an error `zip_inflate_internal` returns 0 in the last block and -1 before, and what is in the last buffer is lost;
  `Internal` and `InflateWhole` state this.
- `des_unescape` makes a byte of a single last digit only when nothing follows it; `Unescape` states it.
- `iniparser_new` looks for an empty value in quotes before it has taken off the line end, so `""` is empty only where the file
  ends behind it; `EmptyQuotes` states both cases.
- In `conn_send_handler` every path leaves the loop in its first turn, so `SendHandler` has none.

## Model

| member | source | states |
|---|---|---|
| `JsNumbers.SplitUnsigned` | manager/js/BigInt.js:375-376 | `& 0xffff` and `>>>= 16` split any number of 0..2^32-1 into its low digit and its carry |
| `JsNumbers.SplitSigned` | manager/js/BigInt.js:554-556 | `& 0xffff` and the signed `>>= 16` split any number of -2^31..2^31-1 into a digit and a carry that may be negative |
| `Digits.ValInjective` | manager/js/BigInt.js:156-165 | digit sequences of one length denote one number only |
| `BigInts.BigInt.constructor` | manager/js/BigInt.js:119-155 | the two-argument constructor: `len` zero digits and the given sign |
| `BigInts.BigInt.Clone` | manager/js/BigInt.js:109-117 | a separate object with the same sign and the first `len` digits |
| `BigInts.BigInt.Norm` | manager/js/BigInt.js:156-165 | leading zeros go, the denoted magnitude stays |
| `BigInts.AddMagnitudes` | manager/js/BigInt.js:351-391 | same-sign addition is exact on the denoted integers, for any two lengths, and the result is normalized |
| `BigInts.AddLow` | manager/js/BigInt.js:372-377 | the loop over the common digits: sum and carry together are the sum of what was read, and the carry is 0 or 1 |
| `BigInts.AddCarry` | manager/js/BigInt.js:378-383 | the carry runs on through the longer operand without changing the sum |
| `BigIntSubtraction.SubtractDigits` | manager/js/BigInt.js:418-434 | the loops compute the difference of the registers as JavaScript does, with `>>>= 16` losing the sign of a borrow |
| `BigIntSubtraction.DifferenceExactIff` | manager/js/BigInt.js:418-434 | the computed digits denote x - y if and only if no digit borrows at a position with two or more digits above it, so exactly when no borrow is lost by `>>>=` |
| `BigIntSubtraction.DeepBorrowExample` | manager/js/BigInt.js:424 | 0x1_0000_0000 - 1 comes out as 2 * 2^32 - 1 |
| `BigIntSubtraction.FirstIsSmaller` | manager/js/BigInt.js:400-416 | the operands are exchanged if and only if the first has fewer digits, or as many and is smaller |
| `BigIntSubtraction.LooselyZero` | manager/js/BigInt.js:418 | `z == 0` on a number object, by way of its text: true for zero, but not for a negative zero of two or more digits |
| `BigIntSubtraction.SubInternal` | manager/js/BigInt.js:393-437 | sign and digits for any two numbers, leading zeros or not; the result is \|x\| - \|y\| if and only if SubtractionExact: rightly ordered, no deep borrow, and not a zero minus something |
| `BigIntSubtraction.EqualNeverBorrows` | manager/js/BigInt.js:418-434 | equal magnitudes always subtract to zero, whatever their leading zeros |
| `BigIntSubtraction.ZeroMinusOne` | manager/js/BigInt.js:418 | 0 - 1 comes out as 1 |
| `BigIntSigned.AddInternal` | manager/js/BigInt.js:351-391 | signed addition of x and `sign`*y is exact if and only if the operands have like signs or the subtraction behind it is exact |
| `BigIntSigned.Plus` | manager/js/BigInt.js:439-444 | x + y exactly when SumExact, for any two numbers |
| `BigIntSigned.Minus` | manager/js/BigInt.js:446-451 | x - y exactly when SumExact with the sign turned, for any two numbers |
| `BigIntSigned.Uminus` | manager/js/BigInt.js:344-349 | always the negative, in a new normalized object |
| `BigIntSigned.HighestDifference` | manager/js/BigInt.js:665-671 | the loop from the top finds the highest digit that differs, and that digit decides the order |
| `BigIntSigned.Cmp` | manager/js/BigInt.js:643-672 | -1, 0 or 1 as the integers compare, if and only if they are not Misjudged: zeros of different signs, or more digits without being larger |
| `BigIntSigned.OnlyZerosMisjudged` | manager/js/BigInt.js:643-672 | without leading zeros only zeros are misjudged, by sign or by shape |
| `BigIntSigned.ZerosDiffer` | manager/js/BigInt.js:654-658 | a positive and a negative zero compare as different |
| `BigIntMultiplication.RowIntermediate` | manager/js/BigInt.js:480-484 | every intermediate of a row is at most 2^32 - 1, and four digits 0xffff reach it |
| `BigIntMultiplication.AddRow` | manager/js/BigInt.js:475-488 | row i finds position i + ylen still zero and adds digit * y, shifted, to the digits; nothing else changes |
| `BigIntMultiplication.MultiplyDigits` | manager/js/BigInt.js:474-489 | the double loop leaves exactly the product |
| `BigIntMultiplication.Mul` | manager/js/BigInt.js:453-492 | multiplication is exact on the denoted signed integers and normalized |
| `TrialDigits.ScaleFactorNormalizes` | manager/js/BigInt.js:548 | dd is 1..2^15 and brings the top digit of the divisor to 2^15 or more without a further digit |
| `BigIntDivision.ScaleProduct` | manager/js/BigInt.js:553-566 | every scaling intermediate stays below 2^31, so the signed `>>= 16` is exact |
| `TrialDigits.TrialInRange` | manager/js/BigInt.js:575-576 | the estimate is 0..65535 and is the quotient of the top two digits where that fits |
| `TrialDigits.TrialNotBelow` | manager/js/BigInt.js:575-576 | the estimate is never below the true quotient digit |
| `TrialDigits.TrialAtMostTwoAbove` | manager/js/BigInt.js:575-576 | the estimate is at most 2 above the true quotient digit |
| `TrialDigits.BorrowsAtMostOnce` | manager/js/BigInt.js:587 | multiply-and-subtract goes below zero by less than one unit of the position above, so `num` is 0 or -1 |
| `BigIntDivision.ShortDivide` | manager/js/BigInt.js:521-528 | the in-place loop for a one-digit divisor leaves quotient and remainder: old = d * new + t2 with 0 <= t2 < d |
| `BigIntDivision.ScaleDigits` | manager/js/BigInt.js:551-566 | scaling multiplies the denoted number by dd |
| `BigIntDivision.MultiplySubtract` | manager/js/BigInt.js:578-587 | the window loses exactly q * y, with the borrow left in `num`; digits outside stay |
| `BigIntDivision.AddBack` | manager/js/BigInt.js:588-597 | one turn of add-back adds y to the window and returns the carry |
| `BigIntDivision.AddBackLoop` | manager/js/BigInt.js:588-598 | `while (num)` ends, and with the true quotient digit |
| `BigIntDivision.ReduceWindow` | manager/js/BigInt.js:575-598 | estimate, subtract, add back: window = q * y + new window with 0 <= new window < y |
| `BigIntDivision.DivideRound` | manager/js/BigInt.js:574-600 | one round keeps the account remainder + y * quotient, and the next window is again below y * 65536 |
| `BigIntDivision.DivideLoop` | manager/js/BigInt.js:573-600 | the whole loop: dividend = low digits + y * high digits with low digits below y |
| `BigIntDivMod.LongDivide` | manager/js/BigInt.js:541-600 | after the loop the array holds dd * (x mod y) below and x div y above |
| `BigIntDivMod.LongQuotient` | manager/js/BigInt.js:621-626 | the quotient of the long path is x div y, normalized |
| `BigIntDivMod.LongRemainder` | manager/js/BigInt.js:602-614 | un-scaling is exact: the remainder is x mod y, with the sign of x |
| `BigIntDivMod.FromInt` | manager/js/BigInt.js:167-187 | the low 31 bits of the absolute value; the sign is dropped |
| `BigIntDivMod.ShortDivMod` | manager/js/BigInt.js:518-539 | for a one-digit divisor the quotient is exact with its sign; the remainder comes back without its sign; both are 0 for the divisor 0 |
| `BigIntDivMod.TopDigit` | manager/js/BigInt.js:546-547 | the search for the top digit stops at it, or never for a zero divisor |
| `BigIntDivMod.LongDivMod` | manager/js/BigInt.js:541-626 | for longer divisors: quotient and like-sign remainder exact; the mixed-sign remainder exact if and only if MixedExact, a test of the digits of the remainder against those of the divisor |
| `BigIntDivMod.EarlyIsSmaller` | manager/js/BigInt.js:511 | the early return is only taken for a dividend smaller than a divisor without leading zeros |
| `BigIntDivMod.SignedRemainderIff` | manager/js/BigInt.js:531-535 | the sign rule of the remainder is a modulo (0 <= r < \|y\| towards the divisor's sign) if and only if the signs agree or the division leaves something |
| `Digits.QuotientUnique` | manager/js/BigInt.js:494-627 | x = y*q + r with 0 <= r < y has one solution |
| `BigIntDivMod.DivMod` | manager/js/BigInt.js:494-627 | for any two numbers: when null or undefined comes back and when the call never returns; the quotient exact; the remainder exact for like signs, and for unlike signs and longer divisors if and only if MixedExact; x keeps its value |
| `BigIntDivMod.MixedIsDeep` | manager/js/BigInt.js:615-617 | MixedExact says of the numbers what the borrow test says of their digit arrays |
| `BigIntDivMod.MixedExample` | manager/js/BigInt.js:615-617 | two mixed-sign remainders that come out wrong |
| `DigitBudget.PowersOfTwoAndTen` | manager/js/BigInt.js:51 | 2^800 < 10^241, the ratio behind the decimal digit budget |
| `DigitBudget.BudgetSuffices` | manager/js/BigInt.js:48-69 | for each base, a number of i digits never has as many printed digits as the budget j |
| `BigIntText.DivideByChunk` | manager/js/BigInt.js:75-83 | the inner loop divides the digits in place by the chunk base and returns the remainder |
| `BigIntText.PrintChunk` | manager/js/BigInt.js:88-97 | four digits move from the number to the front of the text; the number denoted by both together stays |
| `BigIntText.PrintLoop` | manager/js/BigInt.js:75-98 | `while (i && j)` never stops because of j: the text denotes the whole number |
| `BigIntText.ToStringBase` | manager/js/BigInt.js:35-108 | for any number: the sign and the one canonical numeral of the magnitude in the base, "0" for zero; but of two or more zero digits only the sign is printed |
| `BigIntText.BudgetLeft` | manager/js/BigInt.js:75 | while digits remain j is positive, also when leading zeros cost passes |
| `BigIntText.ZeroText` | manager/js/BigInt.js:418 | the text equals 0 as a number exactly for zero, except for "-" |
| `Numerals.CanonicalUnique` | manager/js/BigInt.js:100-107 | there is only one lower-case numeral without leading zeros for a number |
| `BigIntText.Capacity` | manager/js/BigInt.js:235-254 | the digits allocated for the parser hold any number written with that many characters |
| `BigIntText.FindDigits` | manager/js/BigInt.js:235-253 | skipping the prefix and leading zeros does not change the number to be read |
| `BigIntText.TakeDigit` | manager/js/BigInt.js:285-298 | one character: the array becomes base * old + digit, and `blen++` never runs past the array |
| `BigIntText.ParseDigits` | manager/js/BigInt.js:257-299 | the loop reads exactly the number denoted by the longest run of digits of the base |
| `BigIntText.FromString` | manager/js/BigInt.js:189-301 | null exactly when nothing follows the sign; otherwise the sign and number that the prefix and base rules give the text |
| `BigIntLiterals.DigitLetters` | manager/js/BigInt.js:257-281 | which characters are digits and for what |
| `Numerals.DenotesCons` | manager/js/BigInt.js:257-299 | a digit counts the base to the power of the digits behind it |
| `BigIntLiterals.HexLiteral` | manager/js/BigInt.js:217-243 | 0x and 0X mean hexadecimal |
| `BigIntLiterals.BinaryLiteral` | manager/js/BigInt.js:217-246 | 0b and 0B mean binary |
| `BigIntLiterals.OctalLiteral` | manager/js/BigInt.js:217-239 | another leading 0 means octal |
| `BigIntLiterals.DecimalLiteral` | manager/js/BigInt.js:230-232 | otherwise decimal |
| `BigIntLiterals.SignedLiteral` | manager/js/BigInt.js:206-212 | a minus sign turns the sign, a plus sign changes nothing |
| `BigIntLiterals.LiteralEnds` | manager/js/BigInt.js:278-283 | the number ends at the first character that is no digit of the base |
| `BigIntRoundTrip.PrintThenInterpret` | manager/js/BigInt.js:35-301 | what is printed is read as the same sign and magnitude; not at all exactly for two or more zero digits |
| `BigIntRoundTrip.NormalUnique` | manager/js/BigInt.js:156-165 | normalized digit arrays denoting the same number are equal |
| `BigIntRoundTrip.RoundTrip` | manager/js/BigInt.js:35-301 | print then parse gives back the same digits and sign (zero canonical) for every normalized integer and base 2, 8, 10, 16 |
| `CanonicalCode.AtMostOne` | manager/js/inflate.js:80-300 | a bit stream starts with the canonical code of at most one symbol (RFC 1951 section 3.2.2) |
| `CanonicalCode.KraftIsEndOfCodes` | manager/js/inflate.js:167-179 | the Kraft sum of the lengths is the end of the code space used |
| `CanonicalCode.BeyondLast` | manager/js/inflate.js:262-264 | a stream beyond the last code starts with no code |
| `HuftCounting.CountLengths` | manager/js/inflate.js:138-151 | c[k] counts the codes of each length; c[0] == n exactly for an all-zero vector |
| `HuftCounting.SpaceLeftOver` | manager/js/inflate.js:167-179 | y is negative exactly when the Kraft sum exceeds 1, zero exactly when the set is complete, and otherwise the codes missing at the longest length |
| `HuftCounting.KraftAtLongest` | manager/js/inflate.js:167-179 | the test at the longest length is the test of the Kraft sum |
| `HuftCounting.SortByLength` | manager/js/inflate.js:181-196 | v lists the symbols by length and then by value |
| `HuftSpace.ChooseBits` | manager/js/inflate.js:216-229 | the table width chosen is at least 1, never passes the longest code, and the whole width when the limits allow one table |
| `HuftInvariant.FillKeeps` | manager/js/inflate.js:273-280 | filling the entries that start with a code keeps the invariant: every entry below the current code position is final |
| `HuftInvariant.PushKeeps` | manager/js/inflate.js:233-258 | opening and linking a table keeps the invariant |
| `HuftInvariant.PopKeeps` | manager/js/inflate.js:287-291 | leaving a finished table keeps the invariant |
| `HuftSteps.OpenTable` | manager/js/inflate.js:213-258 | one turn of the loop that opens tables keeps the invariant and reaches further down |
| `HuftSteps.NextEntry` | manager/js/inflate.js:261-271 | the entry r is that of the next symbol in canonical order, or the invalid entry when the values are used up |
| `HuftSteps.FillTable` | manager/js/inflate.js:273-280 | exactly the entries congruent to the code get r |
| `HuftSteps.StoreCode` | manager/js/inflate.js:273-280 | storing one code moves the final part of the tables on by the space of that code |
| `HuftSteps.NextBackward` | manager/js/inflate.js:282-285 | the backwards increment is plus 1 on the bit-reversed code |
| `HuftSteps.BackUp` | manager/js/inflate.js:287-291 | backing up ends, and at the table the next code belongs to |
| `HuftBuild.OneCode` | manager/js/inflate.js:209-292 | one code: tables, entry, fill, increment and back-up together place the code at its canonical position |
| `HuftBuild.FillTables` | manager/js/inflate.js:206-293 | after all lengths the whole code space is placed |
| `HuffmanTables.WalkFrom` | manager/js/inflate.js:341-353 | a walk from any table on the path of a stream ends, and with what the stream decodes to |
| `HuffmanTables.CompleteMeans` | manager/js/inflate.js:341-388 | walking finished tables yields a symbol's entry and uses its length if and only if the stream starts with its canonical code, and the invalid entry otherwise |
| `HuftBuild.Build` | manager/js/inflate.js:80-300 | status 2 if and only if the Kraft sum exceeds 1; status 1 if and only if the set is incomplete and its longest code is not 1 bit; otherwise finished tables; one table when the limit covers the longest code and there is no end-of-block code |
| `HuftBuild.BuiltMeans` | manager/js/inflate.js:80-300 | built tables mean the canonical code (with CompleteMeans), for every length vector that is not oversubscribed |
| `BitReader.Reader.constructor` | manager/js/inflate.js:621-633 | the bits of the data, low bit of each byte first |
| `BitReader.Reader.GetByte` | manager/js/inflate.js:306-310 | the next byte modulo 256, -1 for ever after the end |
| `BitReader.Reader.NeedBits` | manager/js/inflate.js:312-317 | loading bytes into the buffer does not change the bits that remain to be read |
| `BitReader.Reader.GetBits` | manager/js/inflate.js:319-321 | the next n bits of the stream |
| `BitReader.Reader.DumpBits` | manager/js/inflate.js:323-326 | exactly n bits of the stream go |
| `SlidingWindow.Window.Put` | manager/js/inflate.js:355-358 | a byte written through the mask is the newest of the history |
| `SlidingWindow.Window.Get` | manager/js/inflate.js:394-399 | the byte at a masked position that lags `distance` behind is the byte `distance` back in the history |
| `SymbolDecoder.DecodeSymbol` | manager/js/inflate.js:341-353 | reads one symbol of the canonical code, or finds that there is none |
| `SymbolDecoder.SingleTable` | manager/js/inflate.js:550-554 | a single-table lookup in the code-length code finds the symbol, the one code also where the set is incomplete |
| `Deflate.CompleteCovers` | manager/js/inflate.js:540-541 | in a complete code every stream starts with some code |
| `DynamicTrees.ReadCodeLengths` | manager/js/inflate.js:527-535 | the code-length lengths in the order of zip_border, the rest zero |
| `DynamicTrees.ReadSymbol` | manager/js/inflate.js:549-584 | one symbol or repeat, as RFC 1951 section 3.2.7 reads it, or the error of a repeat past the end |
| `DynamicTrees.ReadAllLengths` | manager/js/inflate.js:546-584 | all literal and distance lengths, or the error |
| `DynamicTrees.BuildTrees` | manager/js/inflate.js:586-615 | both tables are built exactly when the lengths are acceptable; an empty literal tree is the null table |
| `DynamicTrees.ReadDynamic` | manager/js/inflate.js:514-616 | the header of a dynamic block: tables for exactly the codes the reference reader finds, and the same bits left |
| `InflateSteps.FixedCodes` | manager/js/inflate.js:445-496 | the fixed code lengths are a complete literal set and a distance set that is not oversubscribed |
| `InflateSteps.TokenOf` | manager/js/inflate.js:355-371 | entry operations 16, 15 and below mean literal, end of block and length with that many extra bits |
| `InflateSteps.MatchOf` | manager/js/inflate.js:374-391 | length, distance and extra bits of a match, as the format defines them |
| `DeflateTables.LengthTable` | manager/js/inflate.js:47-53 | by the rules of RFC 1951 section 3.2.5: the extra bits of each length symbol, and where its lengths begin |
| `DeflateTables.OneLengthSymbol` | manager/js/inflate.js:47-53 | every length from 3 to 257 belongs to exactly one symbol; with LengthTable, the table covers them without gap or overlap |
| `DeflateTables.DistanceTable` | manager/js/inflate.js:54-61 | the same for the distance symbols |
| `DeflateTables.OneDistanceSymbol` | manager/js/inflate.js:54-61 | every distance from 1 to 32768 belongs to exactly one symbol |
| `DeflateTables.MatchRead` | manager/js/inflate.js:369-391 | a match is the first length of its symbol plus extra bits and the first distance of the next symbol plus extra bits, by the rules |
| `DeflateTables.BorderOrder` | manager/js/inflate.js:62-63 | the order of the code length codes: 16, 17, 18, 0 and outwards from 8 |
| `DeflateTables.RepeatRead` | manager/js/inflate.js:555-583 | a length, 3 to 6 repeats, 3 to 10 zeros, 11 to 138 zeros, with their extra bits |
| `DeflateTables.FixedLengths` | manager/js/inflate.js:453-477 | the fixed code lengths of RFC 1951 section 3.2.6, symbol by symbol |
| `Inflate.Inflater.constructor` | manager/js/inflate.js:621-633 | a fresh decoder at the start of the data |
| `Inflate.Inflater.CopyByte` | manager/js/inflate.js:394-400 | one byte of a match is the next byte of the format's output |
| `Inflate.Inflater.CopyMatch` | manager/js/inflate.js:394-400 | the copy loop stops at the end of the match or of the buffer and has produced the next bytes |
| `Inflate.Inflater.Token` | manager/js/inflate.js:341-391 | one symbol with its distance, or the end of the block, or an error, as the format has it |
| `Inflate.Inflater.Codes` | manager/js/inflate.js:328-408 | a compressed block, until the buffer is full or the block ends |
| `Inflate.Inflater.Stored` | manager/js/inflate.js:410-443 | a stored block: byte boundary, length and complement, and the bytes, with both length words dropped |
| `Inflate.Inflater.Fixed` | manager/js/inflate.js:445-496 | a block with the fixed codes; the tables are made once |
| `Inflate.Inflater.Dynamic` | manager/js/inflate.js:498-619 | a block with its own codes, or the errors of its header |
| `Inflate.Inflater.Resume` | manager/js/inflate.js:644-667 | a suspended match or stored block goes on where it was |
| `Inflate.Inflater.OpenNext` | manager/js/inflate.js:669-716 | the header of the next block and what its type leads to |
| `Inflate.Inflater.Round` | manager/js/inflate.js:640-717 | one turn of the loop produces something or comes nearer to the end of the data |
| `Inflate.Inflater.Internal` | manager/js/inflate.js:635-719 | a call for `size` bytes delivers exactly the next `size` bytes of the format's output, fewer only at the end; -1, an exception or 0 exactly for the errors; and the state left is the format's state after these bytes |
| `Deflate.RunSplit` | manager/js/inflate.js:635-719 | reading m bytes and then n is reading m + n |
| `InflateAll.CallsAreOneRun` | manager/js/inflate.js:635-719 | for every sequence of buffer sizes the concatenated calls are one run |
| `InflateAll.SizesDoNotMatter` | manager/js/inflate.js:721-737 | two sequences of buffer sizes that both reach the end give the same output |
| `InflateAll.MatchOutput` | manager/js/inflate.js:393-400 | each byte of a match equals the byte `distance` before it in the output, across suspensions and overlaps |
| `InflateAll.InflateInPieces` | manager/js/inflate.js:635-719 | one call after the other for any data and any sequence of buffer sizes: the output is the format's, as one call would give it |
| `InflateAll.InflateWhole` | manager/js/inflate.js:721-737 | the whole output for an error-free stream; with an error, the whole buffers before it |
| `Des.ExchangeTwice` | manager/js/des.js:720-765 | the bit exchange between the halves undoes itself, for each of the five shift and mask pairs |
| `Des.FinalAfterInitial` | manager/js/des.js:720-765 | doFP reverses doIP up to the exchange of halves |
| `Des.InitialAfterFinal` | manager/js/des.js:720-765 | doIP reverses doFP up to the exchange of halves |
| `Des.RoundsUndone` | manager/js/des.js:647-704 | the rounds run backwards undo the rounds, for any 32-word schedule and any S-box tables |
| `DesBits.ExchangeBit` | manager/js/des.js:720-765 | where an exchange takes each bit from |
| `DesBits.InitialBits` | manager/js/des.js:720-743 | every bit after doIP is the one the table IP of FIPS 46-3 names |
| `DesBits.FinalBits` | manager/js/des.js:745-765 | every bit after doFP is the one the inverse table names in the block of the right half and then the left |
| `DesBits.LoadBit` | manager/js/des.js:633-641 | bit i of the halves is bit i mod 8 of byte i / 8 of the block |
| `DesBits.RoundLookups` | manager/js/des.js:649-660 | which six bits of the half and of which schedule word index each of the eight tables: the expansion E of FIPS 46-3 |
| `DesBits.EncryptingRounds` | manager/js/des.js:647-674 | the loop is sixteen Feistel rounds with the pairs of schedule words in order |
| `DesBits.DecryptingRounds` | manager/js/des.js:675-704 | the loop is sixteen Feistel rounds with the pairs in reverse order |
| `DesBits.BlockConversion` | manager/js/des.js:629-718 | a block is converted by IP, the rounds, and FP |
| `Des.ConvertUndone` | manager/js/des.js:629-718 | des_convert with false after des_convert with true is the identity on every block |
| `Des.Cipher.DoIP` | manager/js/des.js:720-743 | the unrolled code in place is the initial permutation function |
| `Des.Cipher.DoFP` | manager/js/des.js:745-765 | the unrolled code in place is the final permutation function |
| `Des.Cipher.MaskedRound` | manager/js/des.js:649-660 | the masked form of a round is the same round function |
| `Des.Cipher.Round` | manager/js/des.js:662-673 | the form without masks is the round function |
| `Des.Cipher.Encrypting` | manager/js/des.js:647-674 | the loop is the sixteen rounds forward |
| `Des.Cipher.Decrypting` | manager/js/des.js:675-704 | the loop is the sixteen rounds backward |
| `Des.Cipher.ConvertBlock` | manager/js/des.js:629-718 | the block is overwritten with its conversion |
| `DesCbc.LengthRoundTrip` | manager/js/des.js:147-200 | the length byte survives the last block |
| `DesCbc.CbcRoundTrip` | manager/js/des.js:103-204 | chaining is undone for every byte string, schedule, previous block and padding |
| `DesCbc.AllRoundTrip` | manager/js/des.js:109-168 | decrypting with the parts of a key in reverse order undoes encrypting with them in order |
| `DesCbc.ChainedAt` | manager/js/des.js:127-137 | every full block of output is the conversion of the text block and the output block before it (FIPS 81) |
| `DesCbc.LastChained` | manager/js/des.js:138-153 | the last block is the conversion of the padded rest and the output block before it |
| `DesCbc.LastBlockAt` | manager/js/des.js:138-148 | rest, padding and length byte in their places |
| `DesCbc.ByteParts` | manager/js/des.js:147-200 | the length byte is the length; only its low three bits are read back |
| `DesCbc.PadDigit` | manager/js/des.js:143-146 | a random digit pads as its number, any other character as 0 |
| `DesCbc.KeyCodeAt` | manager/js/des.js:773-784 | the first eight codes of a key, filled up with zeros |
| `DesCbc.PartAt` | manager/js/des.js:794-802 | the parts of a key are its characters eight by eight |
| `DesCbc.FillLast` | manager/js/des.js:138-148 | the last block: rest, padding, length, chained |
| `DesCbc.EncryptPart` | manager/js/des.js:117-155 | one pass of encryption, block by block in place |
| `DesCbc.DecryptPart` | manager/js/des.js:171-204 | one pass of decryption |
| `DesCbc.Encrypt` | manager/js/des.js:103-155 | all passes; for a key of up to 8 characters the length is 8 * (n / 8 + 1) |
| `DesCbc.Decrypt` | manager/js/des.js:157-204 | all passes, last part of the key first |
| `DesCbc.RoundTrip` | manager/js/des.js:103-204 | decrypting what was encrypted gives back the text, for every text, key and padding |
| `DesEscape.Escape` | manager/js/des.js:67-78 | two hexadecimal digits for each byte, the high one first |
| `DesEscape.DigitsOfEscaped` | manager/js/des.js:67-78 | the digits of the text are those of the bytes |
| `DesEscape.HexCharacters` | manager/js/des.js:64-92 | the digits are 0 to 9 and upper-case A to F, and no other characters |
| `DesEscape.EscapedAt` | manager/js/des.js:67-78 | byte k is written at 2k, high digit first |
| `DesEscape.Scan` | manager/js/des.js:86-89 | the scanning loop finds the next digit or none |
| `DesEscape.Unescape` | manager/js/des.js:80-100 | the bytes made of the digits in pairs, with what the code makes of a single last digit |
| `DesEscape.EscapeRoundTrip` | manager/js/des.js:67-100 | any text with the same digits, whatever other characters stand between them, gives back the bytes |
| `ConnBlocks.Blocks.PopChunk` | devel/libsbase/src/conn.c:1622-1644 | a block nobody has: the one freed last, else a new one |
| `ConnBlocks.Blocks.FreeChunk` | devel/libsbase/src/conn.c:1646-1660 | the block goes on the stack; the stack never overflows |
| `ConnBlocks.Blocks.PushToSendq` | devel/libsbase/src/conn.c:71-92 | the linked list gets the block at its end |
| `ConnBlocks.Blocks.SendqHead` | devel/libsbase/src/conn.c:94-105 | the first block of the queue or NULL |
| `ConnBlocks.Blocks.PopFromSendq` | devel/libsbase/src/conn.c:107-123 | the first block comes off: the list is a first-in first-out queue |
| `ConnBlocks.OwnFreed` | devel/libsbase/src/conn.c:1646-1660 | freeing keeps one owner for each block, and there is room on the stack |
| `ConnBlocks.OwnQueued` | devel/libsbase/src/conn.c:71-92 | queueing keeps one owner for each block |
| `ConnBlocks.OwnTaken` | devel/libsbase/src/conn.c:107-123 | taking from the queue keeps one owner for each block |
| `ConnBlocks.ListAppend` | devel/libsbase/src/conn.c:76-88 | linking a block behind the tail gives the list with the block at its end, acyclic as before |
| `ConnBlocks.ListTail` | devel/libsbase/src/conn.c:112-120 | moving the head on gives the rest of the list, and the tail goes when the list gets empty |
| `ConnWriter.WakeupKept` | devel/libsbase/src/conn.c:215-236 | every step of pushers, writer and closers keeps the wakeup invariant |
| `ConnWriter.NoLostWakeup` | devel/libsbase/src/conn.c:323-511 | in every run, a non-empty queue of an open connection means write interest, an OUT message, a pusher between push and post, or a writer at work |
| `ConnWriter.DataKept` | devel/libsbase/src/conn.c:1084-1260 | every step keeps the order and the ends of what was pushed |
| `ConnWriter.BytesConserved` | devel/libsbase/src/conn.c:1084-1260 | in every run, the bytes on the wire and then those queued are the bytes pushed, in order |
| `ConnWriter.GracefulClose` | devel/libsbase/src/conn.c:1133-1151 | in every run, a connection closed by a sentinel has sent exactly what had been pushed at some earlier call of `conn_over_chunk` |
| `ConnWriter.SentinelPosition` | devel/libsbase/src/conn.c:1871-1891 | in every run, a queued sentinel marks how much had been pushed when `conn_over_chunk` put it there |
| `ConnWriter.SentinelsKept` | devel/libsbase/src/conn.c:1084-1260 | in every run, each sentinel queued, taken off or closing comes from one of these calls |
| `ConnWriter.ShutKept` | devel/libsbase/src/conn.c:687-704 | a closed connection stays closed, for the same cause |
| `ConnWriter.OneShutMessage` | devel/libsbase/src/conn.c:687-704 | at most one SHUT message is posted in a connection's life |
| `ConnSender.Sender.PushChunk` | devel/libsbase/src/conn.c:1777-1799 | refused on a closed connection; otherwise the chunk is queued behind the others and an OUT message posted |
| `ConnSender.Sender.FirstChunk` | devel/libsbase/src/conn.c:1094-1133 | a sentinel comes off unsent, a chunk loses what the socket took and comes off when nothing is left: the steps of the protocol |
| `ConnSender.Sender.WriteHandler` | devel/libsbase/src/conn.c:1084-1170 | what is left of the queue, when it fails and when it closes: one chunk is tried, and a sentinel at the front before or after it goes and closes; by writer steps only |
| `ConnSender.Sender.SendHandler` | devel/libsbase/src/conn.c:1173-1260 | the same for the handler that looks at one chunk or one sentinel at a time; by writer steps only |
| `ConnSender.Sender.WriteFirst` | devel/libsbase/src/conn.c:1097-1118 | the socket takes a first part of the first chunk, blocks or fails |
| `ConnSender.Sender.OutEventHandler` | devel/libsbase/src/conn.c:323-351 | one OUT message less; what goes on the wire and stays queued, when it fails and closes, and that write interest is armed exactly for what is left: the whole new state, by writer steps only |
| `ConnSender.Sender.OutputHandler` | devel/libsbase/src/conn.c:476-511 | what goes on the wire and stays queued, when it fails and closes, that writing stops when the queue is empty: the whole new state, by writer steps only |
| `ConnSender.HandledMeans` | devel/libsbase/src/conn.c:1084-1260 | what a handler leaves: unchanged when closed or failing, otherwise the remaining queue, closed exactly after a sentinel |
| `ConnSender.Sender.EndHandler` | devel/libsbase/src/conn.c:444-455 | an END message leads to an OUT message exactly when something is queued on an open connection |
| `ConnSender.Sender.Awake` | devel/libsbase/src/conn.c:323-511 | between handlers: nothing sleeps, no byte is lost, at most one SHUT message |
| `ConnFraming.DelimitedPacket` | devel/libsbase/src/conn.c:1300-1309 | there is a packet if and only if some prefix without NUL ends with the delimiter; it ends with it, has it nowhere earlier, and holds no NUL |
| `ConnFraming.CertainPacket` | devel/libsbase/src/conn.c:1292-1298 | a packet of the certain length as soon as there is that much |
| `ConnFraming.SplitDelimited` | devel/libsbase/src/conn.c:1300-1309 | every packet of a stream ends with the delimiter and holds it nowhere earlier |
| `ConnFraming.RestDelimited` | devel/libsbase/src/conn.c:1300-1309 | what is left holds no delimiter before a NUL |
| `ConnFraming.SplitCertain` | devel/libsbase/src/conn.c:1292-1298 | every packet has the certain length, and less is left |
| `ConnFraming.PacketStays` | devel/libsbase/src/conn.c:1286-1309 | more data does not change a packet that is complete |
| `ConnFraming.SplitLosesNothing` | devel/libsbase/src/conn.c:1263-1339 | packets and rest are the stream, and the rest holds no packet |
| `ConnFraming.SplitInTwo` | devel/libsbase/src/conn.c:1263-1339 | splitting a part and then the rest with more is splitting the whole |
| `ConnFraming.ReadBoundariesDoNotMatter` | devel/libsbase/src/conn.c:1263-1339 | the packets are the greedy split of the stream for any division into reads |
| `ConnReader.InvKept` | devel/libsbase/src/conn.c:302-364 | every step of reader and handler keeps the handshake and the packets |
| `ConnReader.NeverStalls` | devel/libsbase/src/conn.c:1020-1081 | in every run, with both idle, a free open session and a complete packet in the buffer, a BUFFER message is queued |
| `ConnReader.StreamConserved` | devel/libsbase/src/conn.c:1263-1339 | in every run, delivered packets and buffer are what was received, and a prefix of its split |
| `ConnReader.AllDelivered` | devel/libsbase/src/conn.c:1342-1361 | in every run, with nothing left to do, exactly the split of the stream has been delivered |
| `ConnReceiver.Receiver.ReadHandler` | devel/libsbase/src/conn.c:1020-1081 | the data is appended, and a free session cuts off one packet at once |
| `ConnReceiver.Receiver.BufferHandler` | devel/libsbase/src/conn.c:354-364 | a BUFFER message cuts off one packet if the session is free |
| `ConnReceiver.Receiver.PacketReader` | devel/libsbase/src/conn.c:1263-1339 | exactly the first packet moves from the buffer to the packet, the session is taken and a PACKET message posted; else nothing changes |
| `ConnReceiver.Receiver.PacketHandler` | devel/libsbase/src/conn.c:1342-1361 | the session is free again, with a BUFFER message when something is left in the buffer |
| `ConnReceiver.Receiver.SessionReset` | devel/libsbase/src/conn.c:312-320 | packet and state are reset in this order, and then the buffer looked at |
| `ConnReceiver.Receiver.EndHandler` | devel/libsbase/src/conn.c:456-460 | an END message leads to a BUFFER message exactly when an open connection's session is free and the buffer not empty |
| `ConnReceiver.Receiver.Settled` | devel/libsbase/src/conn.c:1020-1361 | between handlers: the stream is conserved, no stall, and the split when nothing is left |
| `EventBase.EventAdd` | devel/libevbase/src/evbase.c:212-232 | the flags are added and the backend arms what the flags say, for select, poll, epoll and kqueue |
| `EventBase.EventDel` | devel/libevbase/src/evbase.c:235-255 | the flags are taken away and the backend arms what is left |
| `EventBase.EventDestroy` | devel/libevbase/src/evbase.c:258-270 | the descriptor is not registered any more, and nothing armed for it |
| `EventBase.Base.Add` | devel/libevbase/src/evselect.c:36-58 | a fresh descriptor is registered with its flags armed; out of range: -1, or 0 in epoll and kqueue, and nothing changes |
| `EventBase.Base.ArmSelect` | devel/libevbase/src/evselect.c:44-53 | descriptor sets: exactly the read and write flags, other descriptors as before |
| `EventBase.Base.ArmPoll` | devel/libevbase/src/evpoll.c:31-60 | pollfd entry: exactly the read and write flags, other descriptors as before |
| `EventBase.Base.ArmEpoll` | devel/libevbase/src/evepoll.c:36-83 | kernel registration with MOD after EEXIST: exactly the read and write flags |
| `EventBase.Base.ArmKqueue` | devel/libevbase/src/evkqueue.c:49-82 | filters added: exactly the read and write flags |
| `EventBase.Base.RearmSelect` | devel/libevbase/src/evselect.c:61-94 | the difference of old and new flags applied to the sets gives the new flags |
| `EventBase.Base.RearmPoll` | devel/libevbase/src/evpoll.c:62-87 | the recomputed entry has the new flags |
| `EventBase.Base.RearmEpoll` | devel/libevbase/src/evepoll.c:86-130 | MOD, with ADD after ENOENT, leaves the new flags registered |
| `EventBase.Base.RearmKqueue` | devel/libevbase/src/evkqueue.c:85-159 | filters enabled and disabled by the difference leave the new flags armed |
| `EventBase.Base.Update` | devel/libevbase/src/evselect.c:61-94 | the one interest map holds again after the flags of an event have changed |
| `EventBase.Base.OneMap` | devel/libevbase/src/evbase.c:212-270 | in a valid base the descriptor sets, the pollfd entries, the epoll registrations and the enabled filters each say exactly what the registered events ask for |
| `EventBase.Base.Disarm` | devel/libevbase/src/evpoll.c:89-100 | nothing stays armed for the descriptor in select, poll and kqueue |
| `EventBase.Base.DisarmEpoll` | devel/libevbase/src/evepoll.c:133-150 | nothing stays registered for the descriptor in epoll |
| `EventBase.Base.Del` | devel/libevbase/src/evselect.c:96-114 | the map loses the descriptor and nothing else |
| `EventBase.Base.Enlist` | devel/libevbase/src/evbase.h:82-86 | the event is entered and maxfd raised if need be |
| `EventBase.Base.Delist` | devel/libevbase/src/evbase.h:87-92 | the entry is cleared and maxfd lowered by one when it was that descriptor |
| `EventDispatch.Bounded` | devel/libevbase/src/evbase.h:77-92 | maxfd bounds every registered descriptor |
| `EventDispatch.Turn` | devel/libevbase/src/evselect.c:140-159 | one descriptor of the scan: its handler is called with the ready flags it wants, never with an event destroyed before |
| `EventDispatch.SelectLoop` | devel/libevbase/src/evselect.c:117-162 | the scan in ascending order: an event no handler touched is called with Read if and only if it wants to read and select found it readable, the same for Write, and not at all otherwise; no event destroyed before; what counts as touched and destroyed is fixed by the handlers run |
| `EventDispatch.PollLoop` | devel/libevbase/src/evpoll.c:103-144 | the same for POLLIN and POLLOUT, a hang-up or an error counting as both; no call beyond what `poll` reported, as entries written by handlers hold nothing |
| `EventDispatch.PolledIsExpected` | devel/libevbase/src/evpoll.c:119-140 | when `poll` reports only what was asked for, all of it is armed, wanted and dispatched |
| `EventDispatch.StillHolding` | devel/libevbase/src/evpoll.c:46-100 | a handler's changes leave in each entry the result reported, or none |
| `EventDispatch.ReadyIsExpected` | devel/libevbase/src/evselect.c:117-162 | what select reports ready is registered and wanted |
| `Base64.Base64RoundTrip` | manager/js/base64.js:25-107 | decoding what was encoded gives back every byte string |
| `Base64.JunkIsIgnored` | manager/js/base64.js:59-107 | characters outside the alphabet are skipped, wherever they stand |
| `Base64.JunkRoundTrip` | manager/js/base64.js:25-107 | an encoding with such characters put in still decodes to the bytes |
| `Base64.Base64Encode` | manager/js/base64.js:25-57 | the loop is the encoding by groups of three |
| `Base64.NextSextet` | manager/js/base64.js:67-103 | the inner loop skips to the next character of the alphabet, or stops at the end or the padding |
| `Base64.Base64Decode` | manager/js/base64.js:59-107 | the loop is the decoding by sextets |
| `CodecForms.AlphabetCodes` | manager/js/base64.js:14 | the alphabet of RFC 2045: letters, digits, + and / |
| `CodecForms.OnlyAlphabet` | manager/js/base64.js:15-23 | a 7-bit code decodes to the sextet whose character it is, and to none outside the alphabet |
| `CodecForms.ThreeBytesForm` | manager/js/base64.js:50-55 | 24 bits as four sextets, the first byte highest |
| `CodecForms.TwoBytesForm` | manager/js/base64.js:42-49 | 16 bits and two zero bits as three sextets, and one = |
| `CodecForms.OneByteForm` | manager/js/base64.js:34-40 | 8 bits and four zero bits as two sextets, and two = |
| `CodecForms.GroupAt` | manager/js/base64.js:25-57 | group k of the text stands for group k of the bytes |
| `Utf.UtfRoundTrip` | manager/js/utf.js:15-68 | every sequence of 16-bit units, zero and lone surrogates included, comes back |
| `Utf.Utf16to8` | manager/js/utf.js:15-34 | the loop is the encoding unit by unit, into bytes |
| `Utf.Utf8to16` | manager/js/utf.js:36-68 | the loop is the decoding, reading as past-the-end what is missing |
| `CodecForms.UnitForm` | manager/js/utf.js:20-31 | the bytes of a unit are its UTF-8 form: lead byte, continuation bytes and payload in order, as short as possible but for 0, which takes two |
| `CodecForms.UnitAt` | manager/js/utf.js:15-34 | the bytes of the units one after the other |
| `Utf.StrRoundTrip` | manager/js/functions.js:108-113 | strdecode of strencode is the identity, also with foreign characters put in on the way |
| `IniDictionary.Dictionary.constructor` | libsbase/src/iniparser.c:273-287 | an empty map in at least 128 slots |
| `IniDictionary.Dictionary.Set` | libsbase/src/iniparser.c:381-433 | the map with the key set, whatever slot or doubling it takes |
| `IniDictionary.Dictionary.Double` | libsbase/src/iniparser.c:409-418 | doubling keeps the map |
| `IniDictionary.Dictionary.MemDouble` | libsbase/src/iniparser.c:214-222 | the old content and as much zero again |
| `IniDictionary.Dictionary.FirstEmpty` | libsbase/src/iniparser.c:420-426 | the search for an empty slot ends inside the arrays |
| `IniDictionary.TakenBound` | libsbase/src/iniparser.c:409-426 | fewer keys than slots means an empty slot |
| `IniDictionary.Dictionary.Unset` | libsbase/src/iniparser.c:446-477 | the map without the key |
| `IniDictionary.Dictionary.Get` | libsbase/src/iniparser.c:335-353 | the value or the default; a comparison with NULL exactly when the hash is 0 and an empty slot comes first |
| `IniDictionary.NullComparison` | libsbase/src/iniparser.c:342-347 | such a comparison, in an empty dictionary |
| `IniText.SectionParses` | libsbase/src/iniparser.c:943-946 | a printed section header is read as that section |
| `IniText.EntryParses` | libsbase/src/iniparser.c:947-961 | a printed entry is read as that key and value |
| `IniLines.CommentIgnored` | libsbase/src/iniparser.c:939-941 | blank lines and lines that begin with ; or # are ignored |
| `IniLines.SectionRead` | libsbase/src/iniparser.c:943-946 | a name in brackets opens the section, in lower case |
| `IniLines.PlainEntryRead` | libsbase/src/iniparser.c:949-959 | without quotes the value ends at a comment, and the blanks around it go; the key is in lower case |
| `IniLines.QuotedEntryRead` | libsbase/src/iniparser.c:947-959 | in double quotes all up to the next one is the value, comment signs included |
| `IniLines.EmptyQuotes` | libsbase/src/iniparser.c:951-959 | empty quotes are an empty value only where the file ends behind them; in front of a line end they stay |
| `IniLines.LowerLetters` | libsbase/src/iniparser.c:58-72 | upper-case letters become lower-case, nothing else changes |
| `IniLines.PrintedEntry` | libsbase/src/iniparser.c:671-677 | the key filled up to 30 characters, an equals sign, the value |
| `IniText.DumpRoundTrip` | libsbase/src/iniparser.c:645-966 | parsing the dump of a well-formed dictionary gives the same map |
| `IniFile.GetNSec` | libsbase/src/iniparser.c:558-573 | the number of keys without a colon |
| `IniFile.GetSecName` | libsbase/src/iniparser.c:591-611 | the n-th of them in slot order, or none |
| `IniFile.DumpIni` | libsbase/src/iniparser.c:645-683 | the text of the dump |
| `IniFile.IniNew` | libsbase/src/iniparser.c:915-966 | the dictionary read line by line from a text |
| `IniFile.SaveAndLoad` | libsbase/src/iniparser.c:645-966 | dump and read again: the same map |
| `Dns.NameIsWire` | devel/libevbase/src/evdns.c:45-57 | the label loop writes the wire form of RFC 1035 section 3.1 for good labels |
| `Dns.WireReads` | devel/libevbase/src/evdns.c:75-102 | the wire form at any place of a message reads as its labels and ends behind its terminator |
| `Dns.CompressedReads` | devel/libevbase/src/evdns.c:83-88 | labels followed by a pointer to an earlier name read as both together and end behind the pointer (RFC 1035 section 4.1.4) |
| `Dns.MakeQuery` | devel/libevbase/src/evdns.c:9-72 | -1 for a long name; otherwise header, name and question, and the length returned |
| `Dns.ExpandName` | devel/libevbase/src/evdns.c:75-102 | expansion ends, gives the dotted name, and returns the place behind the name or its first pointer |
| `Dns.PointerTarget` | devel/libevbase/src/evdns.c:83-88 | a pointer is 11 and fourteen bits of offset, high bits first |
| `Dns.LongNames` | devel/libevbase/src/evdns.c:18-25 | the length tested is that of the wire form, against 255 |
| `Dns.QueryRoundTrip` | devel/libevbase/src/evdns.c:9-102 | the query is exactly as long as returned, and expanding it at offset 12 gives back the name; identifier, RD as the only flag, one question and no other records, type and class are in their places |

## Left out

- BigIntText.ToStringBase: bases 2, 8, 10 and 16 only; the source prints other bases by its decimal budget.
- BigIntText.FromString: base 0, 2, 8, 10 or 16; texts so long that `len >> 4` overflows 32 bits are treated as exact.
- `bigint_from_any` and `bigint_number` on floating-point numbers; JavaScript's quotient of two integers below 2^53 is taken to have the exact floor.
- HuftBuild.Build: the code's local arrays are sequences reassigned by the loops, and references to tables are their numbers in order of allocation, so aliasing between tables is not captured.
- BitReader.Reader.NeedBits: up to 16 bits, the most the decoder asks for.
- SlidingWindow.Window.Get: a match that reaches before the start of the output gives what the slide held; its first content is arbitrary here.
- Inflate.Inflater.Internal: after an error or an exception the decoder's state is not described.
- InflateAll.InflateWhole: for data whose decoding ends; a text that decodes for ever has no result in the source either, and InflateAll.InflateInPieces covers its calls.
- Des.ConvertUndone: the key schedule, parity and the contents of the S-boxes are parameters, so nothing is said about which ciphertext a key gives.
- DesCbc.Encrypt: byte strings and string keys; the random padding is a parameter; a key given as an array, `des_encrypt` and `des_decrypt` are left out.
- ConnBlocks.Blocks.PopChunk: needs a free or fresh block; the source has no check for an exhausted pool.
- ConnWriter.NoLostWakeup: a connection with an in- or out-daemon; a pusher may have found the connection open long ago, so the model allows more runs than the code.
- ConnWriter.GracefulClose: no SSL, multicast, proxy exchange, timers or byte counters.
- ConnSender.Sender.PushChunk: `chunk_mem` always gets its memory; `conn_over` and `conn_send_chunk` have the same two steps and are not repeated.
- ConnReader.NeverStalls: packets by length and by delimiter; reading into chunks, quick handlers, out-of-band data and customized packet readers are left out.
- ConnReceiver.Receiver.ReadHandler: without the out-of-band, chunk and proxy branches of the same function.
- ConnReceiver.Receiver.PacketReader: without customized readers and quick handlers.
- ConnReceiver.Receiver.PacketHandler: the session's own handler is a step that changes nothing of the connection.
- EventBase.Base.Add: a descriptor that is not registered already, and persistent events; events that fire once, edge triggering and the mutexes are left out.
- EventBase.EventDel: the persistent flag is not among the flags taken away.
- EventBase.Base.EpollCtl: only ENOENT and EEXIST as errors.
- EventDispatch.SelectLoop: descriptors below FD_SETSIZE; the time-out is a choice of the descriptors reported ready.
- EventDispatch.PollLoop: the results the kernel reports are any function of the place in the array.
- The epoll and kqueue loops, which dispatch from the kernel's own list.
- Base64.Base64Decode: a code unit counts by its low 8 bits as in the source; the decoded table entries above 127, undefined in the source, are taken as 0.
- IniDictionary.Dictionary.Set: the hash is any function of the key; memory exhaustion is left out.
- IniText.DumpRoundTrip: dictionaries as the parser builds them, with lower-case keys, trimmed unquoted values without `;` and `#`, and lines that fit into 1024 bytes; other contents are printed but not read back.
- Dns.ExpandName: messages in which every name and pointer stays inside and pointers lead backwards; on others the source reads outside the message or loops for ever.
- Dns.MakeQuery: the empty domain is excluded, because the source then reads before the string.
- `evdns_parse_reply` beyond the question, `service_pushconn`, `service_popconn`, `service_getconn`, `xmm.c`, `message.c`, `md5.js`, `printf.js`, `cPageSplit.js`: easy members, or a restatement of a standard.
- PHP pages, SQL, HTML, sockets, fork and exec, logging, clocks, the demo servers and the stub backends: input and output, user interface and foreign calls.
