# TritSet in Dafny

`TritSet` is a growable container of trits, the values of three-valued logic
(False, Unknown, True). Each trit takes 2 bits, so a 32-bit `uint` holds 16 of
them.

- **Codes.** A field holds `01` for False, `00` for Unknown and `10` for True.
- **Reads.** Every position can be read. A position past the allocated words
  reads Unknown.
- **Writes.** Writing past the end appends zero words until the target word
  exists.
- **`lastTritPos`.** The container tracks the position of the last
  non-Unknown trit. Its `size()` is that position plus one, or 0 when every
  trit is Unknown.
- **Operators.** `~`, `&` and `|` work elementwise with Kleene's strong
  connectives. The shorter operand counts as Unknown past its end.

The project has four modules:

- `Trits` (`trits.dfy`) holds the value algebra: the `Trit` datatype, NOT,
  AND and OR with their tables stated as if-and-only-if contracts, and the
  laws they obey.
- `Packing` (`packing.dfy`) is the packed layout as pure functions.
  - One word: `Field`, `Decode` and `SetField` on `bv32`. `Field` and
    `Decode` are proved equal to the source's shift-and-mask read. `SetField`
    is proved equal to the write with the mask 0b11; the source's decimal 11
    is under "Findings".
  - A word vector: `ReadTrit` (the read) and `WriteTrit` (the write with
    growth), and the round trip between them.
  - `Represents(st, ts)` says that a `seq<Trit>` lists the trits the words
    hold. `WriteRepresents` and `PrefixRepresents` keep it in step with a
    write and with dropping words.
- `TritSets` (`tritset.dfy`) holds the class `TritSet`.
  - It has the source's two fields: `storage: seq<bv32>` and
    `lastTritPos: nat`.
  - It adds a ghost field `trits` that is the decoded view of the words.
    `Valid()` ties the two together: no field holds `11`, every position
    after `lastTritPos` is Unknown, and `lastTritPos` is non-Unknown unless
    every trit is.
  - The methods keep the source's loops: pushing and popping words, the
    scan of `countLastTritPos`, and the result-building loops of the
    operators.
  - Each method is specified through `ValueAt(p)`, the value at position
    `p`.
- `TritTests` (`tests.dfy`) holds the unit-test material.
  - The `tritSetFromString` parser, with its round trip against rendering.
  - The test scenarios, each a method whose result is what the test
    asserts.

Each defect listed under "Findings" has two members. One models the code as written,
with a lemma that exhibits the defect. The other is the corrected
definition, which the rest of the model uses (see "Findings").

## Model

| member | source | states |
|---|---|---|
| `Trits.Not` | TritSet.cpp:214-223 | NOT gives True exactly for False, False exactly for True, Unknown exactly for Unknown |
| `Trits.And` | TritSet.cpp:225-234 | AND is False exactly when either side is False and True exactly when both are True |
| `Trits.Or` | TritSet.cpp:236-245 | OR is True exactly when either side is True and False exactly when both are False |
| `Trits.DoubleNegation` | TritSet.cpp:214-223 | NOT applied twice is the identity |
| `Trits.AndCommutes` | TritSet.cpp:225-234 | AND does not depend on operand order |
| `Trits.OrCommutes` | TritSet.cpp:236-245 | OR does not depend on operand order |
| `Trits.AndAssociates` | TritSet.cpp:225-234 | AND is associative |
| `Trits.OrAssociates` | TritSet.cpp:236-245 | OR is associative |
| `Trits.DeMorgan` | TritSet.cpp:214-245 | NOT turns AND into OR of the negations, and OR into AND |
| `Trits.CombineWithUnknown` | TritSet.cpp:225-245 | combining with Unknown keeps only False under AND and only True under OR |
| `Trits.UnknownPreserved` | TritSet.cpp:214-245 | NOT fixes exactly Unknown; AND and OR of two Unknowns are Unknown |
| `Trits.TritChar` | TritSet.cpp:158-167 | a trit is written as one of F, U, T |
| `Trits.TritCharInjective` | TritSet.cpp:158-167 | distinct trits are written as distinct characters |
| `Packing.Code` | TritSet.cpp:13-15 | no value is encoded as the unused pattern 11 |
| `Packing.FieldIsShifted` | TritSet.cpp:43-45 | field `k` of a word is the word shifted right by `2k`, masked with 0b11 |
| `Packing.DecodeTestsShiftedCodes` | TritSet.cpp:45-50 | a read tests the False bit shifted into place first, then the True bit, else gives Unknown |
| `Packing.SetFieldIsShifted` | TritSet.cpp:186-202 | a write clears the field with 0b11 shifted into place and ors in the shifted code |
| `Packing.FieldSetField` | TritSet.cpp:186-202 | a write puts the code in its field and leaves the other fifteen fields unchanged |
| `Packing.Decode` | TritSet.cpp:42-50 | reading a field inverts the encoding; the unused pattern 11 would read False |
| `Packing.SetField` | TritSet.cpp:186-202 | after the write the field holds the value's code |
| `Packing.DecodeSetField` | TritSet.cpp:172-204 | one-word round trip: the written field reads back the value, the other fields read as before |
| `Packing.SetFieldWellFormed` | TritSet.cpp:186-202 | writing never creates the pattern 11 |
| `Packing.ZeroWordUnknown` | TritSet.cpp:176-184 | an appended zero word holds sixteen Unknown trits |
| `Packing.WordsFor` | TritSet.h:27-31 | the word count for `n` trits is the least `w` with `16w >= n`, the allocation rule and the tests' `getCapacity` alike |
| `Packing.ReadTrit` | TritSet.cpp:36-51 | reading is total; a position at or past the capacity reads Unknown |
| `Packing.WriteTrit` | TritSet.cpp:172-204 | a write grows the vector to the word holding the position and changes no other existing word |
| `Packing.ReadAfterWrite` | TritSet.cpp:172-204 | the written position reads the value; every other position, grown or not, reads as before |
| `Packing.FieldOfDistinct` | TritSet.cpp:173-174 | two positions in the same word occupy different fields |
| `Packing.WriteWellFormed` | TritSet.cpp:172-204 | a write keeps every word free of the pattern 11 |
| `Packing.WriteGrowsOnlyPastCapacity` | TritSet.cpp:179-184 | the vector grows exactly when the position is at or past the capacity |
| `Packing.WrittenAt` | TritSet.cpp:172-204 | in the decoded view, a write changes the one position and no other |
| `Packing.WriteRepresents` | TritSet.cpp:172-204 | after a write the words hold the written view and stay free of 11 |
| `Packing.PrefixRepresents` | TritSet.cpp:72-79 | dropping trailing words keeps exactly the trits of the kept words |
| `Packing.CapacityIsAllocated` | TritSet.cpp:28-30 | a position is below the capacity exactly when its word is allocated |
| `Packing.SetFieldAsWrittenClearsNextTrue` | TritSet.cpp:187 | with the mask 11, writing field 0 erases a True in field 1; with 0b11 it does not |
| `Packing.ReadsWordAsWrittenPastEnd` | TritSet.cpp:39 | the read's bounds test as written admits the word one past the end |
| `Packing.CapacityAsWrittenOneWordTooMany` | TritSet.cpp:29 | the capacity as written exceeds the allocated trits by sixteen |
| `TritSets.TritSet.GetTrit` | TritSet.cpp:36-51 | reading a position gives the trit the container holds there, Unknown past the words |
| `TritSets.TritSet.Size` | TritSet.cpp:32-34 | the size is one past the last non-Unknown trit, 0 when none, at most the capacity |
| `TritSets.TritSet.SizeIs` | TritSet.h:54-58 | the size is determined by the values alone |
| `TritSets.TritSet.Empty` | TritSet.h:44-46 | the default container has no words and size 0 |
| `TritSets.TritSet.constructor` | TritSet.cpp:17-26 | `TritSet(n, v)` holds `v` at positions below `n`, allocates `ceil(n/16)` words, size `n` or 0 for Unknown |
| `TritSets.TritSet.WithCount` | TritSet.h:37-39 | `TritSet(n)` allocates `ceil(n/16)` words of Unknown and has size 0 |
| `TritSets.TritSet.Fill` | TritSet.cpp:17-26 | the constructor's loop and its setting of `lastTritPos` |
| `TritSets.TritSet.StoreTrit` | TritSet.cpp:172-204 | the in-place write: words grown and one field rewritten, view updated, `lastTritPos` untouched |
| `TritSets.TritSet.Capacity` | TritSet.cpp:28-30 | the capacity is 0 exactly when no word is allocated; a position is below it exactly when its word is allocated |
| `TritSets.TritSet.CountLastTritPos` | TritSet.cpp:206-212 | the rescan re-establishes the invariant on `lastTritPos` without changing any trit |
| `TritSets.TritSet.SetTrit` | TritSet.cpp:81-87 | only `pos` changes value; a write that changes nothing changes no field; Unknown past the words allocates nothing |
| `TritSets.TritSet.Trim` | TritSet.cpp:53-70 | positions before `from` keep their values, the rest read Unknown, and only the words of the new size remain |
| `TritSets.TritSet.ClearRange` | TritSet.cpp:63-64 | the clearing loop makes exactly the given range Unknown |
| `TritSets.TritSet.Shrink` | TritSet.cpp:72-79 | no value and not the size changes; the vector keeps exactly the words up to the last non-Unknown trit |
| `TritSets.TritSet.Equals` | TritSet.cpp:89-98 | equal exactly when the sizes and the trits below them agree, the same as equal values everywhere |
| `TritSets.TritSet.NotEquals` | TritSet.cpp:100-102 | unequal exactly when some position differs |
| `TritSets.TritSet.Not` | TritSet.cpp:108-114 | every position of the result is the negation; the size is unchanged |
| `TritSets.TritSet.And` | TritSet.cpp:116-134 | every position of the result is the AND of the operands' positions |
| `TritSets.TritSet.Or` | TritSet.cpp:136-154 | every position of the result is the OR of the operands' positions |
| `TritSets.TritSet.Combine` | TritSet.cpp:119-131 | the shared operator: every position is the operator applied to both operands, words for the larger size, `lastTritPos` recounted |
| `TritSets.TritSet.CombineBelow` | TritSet.cpp:123-129 | the result-building loop: below the bound each position holds the operator applied to both operands, Unknown from the bound on, one word per sixteen positions |
| `TritSets.TritSet.CombineAt` | TritSet.cpp:124-129 | each of the three branches gives the operator applied to both operands' trits |
| `TritSets.TritSet.ToString` | TritSet.cpp:156-170 | the text is one F/U/T character per position below the size |
| `TritSets.TritSet.EqualityViews` | TritSet.cpp:89-98 | "same size and trits below it", "same content" and "same value everywhere" coincide |
| `TritSets.TritSet.ContentsViewOfEquality` | TritSet.cpp:89-98 | same size and trits below it exactly when the same content |
| `TritSets.TritSet.ValuesViewOfEquality` | TritSet.cpp:89-98 | same size and trits below it exactly when the same value at every position |
| `TritSets.TrimRemoveCount` | TritSet.cpp:61 | trim clears from `from` up to the size, nothing when `from` is past it |
| `TritSets.TrimRemoveCountAsWritten` | TritSet.cpp:61 | the count as written is an unsigned 64-bit difference |
| `TritSets.TrimAsWrittenMissesLast` | TritSet.cpp:61-64 | as written, trim clears one position too few, so a False at `lastTritPos` stays set |
| `TritSets.TrimAsWrittenUnderflows` | TritSet.cpp:61-64 | as written, trimming from a `from` past `lastTritPos` asks for 2^64 - (from - lastTritPos) clears, where none are due |
| `TritSets.ShrinkKeepAsWritten` | TritSet.cpp:73 | shrink as written keeps `ceil(lastTritPos/16)` words |
| `TritSets.ShrinkAsWrittenDropsLastWord` | TritSet.cpp:73 | when `lastTritPos` is a multiple of 16, shrink as written drops the word holding it |
| `TritSets.CountLastAsWrittenKeepsStale` | TritSet.cpp:206-212 | the scan as written keeps a stale `lastTritPos` when every trit is Unknown |
| `TritSets.ConstructorLastTritPosAsWritten` | TritSet.cpp:24-25 | the constructor as written sets `lastTritPos` to an unsigned 64-bit value |
| `TritSets.ConstructorAsWrittenWrapsOnZero` | TritSet.cpp:24-25 | as written, a count of 0 with True wraps `lastTritPos` to 2^64 - 1 |
| `TritSets.TrimKeepAsWritten` | TritSet.cpp:66-67 | as ordered in the source, trim's shrink counts words from the stale `lastTritPos` |
| `TritSets.TrimAsWrittenKeepsSurplus` | TritSet.cpp:66-67 | trimming 100 True trits to 50 keeps 7 words where 4 hold the rest |
| `TritTests.Lower` | unit_tests/trit_unit_tests.cpp:25 | each upper-case letter becomes its lower-case letter, and every other character is unchanged |
| `TritTests.ParseChar` | unit_tests/trit_unit_tests.cpp:29-41 | F, U and T in either case name False, Unknown and True; every other character names nothing |
| `TritTests.Parse` | unit_tests/trit_unit_tests.cpp:27-43 | the parse succeeds exactly when every character is F, U or T in either case; then trit `i` is the one whose letter is character `i` |
| `TritTests.ParseEmpty` | unit_tests/trit_unit_tests.cpp:21-22 | the empty text names the empty sequence |
| `TritTests.ParseRejects` | unit_tests/trit_unit_tests.cpp:39-40 | one character other than F, U, T makes the whole parse fail |
| `TritTests.ParseAt` | unit_tests/trit_unit_tests.cpp:27-43 | character `i` gives trit `i` |
| `TritTests.ParseRender` | unit_tests/trit_unit_tests.cpp:28-43 | the rendered text of a trit sequence parses back to it |
| `TritTests.RenderParse` | unit_tests/trit_unit_tests.cpp:28-43 | rendering a parse gives the text back up to letter case |
| `TritTests.ParseIgnoresCase` | unit_tests/trit_unit_tests.cpp:25 | lower-casing the text does not change the parse |
| `TritTests.FromString` | unit_tests/trit_unit_tests.cpp:20-46 | the container holds the parsed trits, or is empty with no words when the text is empty or has a bad character |
| `TritTests.ParseAsWrittenRejectsAll` | unit_tests/trit_unit_tests.cpp:25-37 | as written, every non-empty text fails to parse |
| `TritTests.ParseAsWrittenRejectsFut` | unit_tests/trit_unit_tests.cpp:25-37 | as written "FUT" fails to parse, while the intended parse gives False, Unknown, True |
| `TritTests.FromTrits` | unit_tests/trit_unit_tests.cpp:20-46 | the container built from a sequence's text holds that sequence |
| `TritTests.NotScenario` | unit_tests/trit_unit_tests.cpp:214-220 | NOT of FUTUTF equals TUFUFT |
| `TritTests.AndScenario` | unit_tests/trit_unit_tests.cpp:371-373 | FUT AND TFU equals FF |
| `TritTests.AndShorterScenario` | unit_tests/trit_unit_tests.cpp:383-385 | TFU AND TU equals TF |
| `TritTests.OrScenario` | unit_tests/trit_unit_tests.cpp:292-294 | FUT OR TU equals TUT |
| `TritTests.AndCommutes` | TritSet.cpp:116-134 | `a & b` equals `b & a` for all valid containers |
| `TritTests.OrCommutes` | TritSet.cpp:136-154 | `a OR b` equals `b OR a` for all valid containers |
| `TritTests.NotInvolutive` | TritSet.cpp:108-114 | negating a container twice gives a container equal to it |
| `TritTests.AndWithUnknown` | TritSet.cpp:116-134 | AND with an all-Unknown container of the same length keeps each False and makes every other position Unknown |
| `TritTests.OrWithUnknown` | TritSet.cpp:136-154 | OR with an all-Unknown container of the same length keeps each True and makes every other position Unknown |
| `TritTests.EqualsReflexive` | TritSet.cpp:89-98 | every container equals itself |
| `TritTests.EqualsScenario` | unit_tests/trit_unit_tests.cpp:390-404 | ten True, ten False and ten Unknown each equal themselves and differ from each other |
| `TritTests.EqualsTextScenario` | unit_tests/trit_unit_tests.cpp:391-400 | the sets built from FUT and TF each equal themselves, and FUT differs from UTF |
| `TritTests.DefaultValueScenario` | unit_tests/trit_unit_tests.cpp:90-97 | a thousand True trits have size 1000 and all read True |
| `TritTests.TrimScenario` | unit_tests/trit_unit_tests.cpp:99-115 | trimming a hundred True trits at 50 gives size 50, the first 50 True, the rest Unknown, four words |
| `TritTests.SetThenShrink` | unit_tests/trit_unit_tests.cpp:126-140 | from an all-Unknown container, setting 100 and 50 and then 100 back to Unknown gives sizes 101, 101, 51, and shrinking keeps four words |
| `TritTests.ShrinkScenario` | unit_tests/trit_unit_tests.cpp:117-140 | shrinking an all-Unknown container frees every word; sizes after the sets are 101, 101, 51; the final shrink keeps four words |
| `TritTests.SetUnknownScenario` | unit_tests/trit_unit_tests.cpp:150-163 | setting Unknown in an empty container allocates nothing; True at 0 and 10 gives sizes 1 and 11 |
| `TritTests.SetTritIdempotent` | TritSet.cpp:81-87 | setting the same trit twice leaves the container as setting it once |

## Left out

- `ModifiableTrit` and `operator[]` (TritSet.cpp:104-106, TritSet.h:107) are C++ proxy and `const_cast` machinery, and their declaration and definition disagree. An indexed read is `GetTrit`.
- `operator<<` writes to a `std::ostream`. The model returns the string it would write (`ToString`).
- The tests' `getCapacity` (unit_tests/trit_unit_tests.cpp:53-55) computes the allocation rule's word count, so it is `Packing.WordsFor` and not a member of its own.
- The floating-point `ceil` at TritSet.cpp:73 and unit_tests/trit_unit_tests.cpp:54 divides by the double `8.` and rounds up; it is `WordsFor`. At TritSet.cpp:173 the argument is already an integer quotient, so the `ceil` changes nothing and the word index is `pos / 16`, `WordIndex`.
- The counters `falseTritCount`, `unknownTritCount` and `trueTritCount` (TritSet.h:134-137) are never used by the code.
- The delegating constructors (TritSet.h:37-46) build a temporary and discard it. The object's own `storage` is then the default-constructed empty vector, and only `lastTritPos` and the three counters are indeterminate. So as written, `TritSet(n)` and `TritSet()` allocate no words.
- `TritSets.TritSet.Empty`: has no words, as the code gives, and takes 0 for the indeterminate `lastTritPos`, which has no Dafny counterpart.
- `TritSets.TritSet.WithCount`: allocates the `WordsFor(n)` words of Unknown that the documented rule gives (TritSet.h:28-30), not the empty vector the code leaves.
- `TritTests.ShrinkScenario`: states the capacity at the start, after the first shrink and at the end, not after each intermediate `setTrit`, whose numbers in the test do not match the capacity rule.
- `TritTests.NotScenario`: the test (unit_tests/trit_unit_tests.cpp:214-220) compares "FUTUTF" with "TUFUFT" directly, with no `~`. The scenario applies the negation that the test's name and data call for.
- The header calls `capacity()` a byte count, while the code returns a trit count one word too large. `Capacity` is the trit count of the allocated words, `16 * |storage|`; the source's constant is under "Findings".
- The gtest helper `assertSizeAndCapacity` (unit_tests/trit_unit_tests.cpp:63-66) swaps its two arguments. Several expected numbers contradict the size definition, e.g. size 100 after setting position 100 (lines 126-140, 159-163). The scenarios state the numbers the size definition gives.
- `size_t` is `nat`. Unsigned wrap-around appears only in the as-written members, where it is the defect.
- The methods that return `TritSet&` for chaining return nothing. The tests' chained calls are written as consecutive calls.
- `std::transform`/`tolower` is ASCII lower-casing, with no locale.
- Allocation failure of `push_back` is not modelled.
- `TritSets.TritSet.GetTrit` is a method rather than a function, so that the bit-level read stays out of its callers' proofs. The ghost `ValueAt` is the value it returns.
- `TritSets.TritSet.Trim` recounts `lastTritPos` before shrinking, where the source shrinks first (see "Findings").
- `TritSets.TritSet.Combine` is the one loop behind `&` and `|`, which the source writes twice. It is stated for any commutative operator that maps two Unknowns to Unknown, which AND and OR both are.
- For field 15 the shifts `11 << 30` in `_setTrit` (TritSet.cpp:187) and `TRUE_BIT_MASK << 30` in `getTrit` (TritSet.cpp:47) overflow a signed `int`. `SetFieldAsWritten` takes the 32-bit truncation, and `Decode`/`Field` read bit 31 as the 32-bit result would.

## Findings

| source | as written | input that shows it | evidently intended | confidence | as-written member | corrected member |
|---|---|---|---|---|---|---|
| TritSet.cpp:187 | the bits are cleared with `~(11 << (pos * 2))`; decimal 11 is 0b1011 | word 8 (field 1 True), write False at field 0: field 1 then reads Unknown | clear with 0b11 | not executed | `Packing.SetFieldAsWritten`, `Packing.SetFieldAsWrittenClearsNextTrue` | `Packing.SetField`, `Packing.DecodeSetField` |
| TritSet.cpp:39 | `uintPos > storage.size()` | one word, position 16: word 1 is read | `uintPos >= storage.size()` | not executed | `Packing.ReadsWordAsWritten`, `Packing.ReadsWordAsWrittenPastEnd` | `Packing.ReadTrit` |
| TritSet.cpp:29 | `(storage.size() + 1) * 32 / 2` | one word: capacity 32 | 16 trits per allocated word | not executed | `Packing.CapacityAsWritten`, `Packing.CapacityAsWrittenOneWordTooMany` | `Packing.CapacityIsAllocated` |
| TritSet.cpp:61-64 | `removeCount = lastTritPos - from` in `size_t` | `lastTritPos` 5 holding False, `from` 0: position 5 stays False; `lastTritPos` 0, `from` 1: 2^64 - 1 clears | clear up to the size, none past it | not executed | `TritSets.TrimRemoveCountAsWritten`, `TritSets.TrimAsWrittenMissesLast`, `TritSets.TrimAsWrittenUnderflows` | `TritSets.TrimRemoveCount`, `TritSets.TritSet.Trim` |
| TritSet.cpp:66-67 | `shrink()` runs before `countLastTritPos()` | 100 True trits trimmed at 50: 7 words kept | recount, then shrink | not executed | `TritSets.TrimKeepAsWritten`, `TritSets.TrimAsWrittenKeepsSurplus` | `TritSets.TritSet.Trim` |
| TritSet.cpp:73 | keeps `ceil(lastTritPos * 2 / 8. / sizeof(uint))` words | `lastTritPos` 16: word 1 dropped; only position 0 set: word 0 dropped | keep `ceil(size() / 16)` words | not executed | `TritSets.ShrinkKeepAsWritten`, `TritSets.ShrinkAsWrittenDropsLastWord` | `TritSets.TritSet.Shrink` |
| TritSet.cpp:206-212 | `lastTritPos` is not reset before the scan | set the only non-Unknown trit, at 5, to Unknown: `lastTritPos` stays 5, size 6 | reset to 0 first | not executed | `TritSets.CountLastAsWritten`, `TritSets.CountLastAsWrittenKeepsStale` | `TritSets.TritSet.CountLastTritPos` |
| TritSet.cpp:24-25 | `lastTritPos = tritsCount - 1` in `size_t` | count 0, value True: `lastTritPos` is 2^64 - 1 | only when the count is positive | not executed | `TritSets.ConstructorLastTritPosAsWritten`, `TritSets.ConstructorAsWrittenWrapsOnZero` | `TritSets.TritSet.Fill` |
| unit_tests/trit_unit_tests.cpp:25-37 | the text is lower-cased, then compared with `'F'`, `'U'`, `'T'` | "FUT": the empty container | compare after lower-casing with matching letters | not executed | `TritTests.ParseAsWritten`, `TritTests.ParseAsWrittenRejectsAll` | `TritTests.ParseChar`, `TritTests.FromString` |
