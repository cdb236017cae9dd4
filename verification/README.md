# lisp-compiler: a verified model

The data structures, the numbers, the reader and one compiler analysis of lisp-compiler, and the block
allocator and finalization of the collector it bundles (gc 7.2), modelled in Dafny with their proofs.
`dafny verify dfyconfig.toml` checks everything.

## What is modelled

- **Hash array mapped trie** (`Bits`, `HamtNodes`, `Hamt`, `HamtLaws`, `HamtMap`, `HamtSeq`, `HamtShape`). The
  persistent map of src/Map.c on values, with its array loops as methods. Keys are abstract: a key has a hash, a
  class of equivalent keys that hash alike, and an identity within the class. Every run of operations agrees with
  a finite map.
- **Transient trie** (`HamtEdits`, `TransientTrie`, `TransientMap`). The nodes of src/Map.cpp as heap objects that
  are edited in place under an owner token. A token is an object made for one transient, so no older node carries
  it; this is what keeps earlier maps safe.
- **Persistent vector** (`VectorTrie`, `PersistentVector`, `TransientVector`). Tail, root overflow, pop and the
  transient that builds a vector, against a plain sequence.
- **Numbers** (`Digits`, `BigIntDivision`, `BigIntArithmetic`, `Divisibility`, `BigInts`, `BigPowers`,
  `DecimalDigits`, `BigDecimals`, `Rounding`, `RoundingForms`, `LongOps`, `Ratios`, `RatioValues`). Base-256 digit
  strings and what the operations on them compute over the integers; decimals in two forms; ratios; 64-bit longs with
  wrap-around.
- **Heap blocks** (`HeaderIndex`, `BlackLists`, `FreeLists`, `Tiling`, `HeapBlocks`). Headers, forwarding counts,
  segregated free lists, splitting and coalescing. Addresses are page numbers; a page is a heap block of 4096 bytes.
- **Finalization** (`Marking`, `HashChains`, `DisappearingLinks`, `Finalization`). Hash tables of chained heap
  objects, marking through the four mark procedures, and the passes of a collection's end.
- **Back graph** (`BackEdges`, `BackHeights`). Predecessors in chained structures of ten, and heights by depth-first
  search.
- **Root sections** (`RootSections`). The memory map without the collector's own sections.
- **Locals clearing** (`PathNodes`, `LocalUses`, `LocalsClearing`). Which uses of a local clear it, judged by what
  happens in the runs of the method.
- **Reader and printer** (`Forms`, `Reader`, `ReaderStream`, `RoundTrip`) and **Murmur3** (`Murmur3`,
  `Murmur3Values`).

## Lines read as intended

The C and C++ of lisp-compiler are a translation in progress. These lines are read as what they evidently mean; all
others are modelled as they stand, and what then goes wrong is under "Findings".

- src/Map.c: 426 returns the rebuilt node, not the child; 431-432, 437-438 and 619-620 copy elements, not as many
  bytes; 594-596 returns the updated copy; 605 makes a bit position of the hash; 644 uses the whole length; 829
  conses the entry of the null key; 902 counts a key when it is added; 917 counts down only when something was
  removed.
- src/Map.cpp: 817 compares hashes of one kind; 940 stores the edited child; 955
  counts down to the insertion point, also at index 0; 1035 is not inverted; 1163-1167 returns; 1316 takes a token
  of its own for every transient, not the hash of the thread; 1357 hashes as on insertion, by `hashEq`.
- src/Vector.c: 288, 417-419, 422, 475-480, 506-508, 547-548 and 554 use the lengths of the arrays they copy, the
  last index `count - 1`, the test for a child that is there, and collapse the root only when one child is left.
- src/Numbers.cpp: 78 holds of equal magnitudes, where `cmp` is zero; 186-200 and 230 assign and group as indented;
  187, 193, 198, 215 and 263 make a number of so many digits, at 263 of as many as the loop of `>>` fills; 503
  subtracts all m + 1 digits; 526 runs over the digits that count; 549-553 compares lengths, then digits from the
  top; 749 converts by `operator long`, which is not const as the member around it is; 1269-1275 have their
  `break`s; 1343 shifts without sign.
- src/Compiler.c: 1090-1094 applies to locals with an index above zero only, as in src/Compiler.cpp:1019-1033;
  1695-1711 analyses each arm once, under a path node of its own.

## Findings

Properties the code fails, each with the inputs and the exact condition under which it holds.

- **`BigInt::pow`** (src/Numbers.cpp:324-340) is no power for any base of two or more and exponent of one or more:
  its comparison also holds of equal numbers, its shift carries nothing between bytes, and line 339 forgets the
  product. `BigPowers.PowExact` has the condition, with and without line 339 repaired; `BigPowers.NineteenTens` an
  input. `BigPowers.Power` proves the loop with the three repaired.
- **`BigInt::operator>>`** (260-275) divides by a power of two only where no bit crosses a byte, or nothing
  would be left:
  `BigPowers.ShiftExact`.
- **`BigDecimal::operator+`** (879-913) is wrong where an operand is raised beyond the longs, because it raises by
  `pow`: `BigDecimals.PlusExact`, `BigDecimals.PlusWrong` (1 at scale 0 plus 1 at scale 19).
- **`BigInt::operator/` and `%`** (238-258) group `sign ^ y.sign != 0` as `sign ^ (y.sign != 0)`; line 520, grouped
  alike, makes every quotient positive; and the carry of line 242 starts behind the last digit. So quotients lose
  their sign, and `/` fails an assertion for negative dividends that do not divide. So does `%`, unless the divisor
  does not fit into the array of the dividend: then its low digits alone are subtracted. `BigInts.QuotientCorrect`,
  `BigInts.RemainderCorrect`, `BigInts.QuotientLosesSign`, `BigInts.WiderDivisor` (-5 % 2^64 is 5).
- **`BigInt::operator<`** (277-279) holds of equal numbers: `BigInts.Less`.
- **`BigInt::gcd`** (305-314) rests on `%`: `BigInts.GcdDefined` says when it returns, with what and with which sign,
  `BigInts.GcdCorrect` when that is the greatest common divisor; `BigInts.GcdWrong` is an input (-6 and 2^64 + 2).
- **`::divide` of big integers** (1704-1717) loses the sign, fails, or does not come to lowest terms:
  `Ratios.DivideDefined`, `Ratios.DivideCorrect`, `Ratios.DivideCanonical`, `Ratios.DivideLosesSign`.
- **Ratio operations** (2193-2209) can therefore return fractions that are not reduced: `Ratios.OperationsCanonical`,
  `Ratios.MultiplyUnreduced` (-2/99 times 3/662). Their signs are lost: `RatioValues.AddExact`,
  `RatioValues.MultiplyExact` and `RatioValues.QuotientExact` say when a result is the number meant.
- **`LongOps::divide`** (1829-1844) lets a zero divisor pass: `Ratios.LongDivideCanonical` (5 / 0 becomes 1/0).
- **`divideAndRound`** (1232-1309) on big integers compares `(mr - mdivisor) >> 1` where the double of the remainder
  is meant, and hands the sign of the quotient to `toBigDecimal`, which ignores it and converts by a loop that starts
  from the sign (146-155, 745-750): `RoundingForms.BigExact`, `BigHalfWrong`, `BigSignLost`, `ConversionWrong` (the
  quotient of 10^19 - 1 by 10^19 is 65537). On longs its guard is one too wide: `RoundingForms.CompactExact`.
- **`BigInt::divide(long)`** (348-368) never divides what its last digit leaves: `RoundingForms.LongExact`; and it may
  overflow for divisors above 2^55: `RoundingForms.DivideByLong`, `RoundingForms.SmallDivisor`.
- **`BigDecimal::setScale`** (1064-1082) raises by `pow`, as `+` does: `RoundingForms.SetScale`,
  `RoundingForms.ScaleWrong` (1 at scale 0 brought to scale 19).
- **`CreateVector`** (src/Vector.c:357-395) loses entries behind a nil among the first 32 if there are more than 32:
  `TransientVector.CreateExact`, `TransientVector.CreateLosesEntries`.
- **Printed names do not all read back** (src/Reader.c:206-277): behind a sign that no digit follows `read`
  drops a character (115-121), so symbols that start with `+` or `-` come back as others or as numbers.
  `RoundTrip.SymbolReadsBack` and `RoundTrip.KeywordReadsBack` have the exact conditions.

## Model

| member | source | states |
|---|---|---|
| HamtNodes.IndexIsRank | src/Map.c:23-33 | the bit test and `popcount(mask & (bit - 1))` find the slot of a hash digit: the number of set bits below it |
| HamtNodes.Pre35 | src/Map.c:319-333 | after seven digits of five bits nothing of a 32-bit hash is left, so unequal hashes differ at a shift of at most 30 and every descent ends |
| Hamt.CreateNode | src/Map.c:319-333 | two inequivalent keys whose hashes agree so far get a well-formed subtrie: a collision node or bitmap nodes down to where they differ |
| Hamt.FindIndex | src/Map.c:647-655 | the index of an equivalent key, and -1 only if there is none |
| Hamt.PackBits | src/Map.c:505-525 | packing keeps exactly the occupied cells other than the removed one, each in the slot of its own bit |
| HamtLaws.FindAssoc | src/Map.c:319-607 | after an association equivalent keys find the new value, under the key stored first, every other key finds what it found before, and the added flag is set exactly when the key is new; on bitmap, array and collision nodes |
| HamtLaws.FindWithout | src/Map.c:410-622 | after a removal the key is gone, every other key finds what it found before, and the node comes back unchanged exactly when there was nothing to remove; on all three node kinds |
| HamtLaws.FindAssocCollision | src/Map.c:585-607 | association on a collision node, including the bitmap node put above it when the hashes differ |
| HamtLaws.FindWithoutArray | src/Map.c:527-550 | removal on an array node, whether a cell is replaced, cleared, or the node is packed |
| HamtMap.AssocNode | src/Map.c:346-607 | association with the loops as they run (cell growth, index search) is the function the laws are about |
| HamtMap.WithoutKey | src/Map.c:905-918 | `withoutHashMap` with its loops (packing, index search) is the function the laws are about |
| HamtMap.PackLoop | src/Map.c:505-525 | the two loops of `pack` on an array of cells build the packed bitmap and slots |
| HamtMap.GrowLoop | src/Map.c:385-396 | the growth loop turns a bitmap node of sixteen children into the array node with the new key |
| HamtMap.RunRepresents | src/Map.c:888-918 | after any run of associations and removals, the null key included, the map agrees with the finite map of the same run: every lookup, the count, and well-formed bitmaps, child counts and hash prefixes |
| HamtMap.CreateHashMap | src/Map.c:786-793 | a map built from pairs through a transient is the finite map of the pairs, later ones overriding earlier ones |
| HamtMap.TransientHashMap.Assoc | src/Map.c:765-784 | the transient map changes its fields to what the persistent association gives |
| HamtMap.TransientHashMap.AsPersistent | src/Map.c:759-763 | the persistent map has the contents of the transient, which can be edited no longer |
| HamtMap.MapEntriesExact | src/Map.c:823-830 | the sequence of a map lists every entry of the finite map exactly once and nothing else, and is as long as the count |
| HamtMap.EquivHashMap | src/Map.c:836-853 | the comparison by counts and lookups decides whether two maps are the same finite map |
| HamtSeq.EntriesListed | src/Map.c:640-755 | the entries listed for a well-formed node are those a lookup finds, no key twice, across nested nodes of all kinds |
| HamtSeq.EntriesComplete | src/Map.c:640-755 | nothing a lookup finds is missing from the list |
| HamtSeq.NodeSeqStarts | src/Map.c:673-741 | a fresh sequence has all entries of the node ahead of it and is null exactly when there are none, so empty subtries are passed over |
| HamtSeq.SeqStep | src/Map.c:690-755 | `first` is the head of what remains, `next` moves past exactly it, and is null exactly at the last entry: stepping ends |
| HamtShape.AssocNarrow | src/Map.c:371-400 | association keeps bitmap nodes at sixteen children or fewer and array nodes between eight and thirty-two |
| HamtShape.WithoutNarrow | src/Map.c:505-550 | removal keeps the same bounds: it packs an array node of eight before it would have seven |
| HamtShape.RunNarrow | src/Map.c:888-918 | any run of operations on the map keeps every node within the bounds of its kind |
| TransientTrie.EnsureEditable | src/Map.cpp:998-1006 | the node itself if this transient owns it, otherwise a fresh copy with the same cells |
| TransientTrie.Assoc | src/Map.cpp:929-992 | in-place association: only nodes of this transient change; every lookup in the result has the key associated and nothing else changed; every other node of the result was there before or is new |
| TransientTrie.AssocCollision | src/Map.cpp:1092-1118 | in-place association on a collision node, in a spare cell or a copy one cell wider: the law of association, and only owned nodes change |
| TransientTrie.SpreadOut | src/Map.cpp:962-985 | a bitmap node with sixteen children becomes an array node that obeys the law of association |
| TransientTrie.Without | src/Map.cpp:1008-1055 | in-place removal: only nodes of this transient change; the key is gone and nothing else; null exactly where nothing is left |
| TransientTrie.EditAndRemovePair | src/Map.cpp:1057-1069 | the pair is taken out in place or in a copy, and the node goes with its last pair |
| TransientTrie.WithoutCollision | src/Map.cpp:1120-1143 | in-place removal on a collision node, where the last entry takes the place of the removed one: the law of removal, and only owned nodes change |
| TransientTrie.PackNode | src/Map.cpp:1249-1270 | the children but one, in cell order, under the bitmap of their cells |
| TransientMap.TransientMap.Assoc | src/Map.cpp:1365-1383 | on a live transient the finite map gets the association and only owned nodes change; on a closed one nothing happens and false says so |
| TransientMap.TransientMap.Without | src/Map.cpp:1345-1363 | on a live transient the finite map loses the key and only owned nodes change; on a closed one nothing happens |
| TransientMap.TransientMap.AsPersistent | src/Map.cpp:1339-1343 | the persistent map takes over the root and the transient is closed for good |
| TransientMap.TransientRun | src/Map.cpp:1315-1383 | a whole run, opened on a map, changed in place and closed, gives the finite map that the same run of persistent operations gives; the source map keeps its contents |
| TransientMap.History | src/Map.cpp:1315-1383 | over any history of transients, each opened on any map made so far, all maps, the first and every result, hold at the end what they held when they were made |
| VectorTrie.ShareOnPath | src/Vector.c:528-559 | in a left-packed trie the path of an index leaves full children to its left and empty ones to its right, and one more leaf goes to the child on its path |
| VectorTrie.PushTailLeaf | src/Vector.c:546-559 | pushing the full tail appends one leaf and moves no other |
| VectorTrie.PopTailLeaf | src/Vector.c:437-454 | dropping the last leaf leaves every earlier one where it was |
| VectorTrie.DoAssocLeaf | src/Vector.c:485-496 | replacing an element changes its place in its own leaf and no other leaf |
| VectorTrie.Determined | src/Vector.c:528-559 | a left-packed trie is determined by the elements it holds |
| PersistentVector.LeafPosIsQuotient | src/Vector.c:528-538 | the walk by bits of the index arrives at leaf number i / 32 |
| PersistentVector.ArrayFor | src/Vector.c:528-538 | the loop down the levels arrives at the array that holds element i, in the tail or the trie |
| PersistentVector.ConjElems | src/Vector.c:412-435 | conj appends, whether the tail has room, the trie has room, or the root overflows |
| PersistentVector.AssocNElems | src/Vector.c:498-516 | assocN replaces element n, appends at n = count and reports an index beyond it |
| PersistentVector.PopElems | src/Vector.c:456-483 | pop drops the last element, also where the tail runs out and the root gives way, and reports an empty vector |
| PersistentVector.RunElems | src/Vector.c:412-516 | any run of conj, assocN and pop does to the vector what it does to the sequence: the same elements, or the same error at the same operation |
| PersistentVector.Determined | src/Vector.c:412-516 | two valid vectors with the same elements are equal: count, shift, trie and tail |
| PersistentVector.BuiltByConj | src/Vector.c:412-516 | so a vector made by whatever operations is the one that conj builds from the empty vector |
| TransientVector.PushTailTV | src/Vector.c:311-327 | the in-place push computes the persistent one; nodes of other owners are left alone |
| TransientVector.TransientVector.Conj | src/Vector.c:278-303 | the in-place conj computes the persistent one and changes only nodes of the root owner |
| TransientVector.TransientVector.AsPersistent | src/Vector.c:336-341 | the vector keeps its elements and the root can be edited no longer |
| TransientVector.CreateVector | src/Vector.c:357-376 | the vector made from an array has just the entries that `Created` says and is the one that conj builds from them: the entries themselves up to 32, and beyond, through a transient, those of the first 32 that stand before a nil, and all later ones |
| TransientVector.CreateExact | src/Vector.c:357-395 | these are the entries of the array if and only if there are at most 32 or, among the first 32, no nil comes before something else |
| TransientVector.CreateLosesEntries | src/Vector.c:357-395 | of a nil followed by 32 other entries all of those but the last are lost |
| TransientVector.AsTransient | src/Vector.c:378-395 | the loop over the tail copies it up to the first null pointer; the transient has a root of its own and the same count |
| Digits.TrialDigitClose | src/Numbers.cpp:485-489 | the quotient of the leading three digits by the leading two is the true quotient digit or one more, if the leading two digits are a proper two-digit number |
| BigIntDivision.Quotient | src/Numbers.cpp:523-531 | short division by one digit: quotient and carry are those of the value |
| BigIntDivision.DivStep | src/Numbers.cpp:473-521 | one step of long division: one correction of the trial digit suffices, the final borrow is zero, and the window is left smaller than the divisor |
| BigIntDivision.DivDigits | src/Numbers.cpp:456-521 | for all digit strings x and y: x = q * y + r with r < y, and a zero divisor is reported |
| BigIntArithmetic.RowFits | src/Numbers.cpp:214-232 | no row of the schoolbook product overflows its window, so no carry is dropped |
| BigIntArithmetic.TrimmedUnique | src/Numbers.cpp:533-542 | a number has one normalized digit string |
| BigIntArithmetic.Compare | src/Numbers.cpp:548-556 | comparing lengths and then digits from the top orders the values |
| BigIntArithmetic.Add | src/Numbers.cpp:388-417 | the normalized sum of the magnitudes |
| BigIntArithmetic.Sub | src/Numbers.cpp:419-444 | the normalized difference of the magnitudes |
| BigInts.Unique | src/Numbers.cpp:548-556 | equal integers have equal signs and digits, zero being positive |
| BigInts.FromLong | src/Numbers.cpp:135-144 | every long, the smallest one included, becomes the big integer of the same value |
| BigInts.Plus | src/Numbers.cpp:185-202 | the sum for all signs |
| BigInts.Minus | src/Numbers.cpp:204-212 | the difference for all signs |
| BigInts.Multiply | src/Numbers.cpp:214-232 | the product for all signs |
| BigInts.Over | src/Numbers.cpp:238-247 | `/` as it stands is `QuotientOf` of the integers, the failed assertion and the zero divisor included |
| BigInts.QuotientCorrect | src/Numbers.cpp:238-247 | `/` is the quotient rounded down if and only if both operands are not negative, or the dividend is zero, or both are negative and the division is exact |
| BigInts.Modulo | src/Numbers.cpp:249-258 | `%` as it stands, on arrays of given sizes, is `RemainderOf`: for a negative dividend that does not divide, the digits of the divisor that fit into the array of the remainder are taken from it, or the assertion fails, or digits past the end of the divisor are read |
| BigInts.RemainderCorrect | src/Numbers.cpp:249-258 | `%` is the remainder that goes with the quotient rounded down if and only if neither operand is negative, or the division is exact, or the divisor does not fit into the array of a negative dividend and twice the dividend is the divisor and its digits that do fit |
| BigInts.WiderDivisor | src/Numbers.cpp:249-258 | -5 % 2^64 comes out as 5, which is wrong, and the smallest long % 2^64 as 2^63, which is right |
| BigInts.QuotientLosesSign | src/Numbers.cpp:238-258 | inputs on which `/` and `%` are wrong or fail an assertion |
| BigInts.FlooredParts | src/Numbers.cpp:238-258 | the two references belong together: the quotient rounded down and the remainder between zero and the divisor, unique as such |
| BigInts.Less | src/Numbers.cpp:277-279 | `<` holds of x and y exactly when x <= y, because zero counts as positive |
| BigInts.Gcd | src/Numbers.cpp:305-314 | the Euclidean loop as it runs, with the sizes of the arrays it passes on, computes `GcdOf` |
| BigInts.GcdOfNats | src/Numbers.cpp:305-314 | on natural numbers `gcd` is the greatest common divisor |
| BigInts.GcdDefined | src/Numbers.cpp:305-314 | exactly when `gcd` returns, what the magnitude of its result is, and when the result is negative; it also returns for a negative number and a divisor too wide for its array, of which the digits that fit can be taken away |
| BigInts.GcdCorrect | src/Numbers.cpp:305-314 | what `gcd` returns is the greatest common divisor, but for the sign, if and only if the divisor fits or both what is found and the greatest common divisor divide the digits taken away |
| BigInts.GcdWrong | src/Numbers.cpp:305-314 | gcd(-6, 2^64 + 2) comes out as 2 where it should be 6 |
| Divisibility.NatGcdGreatest | src/Numbers.cpp:305-314 | the divisors of the greatest common divisor are exactly the common divisors |
| BigPowers.ShiftRight | src/Numbers.cpp:260-275 | `>>` as it stands: whole bytes are dropped and every byte left is shifted on its own; for a shift above the number of bytes 0 or -1 |
| BigPowers.ShiftExact | src/Numbers.cpp:260-275 | `>>` is division by a power of two rounded down if and only if no bit crosses from one byte to the next and a negative number loses nothing, or, where the shift exceeds the number of bytes, the number is below the power |
| BigPowers.Power | src/Numbers.cpp:324-340 | with lines 277-279, 266-267 and 339 repaired `pow` is the power, by u * z^e = x^n over the loop; a negative exponent gives the base back |
| BigPowers.PowCode | src/Numbers.cpp:324-340 | `pow` as it stands, or with line 339 alone repaired, is `PowOf` of the integers |
| BigPowers.LoopPowers | src/Numbers.cpp:334-339 | what the loop reaches: the base to two to the power of the number of rounds, and beside it the base to the lowest byte of the exponent |
| BigPowers.PowExact | src/Numbers.cpp:324-340 | `pow` returns the power if and only if the base is zero and the exponent is not, or the base is 1 or -1, or the exponent is zero; with line 339 repaired also for exponents from 384 to 511 |
| BigPowers.NineteenTens | src/Numbers.cpp:324-340 | ten to the power 19 comes out as ten to the power 32, or 51 with line 339 repaired |
| DecimalDigits.LongDigitLength | src/Numbers.cpp:1326-1346 | the estimate from the bit length gives the number of decimal digits of every long but the smallest |
| BigDecimals.FromBigInt | src/Numbers.cpp:637-639 | a big integer becomes a valid decimal of the same value in one of the two forms |
| BigDecimals.ValueOf | src/Numbers.cpp:801-813 | every long, the one that equals the sentinel included, becomes a valid decimal of the same value |
| BigDecimals.LongMultiplyPowerTen | src/Numbers.cpp:1215-1226 | the product where it is a long other than the sentinel; the sentinel exactly when the magnitude of the product exceeds the largest long |
| BigDecimals.ThresholdTest | src/Numbers.cpp:1215-1226 | comparing with the threshold table decides whether the product stays within the largest long; beyond the table only zero does |
| BigDecimals.BigMultiplyPowerTen | src/Numbers.cpp:1103-1109 | the unscaled value times what `pow` makes of the power of ten, in both forms |
| BigDecimals.RaiseExact | src/Numbers.cpp:1103-1109 | raising an operand keeps its number if and only if nothing is to be raised, it is zero, it stays within the longs, or `pow` gives the power |
| BigDecimals.Plus | src/Numbers.cpp:879-913 | the sum of the raised operands at the larger scale, for all forms and scales; an error exactly when the scales are further apart than an int; the true sum with `pow` repaired |
| BigDecimals.PlusExact | src/Numbers.cpp:879-913 | `+` is the sum if and only if the operand of the smaller scale needs no raising, is zero, or is raised within the longs, or `pow` gives the power |
| BigDecimals.PlusWrong | src/Numbers.cpp:879-913 | 1 at scale 0 plus 1 at scale 19 is wrong |
| BigDecimals.GetPrecision | src/Numbers.cpp:1043-1052 | the precision of a compact decimal is its number of digits |
| BigDecimals.Multiply | src/Numbers.cpp:927-958 | the product for all operands of both forms; an error exactly when the sum of the scales is no int; compact operands give a compact product exactly when it fits |
| BigDecimals.PrecisionTest | src/Numbers.cpp:927-958 | fewer than 19 digits in all cannot overflow, more than 20 must |
| Rounding.DivideAndRoundCorrect | src/Numbers.cpp:1232-1309 | the rounded quotient is the one its mode asks for, by distance and direction, and there is none exactly in the mode that forbids rounding a division that is not exact |
| Rounding.CutDigits | src/Numbers.cpp:1365-1376 | dropping digits leaves the digits asked for, or a power of ten with one more (999 to 1000) |
| Rounding.SecondRound | src/Numbers.cpp:1365-1376 | the second round divides a power of ten by ten and does not round again |
| Rounding.DoRound | src/Numbers.cpp:1365-1376 | the loop ends after at most two rounds, for all values and modes: nothing comes out exactly if rounding is asked for and forbidden, and otherwise the value rounded to the digits asked for, with the scale adjusted by the digits dropped |
| Rounding.CutRounds | src/Numbers.cpp:1365-1376 | the value cut down has at most the digits asked for and denotes the value rounded to a multiple of the power of ten |
| RoundingForms.DoRoundCompact | src/Numbers.cpp:1365-1376 | on compact numbers, with the division, the precision and the scale check as the code has them, `doRound` ends after at most two rounds with the value rounded to the precision, and its errors are exact |
| RoundingForms.RoundedIs | src/Numbers.cpp:1263-1297 | the rounded quotient is the magnitude of the quotient with or without the step that the half test decides, and the sign |
| RoundingForms.CompactExact | src/Numbers.cpp:1242-1300 | the form on two longs rounds as meant if and only if the dividend is not 2^62 - 1 in a half mode with one of the two largest divisors |
| RoundingForms.CompactTens | src/Numbers.cpp:1242-1300 | dividing a long by a power of ten rounds as meant in every mode |
| RoundingForms.DivideBig | src/Numbers.cpp:1251-1304 | the form on two big integers, as it stands, is `BigForm` of the integers, conversion of the quotient included |
| RoundingForms.BigExact | src/Numbers.cpp:1251-1304 | the form on two big integers rounds as meant if and only if the half test comes out right, the quotient is not negative or is rounded to zero, and the quotient survives its conversion: at least 2^48 where one is added, zero or of a dividend of at least 2^56 where not |
| RoundingForms.ToLong | src/Numbers.cpp:146-155 | the conversion of a big integer to a long gives, wrapped around, its sign times 256 to the size of its array, plus its magnitude |
| RoundingForms.ConvertedExact | src/Numbers.cpp:745-750 | `toBigDecimal` keeps a number if and only if it is zero, or no long, or positive in an array of at least eight digits, or negative and half of what its array of fewer digits could hold |
| RoundingForms.ToBigDecimal | src/Numbers.cpp:745-750 | the decimal it makes is valid and has the converted value |
| RoundingForms.ConversionWrong | src/Numbers.cpp:1299-1304 | (10^19 - 1) / 10^19 rounded half up, and 9 * 10^19 / 10^20 rounded up, come out as 65537 in place of 1 |
| RoundingForms.BigHalfWrong | src/Numbers.cpp:1283-1283 | nine tenths of ten to the power 20, rounded half up, come out as 0 |
| RoundingForms.BigSignLost | src/Numbers.cpp:1299-1304 | an exact negative quotient comes out positive, and in an array of less than eight digits larger by the power of its size |
| RoundingForms.DivideByLong | src/Numbers.cpp:348-368 | what the two loops of division by a long leave in the quotient and the remainder, as they stand; exactly when a number gathered on the way is too large for a long; and that the quotient is untouched exactly for a dividend below 256 times the divisor |
| RoundingForms.SmallDivisor | src/Numbers.cpp:348-368 | for divisors up to 2^55 nothing that is gathered is too large |
| RoundingForms.LongExact | src/Numbers.cpp:348-368 | what the loops leave are the quotient and the remainder if and only if the dividend is smaller than the divisor |
| RoundingForms.SetScale | src/Numbers.cpp:1064-1082 | for a larger scale the unscaled value is raised as `RaisedBy` says (right exactly as `BigDecimals.RaiseExact` says, and then with its precision); for a smaller one a compact number is rounded as its mode asks; the errors are those of the scale and of forbidden rounding |
| RoundingForms.ScaleWrong | src/Numbers.cpp:1064-1082 | 1 at scale 0 brought to scale 19 becomes 10^32 at scale 19, or 10^51 with line 339 repaired |
| LongOps.MultiplyChecks | src/Numbers.cpp:1689-1696 | dividing the wrapped product by a factor gives the other back exactly when the product did not wrap |
| LongOps.AddP | src/Numbers.cpp:1806-1813 | the promoting sum is exact and a long whenever it fits |
| LongOps.MultiplyP | src/Numbers.cpp:1818-1827 | the promoting product is exact and a long whenever it fits |
| LongOps.NegateP | src/Numbers.cpp:1873-1878 | the promoting negation is exact and a long whenever it fits |
| Ratios.DivideBig | src/Numbers.cpp:1704-1717 | `divide` on big integers, with the sizes of their arrays, computes `Divide` |
| Ratios.DivideCanonical | src/Numbers.cpp:1704-1717 | what `divide` returns is the quotient of the magnitudes, and in lowest terms if and only if the divisor fits into the array of the dividend, or the dividend is not negative, or the greatest common divisor divides the digits that `%` takes away |
| Ratios.DivideDefined | src/Numbers.cpp:1704-1717 | exactly when `divide` returns a number, in terms of the operands and the array of the dividend; a zero divisor is reported |
| Ratios.DivideCorrect | src/Numbers.cpp:1704-1717 | what `divide` returns is n / d if and only if n is zero or the signs agree |
| Ratios.DivideLosesSign | src/Numbers.cpp:1704-1717 | -4 / 2 comes out as 2, -5 / 2^64 as 5 / 2^64, and 1/2 + -2/3 fails an assertion |
| Ratios.OperationsCanonical | src/Numbers.cpp:2193-2209 | sums, products and quotients, where they are defined, are canonical if and only if `divide` finds the greatest common divisor of the numbers handed to it, in arrays of the sizes the operators give them |
| RatioValues.AddExact | src/Numbers.cpp:2193-2197 | where adding ratios returns, the result is the magnitude of the sum, and the sum itself if and only if that is not negative |
| RatioValues.MultiplyExact | src/Numbers.cpp:2199-2203 | where multiplying ratios returns, the result is the magnitude of the product, and the product itself if and only if the signs agree or a factor is zero |
| RatioValues.QuotientExact | src/Numbers.cpp:2205-2209 | where dividing ratios returns, the divisor is not zero and the result is the magnitude of the quotient; it is the quotient itself if and only if the signs agree or the dividend is zero |
| RatioValues.StepsExact | src/Numbers.cpp:2249-2262 | as real numbers, incrementing adds one, decrementing takes one away and negating turns the sign; each is undone by its inverse |
| RatioValues.NegateCancels | src/Numbers.cpp:2193-2252 | a ratio plus its negation is the whole number zero |
| Ratios.MultiplyUnreduced | src/Numbers.cpp:2199-2203 | -2/99 times 3/662 comes out as 3/32769, which is not in lowest terms |
| Ratios.StepsCanonical | src/Numbers.cpp:2249-2262 | negating, incrementing and decrementing keep a ratio canonical |
| Ratios.EquivDecides | src/Numbers.cpp:2225-2229 | comparing components of canonical ratios decides equality of the numbers |
| Ratios.LongDivideCanonical | src/Numbers.cpp:1829-1844 | dividing longs gives the canonical form of the quotient if and only if the divisor is not zero or the dividend is; 5 / 0 comes out as the ratio 1/0 |
| Ratios.LongGcdSign | src/Numbers.cpp:1829-1844 | the divisor is never the negated gcd, so the missing test for -1 is not missed |
| FreeLists.FlMonotone | src/gc-7.2/allchblk.c:98-105 | list indices grow with sizes, and sizes below 32 pages have lists of their own |
| FreeLists.UnlinkedOk | src/gc-7.2/allchblk.c:293-329 | taking a block out of a doubly linked list leaves the list without it |
| FreeLists.LinkedOk | src/gc-7.2/allchblk.c:365-392 | putting a block in front leaves the list with it at its head |
| Tiling.MergedTiled | src/gc-7.2/allchblk.c:853-890 | two adjacent free blocks joined: the blocks still tile the heap, and neither free pages nor used blocks change |
| Tiling.SplitTiled | src/gc-7.2/allchblk.c:501-571 | a free block split in two: the blocks still tile the heap, and neither free pages nor used blocks change |
| Tiling.FreedTiled | src/gc-7.2/allchblk.c:835-852 | a used block freed: its pages join the free ones and no other block changes |
| Tiling.TakenTiled | src/gc-7.2/allchblk.c:790-826 | a free block taken: its pages leave the free ones, with forwarding counts inside it |
| HeaderIndex.FollowReachesHeader | src/gc-7.2/headers.c:274-288 | from any page of a used block the forwarding counts lead to its header, never below it |
| HeaderIndex.CountSkips | src/gc-7.2/headers.c:310-334 | a forwarding count jumps over no header |
| HeaderIndex.HeaderTable.GetIndex | src/gc-7.2/headers.c:207-253 | the bottom index of a page is linked in at its place in key order, and no other is lost |
| HeaderIndex.HeaderTable.InstallCounts | src/gc-7.2/headers.c:274-288 | the pages of a block behind its first get counts, capped at the largest jump; all else stays |
| HeaderIndex.HeaderTable.RemoveCounts | src/gc-7.2/headers.c:300-306 | the counts of a block go and all other entries stay |
| HeaderIndex.HeaderTable.PrevBlock | src/gc-7.2/headers.c:374-403 | the last block that starts at or before a page, or null if there is none |
| HeaderIndex.HeaderTable.ApplyToAllBlocks | src/gc-7.2/headers.c:310-334 | exactly the used blocks are visited, each once |
| HeapBlocks.HeapBlocks.RemoveFromFl | src/gc-7.2/allchblk.c:293-329 | the block leaves the list for its size, whose byte count shrinks by its size |
| HeapBlocks.HeapBlocks.AddToFl | src/gc-7.2/allchblk.c:365-392 | the block joins the front of the list for its size, whose byte count grows by its size |
| HeapBlocks.HeapBlocks.FreeBlockEndingAt | src/gc-7.2/allchblk.c:334-359 | the free block that ends where this one begins, if there is one |
| HeapBlocks.HeapBlocks.Freehblk | src/gc-7.2/allchblk.c:835-896 | exactly the pages of the block become free; it is joined with both free neighbours, so that no two free blocks are adjacent; lists, links and byte counts stay exact |
| HeapBlocks.HeapBlocks.FreeBlock | src/gc-7.2/allchblk.c:835-896 | a release between two calls keeps all invariants |
| HeapBlocks.HeapBlocks.SplitBlock | src/gc-7.2/allchblk.c:542-571 | the upper part takes the place of the block on its list, the lower part goes to its own; no page or byte is lost |
| HeapBlocks.HeapBlocks.GetFirstPart | src/gc-7.2/allchblk.c:501-526 | the first pages leave the free lists, the rest goes to the list for its size, the counts shrink by just the part taken |
| HeapBlocks.HeapBlocks.AllochblkNth | src/gc-7.2/allchblk.c:652-826 | the search of one list, with skips to better blocks, black-listed places and dropped blocks: the result is a new used block of free pages and nothing else changes; a block is found exactly when the list has one that suits and has an admissible place, and blocks dropped on the way have none; what is handed out, unless the kind is uncollectable or pointer-free within two pages, or the request exceeds the spacing, starts on a page of no list and, without IGNORE_OFF_PAGE, has no page on a stack list |
| HeapBlocks.HeapBlocks.Allochblk | src/gc-7.2/allchblk.c:587-640 | all invariants are kept; the result is null exactly when no free block of the exact size, or large enough on a list up to the split limit, has an admissible place; what is handed out, unless the kind is uncollectable or pointer-free within two pages, or the request exceeds the spacing, starts on a page of no list and, without IGNORE_OFF_PAGE, has no page on a stack list; a clear place of the size in a block that the search reaches, with IGNORE_OFF_PAGE one whose first page alone is clear, is enough for success, and for uncollectable or small pointer-free blocks any block reached |
| HeapBlocks.HeapBlocks.FitPlaces | src/gc-7.2/allchblk.c:690-735 | the blocks the search of a list may take include every free block with a clear place of the size, with IGNORE_OFF_PAGE every one with a place whose first page is clear, and for uncollectable or small pointer-free blocks all |
| HeapBlocks.NoneReachable | src/gc-7.2/allchblk.c:587-640 | the lists that are searched hold every block there is to find |
| HeapBlocks.HeapBlocks.AddToHeap | src/gc-7.2/alloc.c:1042-1090 | a new section becomes free pages of the heap; heap size and free bytes grow together |
| HeapBlocks.HeapBlocks.Run | src/gc-7.2/allchblk.c:587-896 | any run of allocations, releases and additions keeps all invariants: blocks tile the heap, every free block is on exactly the list for its size, no two are adjacent, byte counts are exact |
| HeapBlocks.HeapBlocks.BytesInUsedBlocks | src/gc-7.2/checksums.c:151-174 | the bytes in used blocks and the free bytes make the heap size |
| BlackLists.BlackLists.IsBlackListed | src/gc-7.2/blacklst.c:228-257 | zero exactly if the block may be handed out; otherwise the next place to look, and no place before it will do |
| BlackLists.BlackLists.Promote | src/gc-7.2/blacklst.c:130-161 | the lists of this collection become the old ones and new ones start; the spacing becomes the mean distance of listed pages, or stays if none is listed, within three pages and 2048 |
| HashChains.HashTable.Grow | src/gc-7.2/finalize.c:99-134 | a table of twice the size holds the same entries, each on the chain of its hash |
| HashChains.HashTable.Lookup | src/gc-7.2/finalize.c:167-174 | the entry of a key with the one before it, and null only if there is none |
| DisappearingLinks.LinkTable.Register | src/gc-7.2/finalize.c:146-210 | the link is registered for the object, whether new or not, and no other registration changes |
| DisappearingLinks.LinkTable.Unregister | src/gc-7.2/finalize.c:212-244 | exactly this registration goes; misaligned links are not found; before there is a table the null pointer is followed |
| DisappearingLinks.LinkTable.ClearDead | src/gc-7.2/finalize.c:539-561 | exactly the links to unmarked objects are cleared and dropped |
| DisappearingLinks.LinkTable.DropDangling | src/gc-7.2/finalize.c:669-690 | exactly the links inside unmarked objects are forgotten |
| Marking.MarkFrom | src/gc-7.2/finalize.c:248-295 | marking for an object marks, beside what was marked, exactly what its mark procedure protects |
| Finalization.Finalizers.Finalize | src/gc-7.2/finalize.c:525-700 | entries of table and queue are conserved with exact counts; exactly the links to unmarked objects are cleared; an entry is newly queued only if its object was unmarked and protected by no unmarked registered object, and every such entry is queued, unless another entry of the object is, or with Java finalization a queued object leads to one to be finalized only when nothing does; whatever gets marked is protected by an unmarked registered object, is the object of a newly queued entry or, with Java finalization, is reached from one; with Java finalization the marks end up closed |
| Finalization.Finalizers.MarkBehindObjects | src/gc-7.2/finalize.c:563-577 | the second pass marks all that unmarked registered objects protect, and nothing without such a reason |
| Finalization.Finalizers.MarkQueued | src/gc-7.2/finalize.c:618-632 | what queued objects lead to is marked, and so are they, except those to be finalized only when nothing leads to them; nothing else is marked |
| Finalization.Finalizers.EnqueueDead | src/gc-7.2/finalize.c:579-616 | of the objects still unmarked after the second pass exactly the entries move to the queue; the objects are marked now, or with Java finalization later |
| Finalization.Finalizers.SortingExact | src/gc-7.2/finalize.c:563-616 | together the second and third pass queue every entry that is due, and mark nothing without a reason |
| Finalization.Finalizers.SettledExact | src/gc-7.2/finalize.c:563-660 | so do all passes with Java finalization, the revival included |
| Finalization.Finalizers.Revive | src/gc-7.2/finalize.c:634-666 | entries to be finalized only when nothing leads to them go back to the table if something does; none is lost; what comes back was marked before or shares its object with an entry kept, and only objects of entries kept are marked |
| Finalization.Finalizers.EnqueueAll | src/gc-7.2/finalize.c:705-735 | the table ends up empty and every entry queued, with all behind the objects marked |
| Finalization.Finalizers.RegisterFinalizer | src/gc-7.2/finalize.c:302-423 | the finalizer is entered, replaced or removed, the previous one is returned, and no other entry changes |
| BackEdges.BackGraph.NewBackEdges | src/gc-7.2/backgraph.c:86-108 | a structure no chain uses, from the free list or from new space; all predecessors stay |
| BackEdges.BackGraph.Deallocate | src/gc-7.2/backgraph.c:111-118 | a whole chain goes to the front of the free list |
| BackEdges.BackGraph.ListPreds | src/gc-7.2/backgraph.c:172-200 | the loop over the chained structures meets the predecessors in order |
| BackEdges.BackGraph.EnsureStruct | src/gc-7.2/backgraph.c:203-221 | an object gets a structure of its own and keeps its predecessors |
| BackEdges.BackGraph.AddEdge | src/gc-7.2/backgraph.c:225-269 | the edge is added once, at the end, and no other object gets or loses a predecessor |
| BackEdges.BackGraph.Reset | src/gc-7.2/backgraph.c:293-326 | all edges of the object go, and its structure too unless it keeps a height for one more cycle |
| BackHeights.HeightIsLongest | src/gc-7.2/backgraph.c:359-398 | on a graph without cycles the height is the greatest length of a chain of predecessors |
| BackHeights.HeightSearch.BackwardsHeight | src/gc-7.2/backgraph.c:359-398 | the search ends on every graph, cycles included, with the length of some chain that ends in the object, counted from what is remembered of its first object; the result is kept, exceeds the heights kept for all predecessors off the search path, and disturbs no height found in this cycle; without cycles it is the height, and every height stored is right |
| BackHeights.KnownAtStart | src/gc-7.2/backgraph.c:359-398 | the remembered heights of any graph are what the search may count chains from |
| RootSections.SortHeapSects | src/gc-7.2/dyn_load.c:249-271 | the sections are sorted by start, a permutation of what they were |
| RootSections.RegisterMapEntries | src/gc-7.2/dyn_load.c:273-368 | an address is registered exactly if a writable mapping that is not the stack has it and no section of the collector does |
| PathNodes.ForwardPath | src/Compiler.c:150-156 | the loop up the parents lists the ancestors from the root down |
| PathNodes.CommonPath | src/Compiler.c:158-168 | the deepest common ancestor of two path nodes, and null exactly when there is none |
| LocalsClearing.Analyzer.NewLocalBindingExpr | src/Compiler.c:1061-1097 | a new use takes the mark from exactly the earlier uses of its local that it may run after, and is marked itself exactly if it owns the local |
| LocalsClearing.Analyzer.ParseIf | src/Compiler.c:1680-1714 | the test precedes both arms, uses of the two arms exclude each other, each name stands for its local, and exactly the uses made are recorded |
| LocalsClearing.Analyzer.ParseLoop | src/Compiler.c:1347-1462 | the locals and the body of a loop are in a region of their own: the body owns exactly its uses of the locals of that loop |
| LocalUses.TraceSound | src/Compiler.c:1061-1097 | in every run, of two uses of a local with no new binding between them, those of an initial value and the first round of a loop included, the later succeeds the earlier, unless the earlier owns nothing |
| LocalUses.RunsAgain | src/Compiler.c:1061-1097 | conversely, if a later use may run after an earlier one, some run to the end reads the local by the one and then again before it is bound anew |
| LocalUses.ClearsExactly | src/Compiler.c:1061-1097 | in arranged code exactly the owned uses that no run follows by another one are marked, and what follows an owned use without mark does so in a run to the end |
| LocalsClearing.ParseFnMethod | src/Compiler.c:449-575 | a use clears its local if and only if the local is owned where the use stands (a parameter outside all loop bodies, a local of the innermost loop in its body) and no run of the method, branches and loop rounds chosen in any way, reads the local by that use and then again before it is bound anew; what keeps an owned use from clearing is a run to the end |
| Forms.PrintObject | src/Util.c:88-144 | what the writer gets is the printed text of the form: items with a space between them and none behind |
| ReaderStream.LineNumberReader.ReadToken | src/Reader.c:185-204 | the token up to, and not including, the character that ends it |
| ReaderStream.LineNumberReader.ReadForm | src/Reader.c:86-133 | reading from the stream, with its put-back character and every error, is `FormAhead` of the text ahead and leaves the text behind |
| ReaderStream.LineNumberReader.ReadDelimitedList | src/Reader.c:363-389 | reading up to a delimiter is `ItemsAhead` of the text ahead, in forms, errors and text left |
| RoundTrip.RoundTrip | src/Reader.c:86-413 | reading the printed text of any tree of longs, booleans, readable names, lists and vectors gives the tree back and takes just that text |
| RoundTrip.SymbolReadsBack | src/Reader.c:206-277 | a symbol reads back in front of every delimiter if and only if it is readable: not empty, without characters that end or start other tokens, no literal, not starting with a digit, a sign or a colon |
| RoundTrip.KeywordReadsBack | src/Reader.c:206-277 | a keyword reads back in front of every delimiter if and only if its name is plain and does not start with a colon |
| RoundTrip.DecimalReads | src/Reader.c:150-183 | a decimal behind a plus, a minus or no sign reads as its value |
| RoundTrip.OctalReads | src/Reader.c:150-183 | an octal numeral behind a zero, signed or not, reads as its value |
| RoundTrip.HexReads | src/Reader.c:150-183 | a hexadecimal numeral behind 0x or 0X, signed or not and in letters of either case, reads as its value |
| Murmur3.RoundInjective | src/Murmur3.c:21-35 | a round loses nothing, neither of the state nor of the block |
| Murmur3.FmixInjective | src/Murmur3.c:7-15 | the final mix maps different states to different hashes |
| Murmur3.Hash32 | src/Murmur3.c:17-52 | the loop over blocks and the falling-through switch over the tail compute `Hash` |
| Murmur3Values.HashOfNothing | src/Murmur3.c:17-52 | the empty string hashes to 0, as published for seed 0 |
| Murmur3Values.HashOfA | src/Murmur3.c:17-52 | the string a, a tail alone, hashes to 0x3c2569b2 as published |
| Murmur3Values.HashOfTest | src/Murmur3.c:17-52 | the string test, a block alone, hashes to 0xba6bd213 as published |
| Murmur3Values.HashOfHello | src/Murmur3.c:17-52 | the string Hello, world!, three blocks and a tail, hashes to 0xc0363e43 as published |
| Murmur3Values.RotlIs | src/Murmur3.c:3-5 | a rotation moves the top bits of a word below the others |
| Murmur3Values.TailSum | src/Murmur3.c:37-42 | the bytes of the tail make up one number, low byte first |
| Murmur3.BlocksNeverCollide | src/Murmur3.c:17-52 | inputs of one length that differ only within one aligned block of four bytes never hash alike |
| Murmur3.TailsNeverCollide | src/Murmur3.c:17-52 | inputs of one length that differ only in the tail behind the last whole block never hash alike |

## Left out

Numbers:

- BigDecimals.FromBigInt: the conversion of a big integer to a long is a parameter, and so in `Plus` and `Multiply`; the results hold whatever it gives. The code's own (`RoundingForms.ToLong`) starts from the sign, so that a number that is a long may stay in the big form.
- BigDecimals.GetPrecision: the precision of a number in the big form (`bigDigitLength`, 1348-1358) is not modelled; a precision the code leaves uninitialised counts as 0, not known.
- Rounding.DoRound: it divides as is meant, measures values by their decimal digits, and leaves scales unbounded, for numbers of any size; `RoundingForms.DoRoundCompact` has the code's division, precision and scale check, for compact numbers. For big ones `BigExact` says when the division is right. Both require a precision above zero: with zero the loop would not end.
- RoundingForms.SetScale: where the division has a big operand the outcome is only that; what it gives is for `BigExact` and `LongExact` to say.
- Rounding.DivideAndRoundCorrect: it is about the rounding that is meant; `RoundingForms` has the two forms of the code.
- RoundingForms.DivideByLong: the smallest long as divisor is excluded; as a compact value it is the sentinel of the big form. Where a number gathered overflows, which C++ leaves undefined, only that is said.
- RoundingForms.ToLong: the overflow of the long, which C++ leaves undefined, wraps around.
- RoundingForms.CompactExact: the smallest long is excluded on both sides; as a compact value it is the sentinel of the big form.
- BigDecimal division, remainder and comparison, `stripZerosToMatchScale`, the two-form `divide`, and negation of decimals.
- Conversions of big numbers to double and string; `abs` of a long is the mathematical one.
- `BigIntOps::divide`, which passes its first operand twice (2032); floating point.

Trie and vector:

- `LMap::create`, and sequences over the trie of src/Map.cpp; those of src/Map.c are modelled.
- TransientVector.AsTransient: only for a vector without a trie, as in `CreateVector`; `editableRoot` of a trie is not modelled. An element and what `copy` (src/Util.c:152-157) makes of it count as one.
- Chunked sequences.
- Metadata, hash caching, and reclamation of nodes.

Collector:

- HeapBlocks.HeapBlocks.Allochblk: the split limit depends on the state of the collector (`enough_large_bytes_left`) and is a parameter; header allocation succeeds; overflow tests do not fire, as sizes are far below the address space.
- HeapBlocks.HeapBlocks.Freehblk: aborts, such as on double release, are preconditions.
- HeapBlocks.HeapBlocks.SplitBlock: the new part is marked free before it is listed.
- BlackLists.BlackLists.Promote: the bytes of the heap and of its listed pages are parameters.
- Memory unmapping, warnings and statistics, the free list of headers, `GC_next_used_block`, and addresses below the granularity of a heap block. HBLKSIZE, MAX_JUMP, BOTTOM_SZ, N_HBLK_FLS and the size of the page hash tables are constants of a 64-bit build.
- Finalization.Finalizers.Finalize: objects are their base addresses (no interior pointers), the mark stack does not overflow, entries of the tables are not marked themselves, and nothing an earlier cycle queued as only-when-unreachable is still queued unmarked. Without Java finalization marks are closed but for the children of objects queued without order.
- Finalization.Finalizers.RegisterFinalizer: a replaced finalizer is changed in its entry, and the retry after running out of memory is not modelled.
- Running the client's finalizers, and notifying the client.
- BackEdges.BackGraph.ListPreds: `FOR_EACH_PRED` lists the predecessors before its body runs; edges of a structure are a sequence of at most ten, and the free list is linked by indices, not by tagged pointers.
- BackEdges.BackGraph.AddEdge: requires that a structure is left; the code aborts without one.
- BackHeights.HeightSearch.BackwardsHeight: the longest chain only on graphs without cycles, which a rank given as a ghost argument witnesses; on others it is some chain. `update_max_height` is not modelled.
- RootSections.RegisterMapEntries: the memory map is given as its entries, not parsed; thread stacks are not modelled; sections do not overlap.

Compiler and reader:

- LocalsClearing.ParseFnMethod: forms are names, sequences, `if` and `loop`; nested functions, plain `let`, type hints, primitive locals and repeated analysis of a loop after a mismatch are not modelled.
- RoundTrip.RoundTrip: maps, strings, characters, quotes, comments, metadata, floats and qualified names are one other form that is not read; printer and reader follow a null pointer at `nil` inside a collection; an empty vector is the shared `EmptyVector`; whitespace is that of the C locale.
- Line and column counters of the reader.
- Murmur3.Hash32: blocks are read low byte first; words are natural numbers below two to the power 32.
