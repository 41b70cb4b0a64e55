# Verified models of KTL's hard algorithms

KTL is a C++ library for kernel code. This project models its algorithms that
have an intricate invariant, exact arithmetic or a concurrent protocol, and
proves what they are for.

- **Robin Hood hash table** (`RobinHoodLayout`, `RobinHoodTable`,
  `RobinHoodRuns`). The slots, the info bytes, the probing and shifting loops,
  the re-encoding of eight info bytes per word, growth, and iteration. A key is
  an identity with a hash of any size, so every hash function is covered. The
  layout invariant is a predicate on plain values; the table is a class whose
  methods keep it and track the finite map that it represents. The table gives up
  when a byte is full and no hash bit is left; whatever the hash function is, that
  takes 127 elements.
- **Bulk pool** (`BulkPool`). A free list threaded through the blocks, in memory
  obtained in regions.
- **Exact decimal arithmetic of the bundled fmt** (`BigNum`, `BigIntegers`,
  `FixedDigits`, `BinaryNumbers`, `FallbackFormat`, `ShortestDigits`,
  `ShortestFormat`, `DecimalZeros`). The big integer with an implicit exponent; the
  fixed digits and the shortest digits of every positive finite number from its bits
  on, where the number is a multiple of the least positive number of its format;
  divisibility by powers of five through modular inverses, removal of trailing
  zeros.
- **Format strings** (`FormatFields`, `FormatStrings`, `FormatCompiler`,
  `FormatStrict`, `FormatPrinting`, `FormatTexts`). The run-time parser in its
  one-pass and two-pass forms, the compiler from format strings to a tree of writers,
  which strings the two agree on, a printer whose output both read back, and texts
  that are rejected.
- **Protocols** (`LockProtocol`, `SharedHandles`). Locking several mutexes with
  back-off, and the strong/weak control block, as state machines over atomic
  steps, for any number of threads and handles and any interleaving.
- **Ratios, durations, rotation** (`Ratios`, `Durations`, `MachineDurations`,
  `Rotation`). Durations are exact over unbounded counts first; then their 64-bit
  form is shown to agree with that wherever nothing overflows. Signed overflow is
  undefined in the source; that it wraps around is a choice of the model.

`Bits` and `Basics` hold the arithmetic of words, bytes, shifts and powers that
the others share.
Machine words are naturals with explicit bounds; where the code wraps around or
truncates, so does the model.

Some promises turned out to hold under a condition only. The model keeps the
code as it is and proves the condition to be necessary and sufficient:

- `bigint::compare` orders equal numbers with different exponents by their
  stored lengths. It is exact for numbers with the same exponent
  (`CompareIsExact`; sharp form `CompareIsExactIff`, example `EqualButSmaller`).
- `bigint::add_compare` trusts lengths, which a zero with an exponent may belie.
  It is exact for all numbers whose zeros are not too long (`AddCompareIsExact`;
  sharp form `AddCompareIsExactIff`, example `LongZeroMisleads`).
- `bigint::subtract_aligned` stops a borrow at the first bigit above the
  subtrahend; if that bigit is zero the borrow is lost (`SubtractAligned`,
  example `BorrowStops`).
- `bigint::divmod_assign` takes a dividend that equals the divisor but has a
  higher exponent for a smaller one, and a zero that is stored longer than the
  divisor for a large number (`DivModAssign`, `LongZeroIsMisdivided`, example
  `ZeroByFive`). On two arbitrary big integers digit generation inherits the
  former (`FormatFixed`, example `MissedTie`). No floating-point number leads
  there: the numerator and the denominator that the formatter sets up never meet
  the condition, so its digits are right for every one (`NoTie`,
  `FallbackFixed`).
- For a positive dividend the loop of `bigint::divmod_assign` ends if and only if
  the dividend is at most one bigit longer than the divisor: on a longer one the
  lost borrow keeps it from ever getting shorter (`DivModAssign`, `DivModRounds`,
  example `DivisionNeverEnds`). For a zero it always ends.
- The shortest digits always read back to the number and are the nearest ones of
  their length (`FallbackShortest`, `ReadsBackIff`). They are the shortest ones
  except exactly when the numerator is stored with the larger exponent, the
  significand is even, and the fewest digits that read back are those of the
  lower midpoint alone: `bigint::compare` does not see that the midpoint is hit
  (example `OverlookedBoundary`, where 3.584e25 is overlooked). They are digits
  except exactly when the number is nearer to ten times its power of ten than to
  nine times, and that ten reads back to it: then one character past the nine is
  written (example `TenAsOneDigit`, for the number that 1e23 reads as).
- The format-string compiler accepts strings that the run-time parser rejects:
  exactly those that are not strict, which is a condition on the text
  (`AcceptedIff`, examples `LoneBrace`, `UnclosedSpecs`, `AutomaticWidth`).
- A conversion of durations in 64 bits is exact if and only if the count times
  the numerator of the factor fits (`MachineCastIff`, example `MinutesOverflow`).
- `parse_nonnegative_int` refuses more than ten digits, even leading zeros
  (`LeadingZerosAreTurnedAway`, example `TenZerosAndFive`).
- The promotion of a weak pointer checks and then increments; it is safe exactly
  if the object has not expired in between (`StepKeeps` of `SharedHandles`,
  example `PromotionRace`).

## Model

| member | source | states |
|---|---|---|
| RobinHoodLayout.DisplacedByteBound | include/hash_table_impl.hpp:801-863 | A byte of a displaced element is at most its predecessor's plus the increment |
| RobinHoodLayout.StoppedProbeMisses | include/hash_table_impl.hpp:867-897 | A probe that stops early can have missed nothing: the ordering invariant puts the key in no later slot |
| RobinHoodLayout.StopByByte | include/hash_table_impl.hpp:867-897 | Comparing the probe's info with the byte decides exactly whether the key could still come, and no probe passes the sentinel |
| RobinHoodLayout.InsertKeepsLayout | include/hash_table_impl.hpp:828-844 | Shifting a run up and writing the new element keeps order, bytes and the represented map extended by the element |
| RobinHoodLayout.EraseKeepsLayout | include/hash_table_impl.hpp:846-863 | Shifting the displaced tail down keeps order, bytes and the represented map less the element |
| RobinHoodLayout.HalvingKeepsLayout | include/hash_table_impl.hpp:1749-1772 | Halving every byte is exactly the encoding with half the increment and one hash bit less |
| RobinHoodLayout.FullByte | include/hash_table_impl.hpp:828-844 | A byte that has no room for one more increment has a run of elements behind it, as many as the increments it counts |
| Bits.HalveWord | include/hash_table_impl.hpp:1757-1766 | One shift and one mask on a word of bytes halve each of its bytes |
| RobinHoodTable.Table.constructor | include/hash_table_impl.hpp:1824-1832 | The unallocated table is sound and represents the empty map |
| RobinHoodTable.Table.KeyToIdx | include/hash_table_impl.hpp:801-818 | Masks and shifts give the home bucket and the info value of distance zero |
| RobinHoodTable.Table.FindIdx | include/hash_table_impl.hpp:867-897 | For every key: the slot with the key and its mapped value if the map has it, the end index otherwise |
| RobinHoodTable.Table.NextWhileLess | include/hash_table_impl.hpp:820-825 | Skips only elements that come before the key and are not it |
| RobinHoodTable.Table.ShiftUp | include/hash_table_impl.hpp:828-844 | Slots and bytes move up by one; the table closes if and only if one of the moved bytes can grow no further |
| RobinHoodTable.Table.ShiftDown | include/hash_table_impl.hpp:846-863 | Keeps the invariant and removes exactly the element's key from the map |
| RobinHoodTable.Table.Erase | include/hash_table_impl.hpp:1425-1443 | Removes the key and reports whether it was there |
| RobinHoodTable.Table.TryIncreaseInfo | include/hash_table_impl.hpp:1749-1772 | Drops a hash bit while one is left; keeps the invariant, including the room left in every byte |
| RobinHoodTable.Table.InitData | include/hash_table_impl.hpp:1617-1635 | A sound empty table with n buckets and an overflow area |
| RobinHoodTable.Table.InsertMove | include/hash_table_impl.hpp:902-945 | Inserts an absent key; fails exactly if the table is closed and no hash bit is left; every hash bit that it drops took a crowd |
| RobinHoodTable.Table.RehashPowerOfTwo | include/hash_table_impl.hpp:1563-1590 | Moves every element into exactly n buckets; the map is unchanged unless all hash bits ran out, which takes 127 elements |
| RobinHoodTable.Table.IncreaseSize | include/hash_table_impl.hpp:1774-1792 | Drops a hash bit and keeps the buckets whenever both a bit and allowed elements are left, or else doubles the buckets, keeping the map; each alternative makes progress; the error means that no hash bit is left, and takes 127 elements unless none was left before |
| RobinHoodTable.Table.DoInsert | include/hash_table_impl.hpp:1638-1747 | Terminates for every hash function. A present key is found and nothing changes; an absent one is inserted without more buckets whenever there is room; buckets are added only to a table that is half full; overflow takes a table that was stuck before or 127 elements |
| RobinHoodTable.Table.Clear | include/hash_table_impl.hpp:1146-1166 | The empty map, with the same buckets |
| RobinHoodTable.CalcMaxIs | include/hash_table_impl.hpp:1484-1493 | The allowed number of elements is the load factor of the buckets rounded down, without overflow; for numbers whose product would overflow, less by under one load factor |
| RobinHoodTable.LeastIsUnique | include/hash_table_impl.hpp:1543-1549 | There is only one least size: the one that the loop of reserve finds |
| RobinHoodTable.Table.NewSize | include/hash_table_impl.hpp:1543-1553 | The least power of two, from eight up, that may hold c elements, or zero if and only if none of 64 bits may |
| RobinHoodTable.Table.Reserve | include/hash_table_impl.hpp:1446-1559 | rehash: exactly the least size for c and the elements, shrinking too; reserve: that size if it is larger, and otherwise nothing changes at all; the map is unchanged; it fails if too many were asked for, changing nothing, or if 127 elements use up the hash bits |
| RobinHoodTable.Table.Index | include/hash_table_impl.hpp:1638-1691 | operator[]: inserts the default only for an absent key, and gives the mapped value; fails under the condition of insertion |
| RobinHoodTable.Table.InsertOrAssign | include/hash_table_impl.hpp:1607-1615 | The map with the key mapped to the value, and whether the key is new; fails under the condition of insertion |
| RobinHoodRuns.NextNonzero | include/hash_table_impl.hpp:773-782 | Word loads and a trailing-zero count find the first nonzero byte and never pass the sentinel |
| RobinHoodRuns.Traverse | include/hash_table_impl.hpp:741-782 | Iteration visits every occupied slot exactly once, in order |
| RobinHoodRuns.EraseAt | include/hash_table_impl.hpp:1409-1423 | Erasing through an iterator returns the position to go on with |
| RobinHoodRuns.EraseWhileIterating | include/hash_table_impl.hpp:1409-1423 | A loop that erases any of the elements visits every original element exactly once, despite the backward shift |
| RobinHoodRuns.Run | include/hash_table_impl.hpp:1146-1747 | Every run of insert, operator[], insert_or_assign, erase, clear, reserve, rehash and find gives what the same run on a finite map gives, and every operation changes the number of buckets as it should: rehash to the least size, reserve up to it, insertions of new keys only at half load, others never. A run stops early only when all hash bits are used up, which takes 127 elements at some time before, or at a reserve or rehash that asks for more than 64-bit sizes allow for the elements then in the map |
| BulkPool.AlignedSizeFits | include/hash_table_impl.hpp:243-247 | The block size is the least multiple of the alignment that holds the object |
| BulkPool.PoolIsConserved | include/hash_table_impl.hpp:131-241 | Free and handed-out blocks together are as many as the pool's memory holds |
| BulkPool.CountIs | include/hash_table_impl.hpp:203-230 | No further block would fit into a region behind its link and its blocks |
| BulkPool.NextCount | include/hash_table_impl.hpp:234-241 | A region that is asked for to hold n blocks holds exactly n, without a byte to spare |
| BulkPool.BytesAccounted | include/hash_table_impl.hpp:131-241 | All bytes of all regions are the links, the free blocks, the blocks handed out, and less than one block of slack in each region |
| BulkPool.BlocksInPlace | include/hash_table_impl.hpp:131-241 | Any two blocks, free or handed out, are disjoint; each is aligned and inside a region behind its link |
| BulkPool.CallersMayWrite | include/hash_table_impl.hpp:131-153 | Whatever callers write anywhere in the blocks they hold, the pool stays sound |
| BulkPool.Pool.Allocate | include/hash_table_impl.hpp:131-139 | Hands out a block that is not handed out already: the first free one, or, only if there is none, one from a new region, whose other blocks are then free |
| BulkPool.Pool.Deallocate | include/hash_table_impl.hpp:150-153 | Puts the block at the head of the free list; nothing is lost |
| BulkPool.Pool.AddOrFree | include/hash_table_impl.hpp:166-174 | Takes memory over as blocks, or hands it back exactly if it cannot hold one |
| BulkPool.Pool.Add | include/hash_table_impl.hpp:203-230 | The new blocks are linked in front of the free list, in address order, and less than one block of the memory is left over |
| BulkPool.Pool.CalcNumElementsToAlloc | include/hash_table_impl.hpp:189-200 | Walking the region list gives a number within the two bounds, the one that GrownIs describes |
| BulkPool.GrownIs | include/hash_table_impl.hpp:189-200 | That number is the lower bound times the greatest power of two, up to one doubling for every region, that stays within the upper bound |
| BulkPool.Pool.PerformAllocation | include/hash_table_impl.hpp:234-241 | A new region of exactly that many blocks, all of them free |
| BulkPool.Pool.Reset | include/hash_table_impl.hpp:119-126 | Every region is handed back exactly once |
| BigIntegers.BigInt.AssignWord | modules/fmt/format-inl.hpp:475-483 | The number is the word |
| BigIntegers.BigInt.MultiplySmall | modules/fmt/format-inl.hpp:430-440 | The exact product; no carry overflows |
| BigIntegers.BigInt.MultiplyWide | modules/fmt/format-inl.hpp:442-457 | The exact product with a 64-bit factor; the two-word carry does not overflow |
| BigIntegers.BigInt.ShiftLeft | modules/fmt/format-inl.hpp:487-502 | The number times a power of two |
| BigIntegers.Accumulator.Plus | modules/fmt/format-inl.hpp:374-378 | The wrapped comparison detects the carry: the two words hold the exact sum |
| BigNum.ProductByColumns | modules/fmt/format-inl.hpp:582-609 | The column sums of two digit sequences add up to their product |
| BigIntegers.BigInt.Square | modules/fmt/format-inl.hpp:582-609 | The exact square; the accumulator does not overflow |
| BigIntegers.BigInt.AssignPow10 | modules/fmt/format-inl.hpp:560-580 | Exactly the power of ten, by squaring, multiplying and shifting, for every exponent that the bit mask of the source can reach |
| BigIntegers.BigInt.RemoveLeadingZeros | modules/fmt/format-inl.hpp:410-415 | Same value, no zero on top |
| BigIntegers.BigInt.Compare | modules/fmt/format-inl.hpp:511-528 | Lengths first, then values, then stored lengths |
| BigIntegers.CompareIsExact | modules/fmt/format-inl.hpp:511-528 | Numbers with the same exponent compare as their values do |
| BigIntegers.CompareIsExactIff | modules/fmt/format-inl.hpp:511-528 | Comparison gives the sign of the difference if and only if no zero is padded and equal numbers are stored alike |
| BigIntegers.EqualButSmaller | modules/fmt/format-inl.hpp:511-528 | Two equal numbers that compare as unequal |
| BigIntegers.BigInt.AddCompare | modules/fmt/format-inl.hpp:531-557 | The sign of lhs1 + lhs2 - rhs without computing the sum, for all exponents, whenever no zero operand is too long; in every other case too the result is AddCompareResult |
| BigIntegers.AddCompareIsExact | modules/fmt/format-inl.hpp:531-557 | The result is the sign of the sum less rhs if no zero on the left is longer than rhs and no zero on the right longer by two bigits; positive operands always qualify |
| BigIntegers.AddCompareIsExactIff | modules/fmt/format-inl.hpp:531-557 | The sharp form, in both directions: a long zero on the left does no harm if the sum is larger anyway |
| BigIntegers.LongZeroMisleads | modules/fmt/format-inl.hpp:531-557 | Zero plus one compares as larger than two |
| BigIntegers.BigInt.SubtractAligned | modules/fmt/format-inl.hpp:404-428 | For every subtrahend that does not compare as larger: the exact difference, plus the lost borrow exactly if the bigit above is zero and a borrow reaches it; bigits above that one never change |
| BigIntegers.BorrowStops | modules/fmt/format-inl.hpp:418-428 | Two numbers whose subtraction loses a borrow |
| BigIntegers.BigInt.Align | modules/fmt/format-inl.hpp:613-623 | Same value and length at the other number's exponent, also for a zero, which is then the one result with a zero on top |
| BigIntegers.BigInt.DivModAssign | modules/fmt/format-inl.hpp:627-639 | The true quotient and remainder, except exactly in two cases: a dividend equal to the divisor at a higher exponent gives zero, and a zero stored longer than the divisor is divided as the largest bigit above the divisor |
| BigIntegers.LongZeroIsMisdivided | modules/fmt/format-inl.hpp:627-639 | For every such zero the comparison says larger and the quotient is at least 2^32 - 1 instead of zero |
| BigIntegers.ZeroByFive | modules/fmt/format-inl.hpp:627-639 | A zero with an exponent, divided by five, is one |
| BigIntegers.BigInt.DivModRounds | modules/fmt/format-inl.hpp:627-639 | After aligning and any number of rounds on a positive dividend that is two bigits longer or more, the dividend is as long as before and compares as larger: the loop never ends |
| BigIntegers.DivisionNeverEnds | modules/fmt/format-inl.hpp:627-639 | 2^64 and 1 are such a pair |
| BigIntegers.QuotientIsDivision | modules/fmt/format-inl.hpp:627-639 | Quotient and remainder, as the contracts state them, are those of integer division |
| FixedDigits.PropagateCarry | modules/fmt/format-inl.hpp:2404-2417 | A carry through trailing nines keeps the number, with a raised exponent exactly for nines only |
| FixedDigits.RoundedIsNearest | modules/fmt/format-inl.hpp:2401-2405 | The rounding that the digits follow is to nearest, ties to even |
| FixedDigits.FormatFixed | modules/fmt/format-inl.hpp:2387-2421 | For any two big integers: the k digits are the quotient rounded to nearest even, with the exponent raised after all nines, if and only if no tie is missed before the last digit |
| FixedDigits.MissedTie | modules/fmt/format-inl.hpp:2394-2399 | Two big integers whose quotient has a tie that is missed |
| BinaryNumbers.FormatsAre | modules/fmt/format-inl.hpp:224-248 | binary32 and binary64 have 23 and 52 bits of fraction, and the bias is half the range of the biased exponents less one: 127 and 1023 |
| BinaryNumbers.AssignIs | modules/fmt/format-inl.hpp:224-248 | For every number, subnormals included, f * 2^e is its magnitude times the least positive number of the format |
| BinaryNumbers.OneAndLeast | modules/fmt/format-inl.hpp:224-248 | The number with no fraction and the bias as its exponent is one; the one with the smallest bits is the least positive number |
| BinaryNumbers.Successor | modules/fmt/format-inl.hpp:224-248 | One more in the bits is one more last place in the number, also where the exponent changes |
| BinaryNumbers.Predecessor | modules/fmt/format-inl.hpp:238-248 | One less in the bits is one last place less, and half of that exactly for the numbers that are marked as closer to their predecessor |
| BinaryNumbers.Neighbours | modules/fmt/format-inl.hpp:238-248 | No other number of the format is nearer than these two |
| FallbackFormat.SetUp | modules/fmt/format-inl.hpp:2319-2353 | In each of three ways numerator over denominator is exactly the number over 10^exp10, the boundaries are half the distances to both neighbours, and numerator and lower boundary are stored with the same exponent, which is given |
| FallbackFormat.TieIsSmall | modules/fmt/format-inl.hpp:2319-2332 | A whole number f * 2^e that is a power of ten has e < 32, because f needs a five for every two |
| FallbackFormat.NoTie | modules/fmt/format-inl.hpp:2319-2353 | In both of these cases no power of ten times the numerator is the denominator |
| FallbackFormat.RoundedScales | modules/fmt/format-inl.hpp:2309-2311 | The common factor of numerator and denominator does not change the rounded quotient |
| FallbackFormat.FormatNumber | modules/fmt/format-inl.hpp:2319-2421 | For every f * 2^e below 10^(exp10 + 1): the digits are that number rounded to nearest even at the last digit, without further condition |
| FallbackFormat.OneIsOne | modules/fmt/format-inl.hpp:224-248 | In every format the number one, decoded from its bits, is exactly one |
| FallbackFormat.FallbackFixed | modules/fmt/format-inl.hpp:2302-2421 | The same for every positive finite binary64 and binary32 number, from its bits on: for its magnitude times the least positive number of the format |
| ShortestDigits.CompareWithLower | modules/fmt/format-inl.hpp:2363-2364 | A lower boundary that is hit exactly is seen if and only if both numbers are stored with the same exponent; otherwise the comparison is exact |
| ShortestDigits.ShortestIff | modules/fmt/format-inl.hpp:2361-2386 | Fewer digits than those of the last round stand for the number if and only if an overlooked lower end does |
| ShortestDigits.NoRaisedNine | modules/fmt/format-inl.hpp:2369-2371 | After the first digit a nine is never raised: the raised number would have ended the round before |
| ShortestDigits.FirstTen | modules/fmt/format-inl.hpp:2369-2371 | The first digit is raised to ten if and only if the number is nearer to ten than to nine and ten stands for it |
| ShortestDigits.Shortest | modules/fmt/format-inl.hpp:2355-2386 | The loop ends; its digits stand for the number; they are digits, the nearest ones, and the shortest ones, each exactly under its condition |
| ShortestFormat.NearestAlways | modules/fmt/format-inl.hpp:2369-2378 | For every number of both formats the choice between the two sides is the nearest one, ties to even |
| ShortestFormat.RangeIs | modules/fmt/format-inl.hpp:2302-2353 | The interval that the loop works on is the one between the midpoints to the neighbours of the number, up to a common factor |
| ShortestFormat.ReadsBackIff | modules/fmt/format-inl.hpp:2312-2345 | A decimal lies between the midpoints, whose ends belong to even significands, if and only if no other number of the format is nearer to it, nor as near with an even significand |
| ShortestFormat.FallbackShortest | modules/fmt/format-inl.hpp:2302-2386 | For every positive finite binary64 and binary32 number: what is written is nearer to it than to any other number of the format (or as near, with an even significand), is the nearest of its length, is made of digits unless it reaches ten, and is the shortest unless a lower midpoint is overlooked |
| ShortestFormat.OverlookedBoundary | modules/fmt/format-inl.hpp:2361-2386 | A binary64 number that meets the failing condition: its four shortest digits are overlooked |
| ShortestFormat.TenAsOneDigit | modules/fmt/format-inl.hpp:2369-2371 | A binary64 number whose first digit is raised to ten |
| FixedDigits.FormatNoDigits | modules/fmt/format-inl.hpp:2389-2393 | With no digits asked for, one digit for a tenth of the quotient |
| DecimalZeros.InverseTest | modules/fmt/format-inl.hpp:1013-1052 | Multiplying by the inverse modulo the word size is small exactly for multiples, and then is the quotient |
| DecimalZeros.TableIsRight32 | modules/fmt/format-inl.hpp:1015-1021 | All 11 entries are the inverse of a power of five and the greatest quotient |
| DecimalZeros.TableIsRight64 | modules/fmt/format-inl.hpp:1026-1050 | All 24 entries likewise |
| DecimalZeros.DivisibleIff32 | modules/fmt/format-inl.hpp:1013-1023 | For every 32-bit x and entry the test holds if and only if 5^exp divides x |
| DecimalZeros.DivisibleIff64 | modules/fmt/format-inl.hpp:1024-1052 | For every 64-bit x and entry the test holds if and only if 5^exp divides x |
| DecimalZeros.RemoveTrailingZeros | modules/fmt/format-inl.hpp:2027-2110 | For every n below 10^8 * 2^32: n is the result times 10^s, and s is the exact number of trailing zeros, up to sixteen |
| DecimalZeros.RemoveTrailingZeros32 | modules/fmt/format-inl.hpp:1998-2024 | The same for every 32-bit number, up to seven |
| FormatFields.ParseNonnegativeInt | modules/fmt/core.hpp:2118-2140 | The 32-bit loop gives the number if it has at most ten digits and fits an int, although the accumulator may have wrapped |
| FormatFields.IntAtIsExact | modules/fmt/core.hpp:2118-2140 | Without a leading zero that is exactly the numbers that fit |
| FormatFields.LeadingZerosAreTurnedAway | modules/fmt/core.hpp:2118-2140 | A number that fits is accepted if and only if it has at most ten digits |
| FormatFields.TenZerosAndFive | modules/fmt/core.hpp:2118-2140 | Eleven digits that spell five are refused |
| FormatFields.ShortCutAgrees | modules/fmt/core.hpp:2314-2384 | The short cut for a type alone gives what the full specifier parser gives |
| FormatTexts.LengthIsRight | modules/fmt/core.hpp:2082-2094 | The first code unit of the UTF-8 encoding of every code point tells its length |
| FormatTexts.FillIsCodePoint | modules/fmt/core.hpp:2143-2182 | Every code point before an alignment is the fill, all bytes of it, except an opening brace, which is rejected |
| FormatTexts.BarePoint | modules/fmt/core.hpp:2271-2310 | A point without a digit or a brace behind it is rejected at run time in every field |
| FormatTexts.HugeWidth | modules/fmt/core.hpp:2233-2269 | A width above the range of int is rejected at run time in every field |
| FormatFields.SpecsTrack | modules/fmt/core.hpp:2314-2384 | Specifiers accepted with early argument look-up parse to the same with late look-up, for automatic and manual indexing |
| FormatStrings.ParseInOnePass | modules/fmt/core.hpp:2439-2456 | On strings of any length: the text and fields of the grammar, and the same rejections |
| FormatStrings.WriteText | modules/fmt/core.hpp:2457-2473 | The second pass writes text with escaped closing braces, or finds the unmatched one |
| FormatStrings.ParseInTwoPasses | modules/fmt/core.hpp:2457-2483 | On strings of any length: the text and fields of the grammar, and the same rejections, hence those of the one-pass loop |
| FormatStrings.Format | modules/fmt/format.hpp:2845-2930 | Short cut, short and long strings all mean what the grammar says |
| FormatCompiler.ParseText | modules/fmt/compile.hpp:359-366 | The end of the text before the next brace |
| FormatCompiler.CompiledMeansTheSame | modules/fmt/compile.hpp:368-545 | Every string accepted at run time compiles to a tree that writes the same characters and fields |
| FormatStrict.AcceptedIff | modules/fmt/compile.hpp:368-545 | A string is accepted at run time if and only if it compiles to a tree that writes and is strict: text braces doubled, specifiers closed by a brace, arguments numbered in numbered fields |
| FormatStrict.LoneBrace | modules/fmt/compile.hpp:531-534 | A closing brace before any other character: compiled, but not strict |
| FormatStrict.UnclosedSpecs | modules/fmt/compile.hpp:396-405 | Specifiers that end at any other character: compiled, but not strict |
| FormatStrict.AutomaticWidth | modules/fmt/compile.hpp:396-405 | An automatic width in a numbered field: compiled, but not strict |
| FormatCompiler.CompilerSkipsAnything | modules/fmt/compile.hpp:531-534 | After a closing brace the compiler skips any character, where the run-time parser rejects all but a second brace |
| FormatPrinting.SpecsPrinted | modules/fmt/core.hpp:2143-2384 | Specifiers printed in the standard order are read back exactly: fill, alignment, sign, flags, width, precision, type |
| FormatPrinting.RoundTrip | modules/fmt/core.hpp:2386-2483 | Every sequence of characters and indexed fields, printed as a format string, is parsed back to itself |
| FormatPrinting.CompiledRoundTrip | modules/fmt/compile.hpp:368-545 | The compiled tree of a printed format string writes the same sequence |
| LockProtocol.StepKeeps | include/mutex.hpp:752-862 | In every interleaving each thread owns exactly the mutexes that its place in the algorithm says |
| LockProtocol.AllOrNothing | include/mutex.hpp:773-869 | In every reachable state a waiting, idle or failed thread owns nothing, and a thread that has returned owns its whole group |
| LockProtocol.Possibilities | include/mutex.hpp:784-830 | An exception can come at every lock and try_lock, a refusal at every try_lock, and success takes exactly the mutex that is asked for if it is free |
| LockProtocol.ExceptionLeaves | include/mutex.hpp:784-830 | After an exception anywhere the thread's own steps lead out of lock with nothing owned, within a bounded number of them, and in no interleaving does it lock again or return |
| LockProtocol.RefusalRetries | include/mutex.hpp:784-869 | After a refusal they lead, with nothing owned, to a blocking lock of exactly the mutex that refused, and in no interleaving does the thread come anywhere else before |
| LockProtocol.MutualExclusion | include/mutex.hpp:866-886 | Two threads that hold their groups share no mutex |
| LockProtocol.NoWaitingChain | include/mutex.hpp:773-869 | Whoever is waited for does not wait |
| LockProtocol.NoWaitingCycle | include/mutex.hpp:773-869 | No waits-for cycle of any length is reachable |
| LockProtocol.OnlyBlockingWaits | include/mutex.hpp:773-869 | A thread cannot step if and only if it waits for an owner; it unlocks only what it owns |
| LockProtocol.NoDeadlock | include/mutex.hpp:773-869 | For every thread at its blocking lock: it can step, or the very owner that it waits for can |
| LockProtocol.SoloSucceeds | include/mutex.hpp:810-837 | A thread that nobody contends with comes to hold its whole group by its own steps |
| LockProtocol.AttemptEnds | include/mutex.hpp:784-830 | After its blocking lock an attempt ends within a bounded number of steps |
| SharedHandles.StepKeeps | include/smart_pointer.hpp:370-414 | A step keeps counters and handles in balance if and only if it is not an increment of an expired object |
| SharedHandles.GuardedStep | include/smart_pointer.hpp:1100-1118 | A promotion across which a strong handle is kept, or of an object that has expired, never increments an expired object |
| SharedHandles.PromotingExpired | include/smart_pointer.hpp:1100-1118 | Promoting a weak handle whose object is destroyed or has no strong handle gives an empty handle and changes nothing |
| SharedHandles.PromotingLive | include/smart_pointer.hpp:1100-1118 | A promotion across which a strong handle is kept gives a strong handle to the live object and raises the count by one, whatever others do in between |
| SharedHandles.CopyingGains | include/smart_pointer.hpp:370-414 | Copying gives a handle of the asked kind and raises its count by one, whatever others do in between |
| SharedHandles.MovingKeeps | include/smart_pointer.hpp:693-735 | Moving hands the handle over, empties the source and changes no counter |
| SharedHandles.RunKeeps | include/smart_pointer.hpp:370-414 | Every run with guarded promotions, or promotions of expired objects, keeps the balance |
| SharedHandles.Lifetimes | include/smart_pointer.hpp:370-414 | The counters are the numbers of handles; destroyed once, after the last strong handle; freed once, after that, when and only when nobody uses the block |
| SharedHandles.InUse | include/smart_pointer.hpp:693-735 | Whoever is at work on a block finds it not freed, and a strong handle finds its object alive |
| SharedHandles.PromotionRace | include/smart_pointer.hpp:1100-1118 | An unguarded promotion leads to a second destruction of the object |
| Ratios.EuclidIs | include/ratio.hpp:53-69 | The recursion gives a common divisor that is a combination of both numbers |
| Ratios.CoprimeIsGcd | include/ratio.hpp:53-69 | Numbers have 1 as a combination if and only if their greatest common divisor is 1 |
| Ratios.ReducedIsLowest | include/ratio.hpp:71-87 | The ratio in lowest terms, with a positive denominator and the same value |
| Ratios.SafeMultiplyIff | include/ratio.hpp:14-27 | The guard refuses exactly the products that do not fit |
| Ratios.ProductIsLowest | include/ratio.hpp:134-166 | The cross-cancelled product is the product, and is already in lowest terms |
| Ratios.MultiplyIs | include/ratio.hpp:134-170 | Multiplication gives the product in lowest terms exactly if that fits 64 bits, and an error otherwise |
| Ratios.LowestUnique | include/ratio.hpp:71-87 | A ratio has one form in lowest terms |
| Ratios.QuotientIsLowest | include/ratio.hpp:172-191 | The same for division by the reduced inverse |
| Ratios.MultiplyWide | include/ratio.hpp:230-252 | Two 64-bit factors give their exact 128-bit product, and no intermediate sum overflows |
| Ratios.IsRatioLess | include/ratio.hpp:254-273 | Decides n1/d1 < n2/d2 for all positive denominators |
| Durations.CommonIs | include/chrono.hpp:220-231 | Both periods are whole multiples of the common period |
| Durations.CommonIsCoarsest | include/chrono.hpp:220-231 | Every unit that both periods are whole multiples of divides the common period: it is the coarsest one |
| Durations.CastTruncates | include/chrono.hpp:412-447 | Every branch of the conversion truncates the exact quotient, over unbounded counts |
| Durations.LessIsExact | include/chrono.hpp:378-386 | Comparison across units is exact, over unbounded counts |
| Durations.FloorIs | include/chrono.hpp:449-463 | The greatest count of the target unit not above the duration, over unbounded counts |
| Durations.CeilIs | include/chrono.hpp:465-479 | The least count of the target unit not below the duration, over unbounded counts |
| Durations.CommonIsSymmetric | include/chrono.hpp:220-231 | The common period does not depend on the order |
| Durations.RoundIs | include/chrono.hpp:481-506 | The nearest count of the target unit, ties to even, over unbounded counts |
| Durations.SecondsRound | include/chrono.hpp:449-506 | Seconds to minutes meet every condition above; a second before zero floors to -1 and 90 seconds round to 2 |
| MachineDurations.MachineCastIff | include/chrono.hpp:412-447 | In 64 bits the conversion is the exact one if and only if the count times the numerator of the factor fits |
| MachineDurations.MinutesOverflow | include/chrono.hpp:412-447 | The largest 64-bit number of minutes is not converted to seconds exactly |
| MachineDurations.MachineLessIsExact | include/chrono.hpp:378-386 | In 64 bits comparison across units is exact if both counts fit in common units |
| MachineDurations.MachineFloorIs | include/chrono.hpp:449-463 | In 64 bits, the exact floor, if the duration in common units plus one target unit fits |
| MachineDurations.MachineCeilIs | include/chrono.hpp:465-479 | Likewise the exact ceiling |
| MachineDurations.MachineRoundIs | include/chrono.hpp:481-506 | Likewise the nearest count, ties to even |
| Rotation.Reverse | include/algorithm.hpp:452-462 | The range is reversed and the rest unchanged |
| Rotation.RotateByReversals | include/algorithm.hpp:487-496 | Three reversals rotate the range |
| Rotation.RotateForward | include/algorithm.hpp:516-545 | The forward loops end, and leave exactly the rotated range |
| Rotation.RotateLeft | include/algorithm.hpp:547-558 | The rotated range for every split point |
| Rotation.RotateBack | include/algorithm.hpp:547-558 | Rotating back undoes a rotation |

## Left out

- Table storage: slots and info bytes are sequences that the methods reassign, so that two references to one buffer are not modelled.
- Allocation failure, bucket counts beyond 64 bits in `increase_size`, node lifetimes, and the state of a table after the overflow error.
- The order of fields that operator[] and insertion set differently: both are one `DoInsert`.
- Hash mixing: the hash of a key is any number; that equal keys have equal hashes is part of what a key is.
- BigIntegers.BigInt.AssignPow10: exponents below 2^30 only, because from there on the bit mask of the source leaves the range of int.
- BigIntegers.BigInt.DivModAssign: the quotient is unbounded; that of a misdivided zero overflows the int of the source. Positive dividends that are two bigits longer or more, for which the loop does not end.
- FallbackFormat.FallbackFixed: how the caller finds exp10; that the number is below 10^(exp10 + 1) is what it relies on.
- ShortestFormat.FallbackShortest: the same. Characters are modelled as digits, so that ten is the character after the nine.
- Grisu and Dragonbox: they rest on cached tables and published numeric proofs. The formatter as it stands takes Dragonbox for the shortest digits, so that nothing reaches the shortest-digit branch of the fallback.
- DecimalZeros.RemoveTrailingZeros: the seven unrolled steps on the remainder are one loop.
- Format strings: named arguments, arguments of custom types, and whether specifiers suit the type of the argument; wide code units, each of which is a fill by itself; both the parser and the compiler look a name up and find nothing.
- FormatPrinting.RoundTrip: prints explicit indices only; automatic ones are covered by the equality of parser and compiler. A width of zero has no printed form, because a leading zero is a flag.
- LockProtocol: yielding between attempts, and fairness; an attempt may fail forever if others keep taking the mutexes.
- LockProtocol.StepKeeps: the variant for two mutexes takes the same steps as the general one for a group of two.
- SharedHandles: 32-bit wrap-around of the counters, memory orders, and swap, which is three moves.
- Durations: periods whose conversion factors overflow do not compile. MachineDurations: counts narrower than 64 bits; overflow wraps around, which the source leaves undefined.
- Ratios: addition, whose source refers to a name that does not exist.
- Rotation: the return value of the forward rotation, and the bidirectional variants, whose reversal swaps with the position past the end.
- Strings, vectors, type traits, condition variables and thin kernel wrappers: easy facts, or behaviour that lives in the operating system.
