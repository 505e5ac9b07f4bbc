# COVE: a verified model

COVE is a columnar archive format. Its promise is that fast readers, encoded forms and pruning metadata
never change the logical rows. This project models the places where a fast or encoded form has to agree
with a simple one, and proves that it does, or exactly when it does. Verify everything with
`dafny verify dfyconfig.toml`.

## Reading guide

| part | modules | main results |
|---|---|---|
| canonical values | `Canonical`, `CanonicalOrder`, `CanonicalLoops`, `CanonicalAcceptance`, `CanonicalIdentity`, `CanonicalJson`, `CanonicalLocality`, `CanonicalMinimal`, `CanonicalReach`, `CanonicalFailures`, `CanonicalDecode` | the bytes of a value say what it means to a reader that knows nothing of the encoder; the encoding is injective up to meaning and prefix-free; the byte validator accepts encoded values exactly when their JSON is well formed; the accepted payloads with shortest varints are exactly the encodings; exactly when encoding fails |
| Arrow export, fixed width | `Bits`, `BitScan`, `Selection`, `Validity`, `BitPacking`, `FixedWidthExport`, `BooleanExport`, `SignedColumns`, `BooleanColumns` | bitset, row-list and whole-page loops export the same rows; null buffers count their zero bits |
| Arrow export, bytes and strings | `RawCopy`, `VarBytes`, `VarBytesExport`, `VarBytesSelection`, `VarBytesStrings`, `StringPages`, `Utf8`, `Utf8Scalars` | one-pass, fixed-length, generic, parse-then-gather and forward-scan paths against one specification; fused ASCII and UTF-8 checks are row-wise validity; what is exported is the selected rows of the page |
| dictionaries | `DictionaryFormat`, `DictionaryEntries`, `Dictionary`, `Domain`, `DomainHeader`, `DenseRemap`, `CodeColumns`, `DictionaryPages`, `Ordered` | codes are dense ranks of the key set and decode to their keys; remapping preserves the column; pages of codes read back as the original rows; rank domains round-trip |
| conversion | `ConvertedColumns`, `SourceColumns`, `SourceOrder`, `Clustering`, `ClusterMeaning`, `Synthesis`, `SynthesisSize`, `RowLayout`, `LookupIndex`, `SourceLookup`, `ZoneStats`, `ZoneEntries`, `ZoneValues`, `CompositeZones`, `Paging`, `PageWriter`, `NullBitmaps`, `PageRoundTrip`, `SourceRoundTrip` | what a column holds in terms of the source's values; clustering keeps rows whole and is the unique stable order; synthesis keeps meaning and by size never grows a table; lookup finds exactly the rows of a source value; zones never leave out a source value; paging round-trips |
| page access | `RowAccess`, `RowFormats`, `PreparedAccess`, `ArrayPage`, `FieldCodec`, `ColumnTypes` | scalar, bulk and prepared access agree, and find the rows each format lays out |
| reorder-invariance checker | `NextPermutation`, `ReorderInvariance`, `Pruning`, `PruningOrders`, `PruningQueries`, `PruningSound` | the enumeration is exhaustive and each ordering is tried once; which AND and OR predicates pass; a pruned zone has no matching row |
| durable replace | `Durable`, `DurableSteps`, `DurableSafety`, `DurablePublish`, `DurableSharing`, `DurablePairs` | atomicity and durability over every run of any number of publishers, with faults and crashes; one call from start to end; what sharing temporary names breaks, and what it does not |

`Wrappers`, `Sequences` and `Wire` hold what the others share.

Code that loops over buffers, columns or files is modelled as methods and classes over arrays and fields and
is proved against a function; the lemmas are about these functions. In contracts, `SameSuccess(r, spec)`
says that the method succeeds exactly when the specification does, and then with its value: the two may
report different errors when a page is wrong in more than one way.

## What the model takes as given

- A 64-bit platform: `usize` and `u64` have one range, and no slice is longer than `isize::MAX` bytes
  (`VarBytes.InMemory`, `CanonicalAcceptance.Addressable`). Sums that the code checks for overflow are checked
  here too.
- Words are little-endian bytes; bit operations are recursive functions on natural numbers, with lemmas for
  the bit patterns the code relies on. Floats are their bit patterns.
- Errors are their kinds; messages are not modelled.
- The JSON syntax check, the CRC of a domain header, the widening of a 32-bit float and the decoding of a numeric
  cascade or local codebook page are parameters: the results hold for every such function.
- `sort_by` is a stable insertion sort on values, `BTreeSet` and `BTreeMap` are ordered sequences without
  repetition, and `from_utf8` and the SIMD validator are the well-formedness table of section 4 of RFC 3629.
- Unsigned LEB128 is section 7.6 of the DWARF 5 standard; floats are compared by `totalOrder` of section 5.10 of
  IEEE 754-2019.
- A source array is a list of values of its kind and nulls; nested values are their JSON text.

## Where the code falls short of the plain claim

Each of these is kept as the code has it, with a concrete input and the exact condition under which the plain
claim holds.

- `materialize_selected_forward_u32` does not look behind the last selected row, so it exports pages that full
  parsing refuses (`VarBytesSelection.ForwardAcceptsTruncatedPage`, `VarBytesSelection.ForwardAgreesExactly`).
- `null_count` counts padding bits of the last word when 57 to 63 rows are left for it (`Validity.PaddingCounted`,
  `Validity.NullCountExact`).
- The canonical validator takes overlong length prefixes, so accepted bytes need not be canonical
  (`CanonicalFailures.ValidatorTakesOverlongPrefix`); they are exactly when all varints are shortest
  (`CanonicalReach.CanonicalExactly`). JSON text is checked by the validator only (`CanonicalJson.EmptyTextIsEncoded`,
  `CanonicalJson.ValidatorAcceptsExactly`).
- `distinct_count` of a float zone is its number of values (`ZoneEntries.EqualFloatsCountTwice`,
  `ZoneEntries.FloatDistinctExactly`).
- Signed Arrow export refuses the codes the converter writes for negative numbers
  (`SignedColumns.NegativeIsRefused`, `SignedColumns.SignedValuesExport`).
- Bulk access of a canonical column of the null type succeeds with a null bitmap that scalar access refuses
  (`RowAccess.NullColumnNeedsItsBitmap`, `RowAccess.BulkIsScalar`).
- Folding explanations that carry no step keeps only the last one's outcome, so the order would count
  (`PruningQueries.StepsAreNeeded`, `PruningOrders.OrderFreeExactly`). The reorder-invariance checker never sees such
  operands: every predicate it can explain carries a step, so all its ANDs and ORs are free of the order, at any nesting
  (`PruningQueries.QueriesAreOrderFree`).
- Durable replace needs distinct temporary names for its cleanup: with two publishers of one name, the one that
  finds it taken removes the other's file (`DurableSafety.CollisionRemovesOthersFile`,
  `DurableSharing.CleanupIsSafeExactly`). The final path itself stays whole with two sharers and can tear with three
  (`DurableSharing.SharedNamesTear`, `DurablePairs.SharingTearsExactly`).
- `is_safe` cuts the number of codes and the table index to 32 bits, so it refuses some safe domains of `2^32` codes or
  table entries and more (`Domain.SafeButRefused`, `Domain.IsSafeExactly`).
- Domain serialization writes codes in any order, and parsing refuses those that do not ascend
  (`Domain.DescendingIsRefused`, `Domain.ParseUndoesSerialize`).
- In three-valued logic the negation of a predicate that matches no row of a zone of nulls is reported as matching every
  row, and matches none (`PruningSound.NegatedNullsClaimAll`). Zones are still skipped only when no row matches, and
  AllMatch holds exactly when the predicate is null for no row (`PruningSound.PrunedZonesLoseNothing`).
- Decimal columns cluster by their little-endian bytes, not by value (`ClusterMeaning.DecimalsGoByBytes`,
  `ClusterMeaning.ClusteredTable`).

## Model

| member | source | states |
|---|---|---|
| `CanonicalIdentity.CanonicalFormIsIdentity` | v1/crates/cove-core/src/canonical.rs:58-109 | (tag, canonical bytes) of two encodable values are equal exactly when the values mean the same: integers by value whatever their width, structs as maps from ids, maps as maps from keys, at every depth; which bytes these are is `CanonicalDecode.EncodedReadsBack` |
| `CanonicalIdentity.TaggedEncodingsArePrefixFree` | v1/crates/cove-core/src/canonical.rs:328-342 | equal concatenations of a tagged encoding and a rest have equal rests and values of one meaning, so no tagged encoding is a proper prefix of another |
| `CanonicalDecode.EncodedReadsBack` | v1/crates/cove-core/src/canonical.rs:58-149 | a reader built from the tag numbers, little-endian numbers and two's complement, which knows nothing of the encoder, finds in the bytes of an encoded value exactly what it means, at any nesting, and stops at its end whatever follows |
| `CanonicalDecode.FixedReadsAlone` | v1/crates/cove-core/src/canonical.rs:58-149 | every fixed-width scalar: the payload has the width of its tag and its bytes read as its value, integers and decimals by the sign bit of the last byte |
| `CanonicalDecode.TaggedSays` | v1/crates/cove-core/src/canonical.rs:328-342 | in front of anything, a tagged encoding says what its value means |
| `CanonicalDecode.TopBit` | v1/crates/cove-core/src/canonical.rs:124-149 | the top bit of the last byte decides the sign of a little-endian number |
| `CanonicalAcceptance.PayloadAccepted` | v1/crates/cove-core/src/canonical.rs:151-267 | what the encoder writes passes the validator, which uses exactly its bytes whatever follows (well-formed JSON text assumed) |
| `CanonicalJson.ValidatorAcceptsExactly` | v1/crates/cove-core/src/canonical.rs:114-122 | an encoded value passes the validator exactly when all JSON text in it, at any depth, is well formed; the encoder itself does not look at it |
| `CanonicalJson.EmptyTextIsEncoded` | v1/crates/cove-core/src/canonical.rs:190-196 | the empty text is written as JSON and then refused by the validator |
| `CanonicalLocality.TaggedLocal` | v1/crates/cove-core/src/canonical.rs:151-162 | what the validator accepts at the front of some bytes does not depend on the bytes behind |
| `CanonicalLocality.WholeMeansAnywhere` | v1/crates/cove-core/src/canonical.rs:151-162 | bytes are one whole tagged value to the validator exactly when it reads them so in front of anything |
| `CanonicalLocality.UniqueSplit` | v1/crates/cove-core/src/canonical.rs:151-162 | the byte strings the validator takes as one whole tagged value, not only the encoder's, are prefix-free |
| `CanonicalReach.CanonicalExactly` | v1/crates/cove-core/src/canonical.rs:89-122 | for a JSON check that takes only strings: a payload is accepted and has all its lengths, counts, tags and field ids in shortest form, exactly when it is the encoding of a value with well-formed JSON |
| `CanonicalReach.PayloadReached` | v1/crates/cove-core/src/canonical.rs:89-122 | every accepted payload with shortest varints is the encoding of some value: the encoder misses none |
| `CanonicalMinimal.EncodedIsMinimal` | v1/crates/cove-core/src/canonical.rs:89-109 | whatever the encoder writes has its varints in shortest form, at every depth |
| `CanonicalMinimal.ShortestIsEncoding` | v1/crates/cove-core/src/canonical.rs:278-280 | a varint ends in a non-empty group, or is a single one, exactly when it is the encoding of its value |
| `CanonicalFailures.EncodesExactlyWhenEncodable` | v1/crates/cove-core/src/canonical.rs:89-109 | encoding fails exactly on an integer too wide for its width, a repeated field id, a nested map key or a repeated map key, at any depth |
| `CanonicalFailures.ValidatorTakesOverlongPrefix` | v1/crates/cove-core/src/canonical.rs:278-295 | an input that is accepted and that no value encodes to: a length prefix in two bytes instead of one |
| `CanonicalOrder.StructRows` | v1/crates/cove-core/src/canonical.rs:378-396 | an encoded struct lists its fields once each, ids strictly ascending, and ids of an encodable struct are distinct |
| `CanonicalOrder.MapPairs` | v1/crates/cove-core/src/canonical.rs:344-365 | an encoded map lists its entries once each, key bytes strictly ascending |
| `CanonicalLoops.CanonicalizeList` | v1/crates/cove-core/src/canonical.rs:369-376 | the list loop writes the count and the tagged elements in order |
| `CanonicalLoops.HasDuplicateIds` | v1/crates/cove-core/src/canonical.rs:381-387 | the neighbour scan finds exactly the equal neighbouring ids |
| `CanonicalLoops.SortEncodes` | v1/crates/cove-core/src/canonical.rs:378-396 | sorting fields and encoding them is encoding them and sorting |
| `CanonicalLoops.CanonicalizeStruct` | v1/crates/cove-core/src/canonical.rs:378-396 | sort, duplicate scan and write loop compute the canonical struct payload, with the error of the first failing step |
| `CanonicalLoops.CanonicalizeMapEntries` | v1/crates/cove-core/src/canonical.rs:344-365 | the map loop gives the encoded entries in key order, or the first error |
| `CanonicalLoops.CanonicalizeMap` | v1/crates/cove-core/src/canonical.rs:398-409 | the map writer computes the canonical map payload |
| `CanonicalLoops.ValidatePayloadInner` | v1/crates/cove-core/src/canonical.rs:164-267 | the validator with its moving `pos` and `prev_key` computes the recursive byte grammar the lemmas are about |
| `CanonicalLoops.ScanFields` | v1/crates/cove-core/src/canonical.rs:206-226 | the struct loop continues the grammar from any position, ids strictly ascending |
| `CanonicalLoops.ScanEntries` | v1/crates/cove-core/src/canonical.rs:227-265 | the map loop continues the grammar from any position, keys scalar and strictly ascending |
| `CanonicalLoops.ValidateTaggedValue` | v1/crates/cove-core/src/canonical.rs:151-162 | tag byte pair, then payload |
| `Wire.LebRoundTrip` | v1/crates/cove-core/src/wire.rs:6-62 | decoding an unsigned LEB128 encoding gives the value back and stops behind it, whatever follows; at most ten bytes |
| `Wire.AppendU64Leb128` | v1/crates/cove-core/src/wire.rs:6-19 | the write loop emits the seven-bit groups of the value |
| `Wire.DecodeU64Leb128` | v1/crates/cove-core/src/wire.rs:30-62 | the loop that ORs shifted groups computes the group-wise decoder, with its overflow and truncation errors; overlong forms pass |
| `Wire.LebInjective` | v1/crates/cove-core/src/wire.rs:6-19 | different values have different encodings |
| `NextPermutation.Next` | v1/crates/cove-conformance/src/main.rs:2761-2781 | true: the array now holds the immediate lexicographic successor among its rearrangements; false: it held a non-increasing arrangement and now holds the first one |
| `NextPermutation.TailSuccessor` | v1/crates/cove-conformance/src/main.rs:2773-2780 | swapping the pivot with the last larger element and reversing the tail is the successor step |
| `NextPermutation.LastArrangement` | v1/crates/cove-conformance/src/main.rs:2761-2781 | non-increasing means exactly that no rearrangement is greater |
| `NextPermutation.ReverseFrom` | v1/crates/cove-conformance/src/main.rs:2779-2779 | the in-place reversal of a suffix |
| `ReorderInvariance.EvaluateReorderInvariant` | v1/crates/cove-conformance/src/main.rs:2701-2738 | Ok exactly when there are operands and every one of their orderings folds to the same outcome; every ordering is tried exactly once before Ok; the result is that of the declared order |
| `ReorderInvariance.FoldInOrder` | v1/crates/cove-conformance/src/main.rs:2740-2757 | the left fold, stopping at the first failing operand |
| `ReorderInvariance.FoldOutcome` | v1/crates/cove-conformance/src/main.rs:2740-2757 | a fold succeeds exactly when every operand does, in any order |
| `PruningOrders.OrderFreeExactly` | v1/crates/cove-core/src/pruning.rs:92-114 | an AND or OR passes the checker exactly when some operand carries evidence or all outcomes are equal: explanations without steps are dropped, outcome and all |
| `PruningOrders.FoldKeepsTop` | v1/crates/cove-core/src/pruning.rs:92-114 | a fold keeps the highest outcome among the operands with evidence, or the last operand when none has any |
| `PruningQueries.QueriesAreOrderFree` | v1/crates/cove-conformance/src/main.rs:2503-2738 | of what the checker can receive, nested to any depth, an AND or OR passes exactly when each operand can be explained |
| `PruningQueries.EveryQueryHasEvidence` | v1/crates/cove-core/src/pruning.rs:929-938 | every explained predicate carries a step, through NOT, AND and OR |
| `PruningQueries.StepsAreNeeded` | v1/crates/cove-core/src/pruning.rs:92-114 | two step-less explanations, made by hand, whose AND and OR depend on the order |
| `PruningSound.PrunedZonesLoseNothing` | v1/crates/cove-core/src/predicate.rs:14-70 | in SQL's three-valued logic, for predicates nested to any depth whose leaves are right about a zone: NoMatch means that no row of the zone satisfies the predicate, so skipping it loses nothing; AllMatch means that no row fails it, and that all satisfy it exactly when it is null for none |
| `PruningSound.NegatedNullsClaimAll` | v1/crates/cove-core/src/predicate.rs:60-69 | the negation of a comparison over a zone of nulls comes out as AllMatch although no row satisfies it |
| `PruningSound.FoldSound` | v1/crates/cove-conformance/src/main.rs:2670-2691 | a fold of explained operands keeps what its outcome claims about a row |
| `BitScan.SetBitsExact` | v1/crates/cove-arrow/src/arrow.rs:154-195 | clearing the lowest set bit until the word is zero visits each set bit once, in ascending order, and as many as the population count |
| `BitScan.ClearLowest` | v1/crates/cove-arrow/src/arrow.rs:186-189 | `word & (word - 1)` clears exactly the lowest set bit |
| `BitScan.MaskedBits` | v1/crates/cove-arrow/src/arrow/selection_utils.rs:22-29 | the tail mask keeps the bits below `len` and clears the others |
| `Selection.BitRowsExact` | v1/crates/cove-arrow/src/arrow.rs:154-195 | the bitset traversal visits exactly the set rows below `len`, ascending, once each |
| `Selection.BitsetRows` | v1/crates/cove-arrow/src/arrow.rs:154-195 | the nested loops with word-wise clearing compute that traversal and terminate |
| `Selection.ToRows` | v1/crates/cove-arrow/src/arrow.rs:154-204 | for_each_row in its three forms, with its range and length errors |
| `Selection.SelectionMeans` | v1/crates/cove-arrow/src/arrow.rs:154-204 | a row list is taken exactly when its rows are rows of the page, and then as it is; a bitset exactly when it is as long as the page and its words hold it, and then as the rows whose bit is set |
| `Selection.CountBitsetRows` | v1/crates/cove-arrow/src/arrow/selection_utils.rs:3-20 | counting by population count is counting the visited rows |
| `Selection.LastSelectedBitsetRow` | v1/crates/cove-arrow/src/arrow.rs:2329-2341 | the result is the greatest selected row below `len`, none exactly when no row is selected |
| `BitPacking.SetPackedBit` | v1/crates/cove-arrow/src/arrow.rs:769-772 | OR-ing one bit sets that bit and no other |
| `BitPacking.BytesFromBits` | v1/crates/cove-arrow/src/arrow.rs:769-772 | buffers with the same bits are the same buffer |
| `BitPacking.ArrowValidityBuilder.Append` | v1/crates/cove-arrow/src/arrow.rs:791-799 | appends one validity bit; the bytes, position and null count stay those of the appended flags |
| `BitPacking.ArrowValidityBuilder.Finish` | v1/crates/cove-arrow/src/arrow.rs:801-813 | no buffer without nulls; otherwise the packed bits with a null count equal to the zero bits |
| `BitPacking.NullsReadBack` | v1/crates/cove-arrow/src/arrow.rs:774-814 | bit by bit, the finished buffer holds the appended flags |
| `Validity.NullCount` | v1/crates/cove-core/src/validity.rs:99-128 | the word-wise population count, its masked tail word included |
| `Validity.NullCountExact` | v1/crates/cove-core/src/validity.rs:99-128 | the count is the number of null rows exactly when no padding bit exposed by the tail mask is set, and never less |
| `Validity.ExposedPadding` | v1/crates/cove-core/src/validity.rs:115-126 | padding bits are counted only when 57 to 63 rows are left for the last word |
| `Validity.PaddingCounted` | v1/crates/cove-core/src/validity.rs:115-126 | a 60-row bitmap without a null row whose count is not zero |
| `Utf8.ValidateUtf8OffsetsSlice` | v1/crates/cove-arrow/src/arrow.rs:1461-1487 | the boundary loop and the whole-buffer check accept, for offsets from 0 to the length that never decrease, exactly when every row slice is valid UTF-8 |
| `Utf8.ConcatenatedCheckIsRowwise` | v1/crates/cove-arrow/src/arrow.rs:1461-1487 | boundaries that start no continuation byte and one valid concatenation are row by row validity, empty rows included |
| `Utf8.ValidCut` | v1/crates/cove-arrow/src/arrow.rs:1461-1487 | a valid string may be cut wherever no continuation byte starts |
| `Utf8.AsciiIsValid` | v1/crates/cove-arrow/src/arrow.rs:1461-1487 | ASCII needs no further check |
| `Utf8Scalars.ValidExactly` | v1/crates/cove-arrow/src/arrow.rs:1461-1487 | a byte string is accepted exactly when it is a list of Unicode scalar values, each encoded by the table of section 3 of RFC 3629 |
| `Utf8Scalars.CharacterIsScalar` | v1/crates/cove-arrow/src/arrow.rs:1461-1487 | what counts as one character is the encoding of the scalar value in its bits: no surrogate, no overlong form, nothing above U+10FFFF |
| `FixedWidthExport.ExportCodes` | v1/crates/cove-arrow/src/arrow.rs:3354-3394 | NumCode export, unsigned or signed, for every selection: the slots of the selected rows in order, or the error of the first row that fails |
| `FixedWidthExport.CollectCodesRows` | v1/crates/cove-arrow/src/arrow.rs:3421-3444 | row-list export gathers the slots of its rows |
| `FixedWidthExport.CollectCodesBitset` | v1/crates/cove-arrow/src/arrow.rs:3446-3480 | bitset export gathers the slots of the set rows |
| `FixedWidthExport.CollectCodesWord` | v1/crates/cove-arrow/src/arrow.rs:3459-3478 | one word: its rows join those of the words before it |
| `FixedWidthExport.CollectCodesAll` | v1/crates/cove-arrow/src/arrow.rs:3396-3419 | whole-page export, with the block copy when there are no nulls, gathers every row |
| `FixedWidthExport.GatherAllPresent` | v1/crates/cove-arrow/src/arrow.rs:3490-3516 | without nulls the gather is the copied page, unless some signed code exceeds `i64::MAX` |
| `FixedWidthExport.BitsetExportIsRowExport` | v1/crates/cove-arrow/src/arrow.rs:3446-3575 | a bitset exports exactly what the ascending list of its rows exports |
| `FixedWidthExport.SignedExportExactly` | v1/crates/cove-arrow/src/arrow.rs:3483-3577 | the signed export is the unsigned one, and fails beyond it exactly when a selected row that is not null has a code above `i64::MAX` |
| `FixedWidthExport.GatherCells` | v1/crates/cove-arrow/src/arrow.rs:3421-3444 | a gather succeeds exactly when each of its rows does, and holds their slots in order |
| `SignedColumns.SignedValuesExport` | v1/crates/cove-arrow/src/arrow.rs:3375-3394 | on a page cut from a NumCode column the signed export succeeds, for a valid selection, exactly when no selected value that is not null is negative, and then gives the values |
| `SignedColumns.StoredNumbersExport` | v1/crates/cove-arrow/src/arrow.rs:3354-3373 | on such a page the unsigned export fails only on a bad selection and gives the stored numbers and null flags |
| `SignedColumns.NegativeIsRefused` | v1/crates/cove-arrow/src/parquet.rs:432-466 | a column holding -1: stored, paged, exported unsigned, and refused by the signed export |
| `SignedColumns.StoredReadsBack` | v1/crates/cove-arrow/src/parquet.rs:432-466 | a stored signed value reads back, and its number exceeds `i64::MAX` exactly when it is negative |
| `BooleanColumns.BooleansExport` | v1/crates/cove-arrow/src/arrow.rs:3583-3604 | on a page cut from a boolean column the export fails only on a bad selection or on a selected row, null or not, that stores neither 0 nor 1, and gives each selected row's null flag and byte |
| `BooleanExport.ExportBooleans` | v1/crates/cove-arrow/src/arrow.rs:3583-3604 | boolean export for every selection, against the same gather |
| `BooleanExport.CollectBoolRows` | v1/crates/cove-arrow/src/arrow.rs:3682-3708 | row-list form |
| `BooleanExport.CollectBoolBitset` | v1/crates/cove-arrow/src/arrow.rs:3710-3749 | bitset form: the same slots as the list of the set rows |
| `BooleanExport.CollectBoolAll` | v1/crates/cove-arrow/src/arrow.rs:3644-3680 | whole-page form: sixteen rows at a time, then the tail; an error exactly on a byte other than 0 and 1 |
| `BooleanExport.PackBoolChunk8` | v1/crates/cove-arrow/src/arrow.rs:3616-3630 | one comparison of the OR of eight bytes checks them all; bit j of the result is byte j |
| `BooleanExport.PackBoolChunk16` | v1/crates/cove-arrow/src/arrow.rs:3633-3642 | the 16-bit word holds the first eight rows in its low byte |
| `BooleanExport.GatherAllBooleans` | v1/crates/cove-arrow/src/arrow.rs:3644-3680 | without nulls the gather reads the bytes as booleans or fails |
| `RawCopy.CopySmallValue` | v1/crates/cove-arrow/src/arrow.rs:1578-1617 | up to sixteen bytes, by overlapping stores: the destination holds the source bytes in place and is untouched elsewhere |
| `RawCopy.CopyValue` | v1/crates/cove-arrow/src/arrow.rs:1504-1519 | the same for any length |
| `RawCopy.CopySmallValueMask` | v1/crates/cove-arrow/src/arrow.rs:1621-1671 | same bytes, and the mask is nonzero exactly when some byte is at least 0x80 |
| `RawCopy.CopyValueMask` | v1/crates/cove-arrow/src/arrow.rs:1521-1557 | the same for any length |
| `RawCopy.CopyWordwise` | v1/crates/cove-arrow/src/arrow.rs:1536-1557 | the eight-byte loop with its tail |
| `RawCopy.AsciiHighBitMask` | v1/crates/cove-arrow/src/arrow.rs:1560-1575 | the test without the copy |
| `RawCopy.MaskTest` | v1/crates/cove-arrow/src/arrow.rs:1560-1575 | a little-endian word passes the mask exactly when all its bytes are ASCII |
| `RawCopy.SpliceTwice` | v1/crates/cove-arrow/src/arrow.rs:1578-1617 | two overlapping stores of one run leave the run |
| `RawCopy.HighBitsValues` | v1/crates/cove-arrow/src/arrow.rs:1621-1671 | the masks are the constants the code compares with |
| `VarBytes.ParseRanges` | v1/crates/cove-arrow/src/arrow.rs:1732-1751 | the loop frames every record and refuses trailing bytes |
| `VarBytes.FramesExactly` | v1/crates/cove-arrow/src/arrow.rs:1732-1751 | a u32-prefixed page parses exactly when it is written from that many records, which are then unique |
| `VarBytes.FramesOfPage` | v1/crates/cove-arrow/src/arrow.rs:1240-1261 | reading a written page gives its records back, whatever follows |
| `VarBytes.PageOfFrames` | v1/crates/cove-arrow/src/arrow.rs:1240-1261 | a page that frames is the page written from its records |
| `VarBytes.ColumnReadsBack` | v1/crates/cove-arrow/src/arrow.rs:1893-1942 | offsets are prefix sums and values the concatenation: slot i reads back as it was gathered |
| `VarBytes.SelectionGathersColumn` | v1/crates/cove-arrow/src/arrow.rs:2145-2227 | a selected export is a gather of the whole export, slot by slot |
| `StringPages.ExportHoldsRows` | v1/crates/cove-arrow/src/arrow.rs:1753-1766 | an export of a page written in either layout succeeds exactly on a good selection whose bytes fit 32-bit offsets; slot i of the column is then the i-th selected row, null under its flag and its own bytes otherwise |
| `StringPages.CutPageHolds` | v1/crates/cove-arrow/src/parquet.rs:163-188 | a page the converter cuts from a column of bytes is such a page |
| `StringPages.FramesOfLebPage` | v1/crates/cove-arrow/src/arrow.rs:1263-1290 | a page written with LEB128 lengths gives its records back, whatever follows |
| `VarBytesExport.MaterializeAllRows` | v1/crates/cove-arrow/src/arrow.rs:1893-1942 | whichever of its three paths it takes, the column of the simple form |
| `VarBytesExport.MaterializeGeneric` | v1/crates/cove-arrow/src/arrow.rs:1905-1942 | the generic loop computes the simple form |
| `VarBytesExport.MaterializeNoNulls` | v1/crates/cove-arrow/src/arrow.rs:1960-2069 | the no-null entry, plain or strict, accepts the same pages as the simple form and returns the same column |
| `VarBytesExport.MaterializeOnePass` | v1/crates/cove-arrow/src/arrow.rs:1977-2069 | the loop that copies each record as it frames it, every early refusal included |
| `VarBytesExport.MaterializeFixed` | v1/crates/cove-arrow/src/arrow.rs:2071-2143 | the fixed-length path |
| `VarBytesExport.FixedU32NoNullsLen` | v1/crates/cove-arrow/src/arrow.rs:1673-1699 | a length exactly for a page of equal-length records that fill it; it fails only on a page shorter than one prefix or on overflow |
| `VarBytesExport.StrictAcceptsExactly` | v1/crates/cove-arrow/src/arrow.rs:1952-2069 | the strict path accepts exactly the pages of row_count valid UTF-8 records with nothing left over whose bytes fit 32-bit offsets |
| `VarBytesExport.RowsUtf8Columnwise` | v1/crates/cove-arrow/src/arrow.rs:2060-2062 | checking the column is checking the rows, and an ASCII column needs no check |
| `VarBytesSelection.MaterializeSelected` | v1/crates/cove-arrow/src/arrow.rs:2145-2227 | two passes, measure then copy: the gather of the selected rows |
| `VarBytesSelection.MeasureSelected` | v1/crates/cove-arrow/src/arrow.rs:2156-2170 | the first pass finds the byte total and whether a selected row is null |
| `VarBytesSelection.ForwardScan` | v1/crates/cove-arrow/src/arrow.rs:2263-2319 | the scan with its moving reader gathers the selected rows out of the frames up to the last of them |
| `VarBytesSelection.MaterializeForward` | v1/crates/cove-arrow/src/arrow.rs:2229-2319 | when it declines and what it returns otherwise |
| `VarBytesSelection.ForwardRefinesSelected` | v1/crates/cove-arrow/src/arrow.rs:2145-2319 | on every page that parse-then-gather exports, the scan declines or returns the same column |
| `VarBytesSelection.ForwardAgreesExactly` | v1/crates/cove-arrow/src/arrow.rs:2229-2319 | a scan result agrees with parse-then-gather exactly when the whole page frames and its null count can be taken |
| `VarBytesSelection.ForwardAcceptsTruncatedPage` | v1/crates/cove-arrow/src/arrow.rs:2229-2319 | a two-row page that ends behind its first record is exported by the scan and refused by parse-then-gather |
| `VarBytesSelection.ForwardIsPrefix` | v1/crates/cove-arrow/src/arrow.rs:2273-2312 | gathering within the frames of a prefix is gathering within those of the page |
| `VarBytesStrings.Materialize` | v1/crates/cove-arrow/src/arrow.rs:1753-1766 | the choice between all-rows, scan and parse |
| `VarBytesStrings.ExportedIsSelected` | v1/crates/cove-arrow/src/arrow.rs:1753-1766 | whatever the choice, a page that parse-then-gather exports is exported the same |
| `VarBytesStrings.MaterializeUtf8` | v1/crates/cove-arrow/src/arrow.rs:1768-1801 | strings: the same column, refused exactly when a row is not valid UTF-8 under the strict policy |
| `VarBytesStrings.FusedIsSeparate` | v1/crates/cove-arrow/src/arrow.rs:1774-1792 | the fused check refuses what the separate check refuses |
| `VarBytesStrings.ColumnWellFormed` | v1/crates/cove-arrow/src/arrow.rs:816-826 | every exported column has offsets from 0 to its length that never decrease |
| `DenseRemap.RemapPreservesColumn` | v1/crates/cove-arrow/src/arrow.rs:973-1037 | per selected row both forms are null or the dense key finds the entry its FileCode names; keys identify and order as FileCodes do |
| `DenseRemap.UsedExactly` | v1/crates/cove-arrow/src/arrow.rs:991-1005 | the remapped dictionary holds each used code once, ascending, and nothing else |
| `DenseRemap.CollectUsed` | v1/crates/cove-arrow/src/arrow.rs:991-999 | the first pass collects the used codes |
| `DenseRemap.CollectDenseKeys` | v1/crates/cove-arrow/src/arrow.rs:1008-1033 | the second pass writes a dense key and a validity bit per row |
| `DenseRemap.ExportRemapped` | v1/crates/cove-arrow/src/arrow.rs:973-1037 | the loops compute the remap of the selected codes, failing when a row code or an entry does; which rows the codes are of is `CodeColumns.DenseKeysOfColumn` |
| `DenseRemap.ExportRawKeys` | v1/crates/cove-arrow/src/arrow.rs:1039-1070 | the loop computes the raw form of the selected codes; which rows they are of is `CodeColumns.RawKeysOfColumn` |
| `CodeColumns.SelectedCodesOfColumn` | v1/crates/cove-arrow/src/arrow.rs:991-1064 | on a page cut from a FileCode column an export fails only on a bad selection, and reads in each selected row, in order, the FileCode of that very row of the column, or its null |
| `CodeColumns.RawKeysOfColumn` | v1/crates/cove-arrow/src/arrow.rs:1039-1070 | raw key i is the FileCode of the i-th selected row of the column, and its validity bit is clear exactly when that row is null |
| `CodeColumns.DenseKeysOfColumn` | v1/crates/cove-arrow/src/arrow.rs:973-1037 | dense key i finds the dictionary entry that the i-th selected row of the column names, and its validity bit is clear exactly when that row is null |
| `CodeColumns.RemapFailsExactly` | v1/crates/cove-arrow/src/arrow.rs:973-1005 | a remapped export of codes fails exactly when an entry that one of them names cannot be read |
| `Domain.IsSafe` | v1/crates/cove-core/src/domain.rs:236-250 | the loop, with the number of codes and the index both cut to 32 bits, decides exactly the check it spells out |
| `Domain.IsSafeExactly` | v1/crates/cove-core/src/domain.rs:236-250 | it accepts exactly the safe domains that the two cuts let pass, which below 2^32 codes and up to 2^32 table entries are all of them |
| `Domain.SafeButRefused` | v1/crates/cove-core/src/domain.rs:236-250 | a safe domain of 2^32 codes that it refuses |
| `Domain.SafeRanksOrder` | v1/crates/cove-core/src/domain.rs:222-250 | in a safe domain ranks identify FileCodes, and order them when the codes ascend |
| `Domain.FromSortedPresentCodes` | v1/crates/cove-core/src/domain.rs:264-303 | fails exactly on codes that do not ascend or exceed the dictionary, and otherwise ranks each code by its place |
| `Domain.BuiltDomainIsSafe` | v1/crates/cove-core/src/domain.rs:264-303 | a built domain is safe and ranks exactly its codes |
| `Domain.Serialize` | v1/crates/cove-core/src/domain.rs:196-217 | header, codes and ranks at their offsets |
| `Domain.Parse` | v1/crates/cove-core/src/domain.rs:132-193 | the parse loops compute the section grammar, its checks in order |
| `Domain.HeaderReadsBack` | v1/crates/cove-core/src/domain.rs:65-120 | a written header reads back with its checksum filled in |
| `DomainHeader.HeaderAcceptedExactly` | v1/crates/cove-core/src/domain.rs:65-120 | a header is accepted exactly when its 40 bytes are what the writer produces for some fields |
| `DomainHeader.DamageIsRefused` | v1/crates/cove-core/src/domain.rs:81-106 | a header whose fields or whose checksum were changed is refused, unless the changed fields have the stored checksum |
| `Domain.ParseUndoesSerialize` | v1/crates/cove-core/src/domain.rs:132-217 | parse undoes serialize exactly on domains whose codes ascend and refuses the others |
| `Domain.DescendingIsRefused` | v1/crates/cove-core/src/domain.rs:132-217 | the codes 1, 0: written, and refused when read |
| `Domain.CheckAscending` | v1/crates/cove-core/src/domain.rs:273-277 | the neighbour loop decides strict ascent |
| `DictionaryFormat.ParseDictionary` | v1/crates/cove-core/src/dictionary.rs:370-383 | accepts exactly when the view parses and every entry passes its checks; the entries are those of the index |
| `DictionaryFormat.ReparseWritten` | v1/crates/cove-core/src/dictionary.rs:370-383 | parsing the written sections gives the dictionary back when its entries are acceptable, and fails otherwise |
| `DictionaryFormat.ViewOfWritten` | v1/crates/cove-core/src/dictionary.rs:261-330 | header and entries are found at their places |
| `DictionaryEntries.PassesExactly` | v1/crates/cove-core/src/dictionary.rs:593-643 | an entry passes exactly when its range and lengths fit its storage class and it decodes to bytes canonical under its tag, or is redacted and not null |
| `DictionaryEntries.CheckedCodesDecode` | v1/crates/cove-core/src/dictionary.rs:645-667 | in a checked dictionary exactly the codes below the entry count decode, and to such values |
| `Dictionary.KeysIdentifyValues` | v1/crates/cove-core/src/dictionary.rs:428-450 | keys tell the values of one logical type apart |
| `Dictionary.LogicalKeysAccepted` | v1/crates/cove-core/src/dictionary.rs:593-643 | a key made from a column value passes the entry checks, so building cannot fail on it |
| `Dictionary.EncodingIgnoresOrder` | v1/crates/cove-core/src/dictionary.rs:463-480 | the encoding depends on the set of keys alone, not on order or repetition |
| `Dictionary.EncodingRoundTrip` | v1/crates/cove-core/src/dictionary.rs:463-496 | exactly the given keys have codes, and a code decodes to the canonical bytes of its key |
| `Dictionary.CodesAreRanks` | v1/crates/cove-core/src/dictionary.rs:463-480 | codes are the dense ranks of the keys in their order, each once |
| `Dictionary.CodeIdentified` | v1/crates/cove-core/src/dictionary.rs:463-496 | a code that decodes to a key's bytes under its tag is the key's code |
| `Dictionary.CodeDecodesToKey` | v1/crates/cove-core/src/dictionary.rs:645-667 | a FileCode decodes to its key, inline or in the payload |
| `Dictionary.PayloadTile` | v1/crates/cove-core/src/dictionary.rs:542-570 | long keys tile the payload: each byte belongs to exactly one |
| `Dictionary.PayloadSlice` | v1/crates/cove-core/src/dictionary.rs:542-570 | a long key lies where its entry says |
| `Dictionary.BuildSections` | v1/crates/cove-core/src/dictionary.rs:534-591 | the build loop writes those entries and that payload, or overflows |
| `Dictionary.CollectKeys` | v1/crates/cove-core/src/dictionary.rs:463-468 | inserting one by one into the ordered set |
| `Dictionary.BuildFromKeys` | v1/crates/cove-core/src/dictionary.rs:463-480 | the whole of `from_keys` |
| `Dictionary.CandidateLen` | v1/crates/cove-core/src/dictionary.rs:509-532 | the estimate is the exact size of header, index, payload and code column |
| `ConvertedColumns.ConvertedColumn.Reorder` | v1/crates/cove-arrow/src/parquet.rs:210-218 | values and null flags are permuted in place by one order |
| `ConvertedColumns.ConvertedColumn.ReplaceWithCodes` | v1/crates/cove-arrow/src/parquet.rs:1021-1023 | the column becomes a FileCode column; its nulls and name stay |
| `SourceColumns.AppendArray` | v1/crates/cove-arrow/src/parquet.rs:409-712 | filling a column in place from a source array: nulls where none are allowed are refused and change nothing; otherwise the rows are appended, up to the first timestamp that overflows when scaled |
| `SourceColumns.RowsAppended` | v1/crates/cove-arrow/src/parquet.rs:2342-2362 | appending an array to a column appends its rows to what the column holds: nulls, booleans, whole numbers wrapped into 64 bits in the column's unit, floats by their bits, decimals as 16 bytes, bytes as they are |
| `SourceColumns.StoredExactly` | v1/crates/cove-arrow/src/parquet.rs:562-595 | an array is stored unless a timestamp in seconds or milliseconds overflows when scaled to microseconds |
| `SourceColumns.StoredReads` | v1/crates/cove-arrow/src/parquet.rs:2095-2103 | the low bits of a stored number, as wide as its source, are the source's value in the column's unit |
| `SourceRoundTrip.SourcePagesRead` | v1/crates/cove-arrow/src/parquet.rs:409-770 | a column filled from any batches, cut into pages and decoded in bulk, gives the source's rows |
| `SourceRoundTrip.BatchesHeld` | v1/crates/cove-arrow/src/parquet.rs:409-712 | after any batches a column holds all their rows, in order |
| `Clustering.ApplyStableClustering` | v1/crates/cove-arrow/src/parquet.rs:920-972 | in place: every column reordered by the one stable order, or nothing changed and the error returned |
| `Clustering.ClusteringKeepsRows` | v1/crates/cove-arrow/src/parquet.rs:920-972 | row i of every clustered column is one source row, each source row once, in the order of the row comparison; what that order means is `ClusterMeaning.ClusteredTable` |
| `Clustering.ClusterOrderSorts` | v1/crates/cove-arrow/src/parquet.rs:830-849 | the order is a permutation sorted by the row comparison, ties in source order; what the comparison means is `ClusterMeaning.CellsOrder` |
| `Clustering.ClusterOrderUnique` | v1/crates/cove-arrow/src/parquet.rs:920-972 | there is only one such order |
| `Clustering.ClusteringTwice` | v1/crates/cove-arrow/src/parquet.rs:920-972 | clustering a clustered table moves nothing |
| `ClusterMeaning.ClusteredTable` | v1/crates/cove-arrow/src/parquet.rs:920-972 | clustered columns hold the source's rows in a new order, each row once and whole; of two rows the first cluster column in which their source values differ has the null or the smaller value first: false before true, numbers and FileCodes ascending, floats in the total order of IEEE 754, bytes by the first difference; rows that differ in none stay in source order |
| `ClusterMeaning.CellsOrder` | v1/crates/cove-arrow/src/parquet.rs:830-849 | two rows of a column compare as their source values do, and compare equal exactly when those are equal |
| `ClusterMeaning.BytesOrderExactly` | v1/crates/cove-arrow/src/parquet.rs:846-847 | the order of byte strings: the first byte that differs decides, and a proper prefix comes first |
| `ClusterMeaning.DecimalsGoByBytes` | v1/crates/cove-arrow/src/parquet.rs:847-847 | decimals cluster by their little-endian bytes and not by value: 256 before 1 |
| `Synthesis.ApplyDictionarySynthesis` | v1/crates/cove-arrow/src/parquet.rs:974-1030 | nothing changes, or exactly the chosen columns become FileCode columns whose rows decode, under their tag, to the canonical encoding of their original bytes, nulls as they were; the dictionary is built from exactly the keys of the chosen columns |
| `Synthesis.TableCodesAreRanks` | v1/crates/cove-arrow/src/parquet.rs:1002-1030 | across all synthesized columns of a table, codes compare as the keys of the original rows do |
| `Synthesis.SameKeysSameDictionary` | v1/crates/cove-arrow/src/parquet.rs:1002-1006 | tables whose chosen columns hold the same keys get the same dictionary |
| `Synthesis.MeaningGivesBytes` | v1/crates/cove-arrow/src/parquet.rs:1016-1019 | the original bytes are read back from what a code decodes to |
| `Synthesis.SelectColumns` | v1/crates/cove-arrow/src/parquet.rs:982-997 | exactly the columns the policy takes, in order; an error when some column cannot be judged |
| `Synthesis.RewriteColumn` | v1/crates/cove-arrow/src/parquet.rs:1008-1027 | one column keeps its meaning |
| `Synthesis.RewriteSelected` | v1/crates/cove-arrow/src/parquet.rs:1008-1027 | the loop rewrites the chosen columns and leaves the others |
| `Synthesis.UniqueKeys` | v1/crates/cove-arrow/src/parquet.rs:1032-1042 | the distinct keys of the rows that are not null |
| `Synthesis.PayloadLen` | v1/crates/cove-arrow/src/parquet.rs:1044-1056 | the plain size, with its overflow |
| `SynthesisSize.SynthesisShrinks` | v1/crates/cove-arrow/src/parquet.rs:982-1006 | under the size policy the dictionary and the codes of the taken columns take fewer bytes than the payloads of these columns took, for the table as a whole with its one shared dictionary |
| `SynthesisSize.TakenExactly` | v1/crates/cove-arrow/src/parquet.rs:982-997 | a column is taken by size exactly when its own dictionary and codes, written out, are smaller than its plain form, and always under the other policy |
| `SynthesisSize.SizesAreBytes` | v1/crates/cove-arrow/src/parquet.rs:157-188 | the sizes compared are the lengths of the payloads that the page writer makes of the columns |
| `SynthesisSize.CollectWeight` | v1/crates/cove-arrow/src/parquet.rs:1002-1006 | sharing keys between columns never adds to the size of the dictionary |
| `DictionaryPages.SynthesizedPageReads` | v1/crates/cove-core/src/array.rs:384-421 | a page cut from a rewritten column, read with the file's dictionary: row i is null, or the canonical encoding of the original bytes of that row, for scalar, bulk and prepared access alike |
| `DictionaryPages.RewrittenPageReads` | v1/crates/cove-core/src/array.rs:680-715 | the same for codes that stand in a transformed page or a local codebook |
| `DictionaryPages.OriginalBytesRead` | v1/crates/cove-arrow/src/parquet.rs:814-828 | what a reader finds in a row is a length and the original bytes |
| `DictionaryPages.CodesFollowBytes` | v1/crates/cove-arrow/src/parquet.rs:1002-1030 | across the rewritten columns of a table FileCodes order as the original bytes do behind their lengths, strings before binary values |
| `DictionaryPages.RemappedIsOriginal` | v1/crates/cove-arrow/src/arrow.rs:973-1037 | a remapped export of a rewritten column succeeds on every good selection, and its keys find the canonical encodings of the original rows |
| `RowLayout.BuildSegmentLayouts` | v1/crates/cove-arrow/src/parquet.rs:117-146 | the cutting loop |
| `RowLayout.SegmentsTile` | v1/crates/cove-arrow/src/parquet.rs:117-146 | segments lie end to end over all rows, numbered from 0 |
| `RowLayout.TileCovers` | v1/crates/cove-arrow/src/parquet.rs:1914-1930 | every row is covered by exactly one segment |
| `RowLayout.FindSegment` | v1/crates/cove-arrow/src/parquet.rs:1914-1930 | the search returns the first segment that covers the row |
| `RowLayout.AddressRoundTrip` | v1/crates/cove-arrow/src/parquet.rs:1867-1885 | an address (segment, morsel, row in morsel) leads back to its row, so addresses are injective |
| `RowLayout.AddressExists` | v1/crates/cove-arrow/src/parquet.rs:1867-1885 | a row has an address exactly when its place in its morsel fits 16 bits |
| `LookupIndex.BuildLookupIndex` | v1/crates/cove-arrow/src/parquet.rs:1853-1912 | fails exactly when a row that is not null has no key or no address; otherwise the entries list the rows |
| `LookupIndex.IndexAgreesWithScan` | v1/crates/cove-arrow/src/parquet.rs:1853-1912 | each key maps to the addresses of exactly the rows a scan finds, in row order, and every key found has an entry |
| `LookupIndex.UniqueExactly` | v1/crates/cove-arrow/src/parquet.rs:1887-1891 | marked unique exactly when no two rows that are not null share a key |
| `LookupIndex.PushRows` | v1/crates/cove-arrow/src/parquet.rs:1859-1886 | pushing a row appends it under its key and leaves the other keys alone |
| `SourceLookup.IndexFindsSource` | v1/crates/cove-arrow/src/parquet.rs:1853-1912 | asking the index of a column for a source value gives the addresses of exactly the rows that hold it, in row order, and nothing when none does |
| `SourceLookup.KeyMeansValue` | v1/crates/cove-arrow/src/parquet.rs:775-792 | a row has the key of a value exactly when it holds the value: booleans as 0 and 1, whole numbers wrapped into 64 bits, floats by their bits, rewritten columns by their FileCode |
| `SourceLookup.UniqueOfSource` | v1/crates/cove-arrow/src/parquet.rs:1887-1891 | the index is unique exactly when no two rows hold one source value |
| `ZoneStats.StatsAreExact` | v1/crates/cove-arrow/src/parquet.rs:1350-1391 | bounds hold for the reading of every row that is not null and are attained; distinct and run counts of the readings are exact; what a reading says of the source is `ZoneValues.ZoneBoundsOfSource` |
| `ZoneStats.RunsOf` | v1/crates/cove-arrow/src/parquet.rs:2113-2126 | the run count is the number of maximal runs |
| `ZoneStats.CountRuns` | v1/crates/cove-arrow/src/parquet.rs:2113-2126 | the loop counts them |
| `ZoneStats.CountNulls` | v1/crates/cove-arrow/src/parquet.rs:855-862 | null rows of a range |
| `ZoneValues.ZoneBoundsOfSource` | v1/crates/cove-arrow/src/parquet.rs:1298-1462 | a zone with a row that is not null has an entry; no source value of the zone lies outside its bounds and both bounds are source values of it: booleans, signed and unsigned integers of every width, dates, timestamps in their column's unit, and decimals |
| `ZoneValues.FloatBoundsOfSource` | v1/crates/cove-arrow/src/parquet.rs:1392-1426 | the same for floats, in the total order of IEEE 754, a NaN being marked instead |
| `ZoneValues.NanIsSource` | v1/crates/cove-arrow/src/parquet.rs:1392-1426 | a float zone marked as holding a NaN holds one |
| `ZoneValues.PrunedScanKeepsRow` | v1/crates/cove-arrow/src/parquet.rs:1092-1224 | a scan for a range of source values that skips every zone whose bounds rule the range out loses no row |
| `ZoneValues.ZoneCountsOfSource` | v1/crates/cove-arrow/src/parquet.rs:1125-1224 | distinct and run counts of a zone count its source values, and it is marked constant exactly when these are all equal |
| `ZoneEntries.RankBoundsHold` | v1/crates/cove-arrow/src/parquet.rs:1258-1296 | rank bounds of a FileCode zone hold and are attained, and its counts are exact |
| `ZoneEntries.ZoneRanksAreDomainRanks` | v1/crates/cove-arrow/src/parquet.rs:1058-1090 | zone ranks are the ranks of the column domain |
| `ZoneEntries.BuildColumnDomain` | v1/crates/cove-arrow/src/parquet.rs:1058-1090 | a domain over exactly the codes in use, when there are any and they are in the dictionary |
| `ZoneEntries.DomainCodes` | v1/crates/cove-arrow/src/parquet.rs:1070-1077 | the codes in use, ascending, once each |
| `ZoneEntries.EntryAdmitsItsRows` | v1/crates/cove-arrow/src/parquet.rs:1125-1224 | no entry leaves out the reading of a row of its zone, NaN included; on source values this is `ZoneValues.PrunedScanKeepsRow` |
| `ZoneEntries.EntryCountsAreExact` | v1/crates/cove-arrow/src/parquet.rs:1125-1224 | null rows and the others make up the morsel; distinct and run counts are exact for FileCode, integer, date, timestamp, decimal and boolean zones, and constant means all values equal |
| `ZoneEntries.FloatDistinctExactly` | v1/crates/cove-arrow/src/parquet.rs:1392-1426 | the distinct count of a float zone counts its values: exact exactly when no two are equal |
| `ZoneEntries.EqualFloatsCountTwice` | v1/crates/cove-arrow/src/parquet.rs:1392-1426 | a zone of two equal floats whose distinct count is 2 |
| `ZoneEntries.SegmentZones` | v1/crates/cove-arrow/src/parquet.rs:1092-1123 | the morsel loop |
| `ZoneEntries.ZonesAdmitEveryRow` | v1/crates/cove-arrow/src/parquet.rs:1092-1123 | every row that is not null lies in a morsel whose entry, if any, is listed and admits it |
| `ZoneEntries.MorselOfRow` | v1/crates/cove-arrow/src/parquet.rs:1092-1123 | the morsel of a row of a segment |
| `CompositeZones.BuildCompositeZones` | v1/crates/cove-arrow/src/parquet.rs:1742-1819 | one zone per morsel of the table, or its errors |
| `CompositeZones.GroupColumnsExactly` | v1/crates/cove-arrow/src/parquet.rs:1742-1765 | a group has its columns exactly when each of its names is that of a column with keys: the first columns of those names, in the order of the group; it fails only on a name that no column has |
| `CompositeZones.BoundKeys` | v1/crates/cove-arrow/src/parquet.rs:1780-1797 | bounds of the keys of one column are tight |
| `CompositeZones.CompositeAdmitsEveryRow` | v1/crates/cove-arrow/src/parquet.rs:1742-1819 | every row lies in exactly one zone, whose bounds hold its key |
| `RowAccess.BulkIsScalar` | v1/crates/cove-core/src/array.rs:324-382 | a bulk-decoded row is the scalar row exactly when its null flag can be read, which it always can except in a canonical column of the null type |
| `RowAccess.NullColumnNeedsItsBitmap` | v1/crates/cove-core/src/array.rs:613-645 | the exception: such a column decodes in bulk with a short bitmap, but not row by row |
| `RowFormats.StreamPageReads` | v1/crates/cove-core/src/array.rs:444-477 | row i of a page of varints, or of byte strings behind 32-bit or LEB128 lengths, is value i, found by scanning the rows before it |
| `RowFormats.SlotPageReads` | v1/crates/cove-core/src/array.rs:431-443 | row i of a page of fixed-width slots is slot i |
| `RowFormats.ConstantPageReads` | v1/crates/cove-core/src/array.rs:397-406 | every row of a constant page is its one slot |
| `RowFormats.BitPageReads` | v1/crates/cove-core/src/array.rs:386-396 | row i of a page of packed bits is bit i |
| `RowFormats.TransformedPageReads` | v1/crates/cove-core/src/array.rs:669-700 | row i of a transformed page is exactly what integer i of the decoded page stands for in a column of its physical kind |
| `RowFormats.CodebookPageReads` | v1/crates/cove-core/src/array.rs:702-715 | row i of a local codebook page is value i of what it decodes to |
| `RowAccess.DecodeOneRow` | v1/crates/cove-core/src/array.rs:384-523 | scalar access computes the row-wise specification, the scan over preceding variable-width rows included; what rows it finds is `PageRoundTrip.PageDecodesRows`, `RowFormats` and `DictionaryPages` |
| `RowAccess.DecodeAllRows` | v1/crates/cove-core/src/array.rs:343-382 | bulk access, dispatched by encoding, succeeds exactly with the row-wise specification and returns it |
| `RowAccess.CollectDecoded` | v1/crates/cove-core/src/array.rs:540-574 | pages decoded once |
| `RowAccess.CollectStream` | v1/crates/cove-core/src/array.rs:576-611 | one running position for variable-width pages |
| `RowAccess.CollectBulk` | v1/crates/cove-core/src/array.rs:525-538 | row by row |
| `RowAccess.SkipReads` | v1/crates/cove-core/src/array.rs:445-477 | a record can be skipped exactly when it can be read |
| `PreparedAccess.FindOffsets` | v1/crates/cove-core/src/array.rs:63-128 | the offset table is where the scalar scan would stand for each row |
| `PreparedAccess.Prepare` | v1/crates/cove-core/src/array.rs:150-182 | fails exactly when the page cannot be walked or decoded to its end |
| `PreparedAccess.PreparedIsScalar` | v1/crates/cove-core/src/array.rs:188-230 | prepared access is scalar access, row for row and failure for failure |
| `PreparedAccess.PreparedSelected` | v1/crates/cove-core/src/array.rs:232-241 | the selected rows, or a failure exactly when one of them fails |
| `PreparedAccess.PreparedAll` | v1/crates/cove-core/src/array.rs:243-254 | all rows |
| `Paging.EncodePageRows` | v1/crates/cove-arrow/src/parquet.rs:159-208 | the payload of a row range, each width in its own loop |
| `Paging.ValidityBytes` | v1/crates/cove-arrow/src/parquet.rs:872-881 | a bit set for every null row |
| `Paging.BuildPage` | v1/crates/cove-arrow/src/parquet.rs:722-770 | one page: bitmap when there are nulls, payload, counts |
| `Paging.PageSpecsRange` | v1/crates/cove-arrow/src/parquet.rs:705-773 | the page loop with its checks |
| `PageRoundTrip.PageDecodesRows` | v1/crates/cove-core/src/writer/scan.rs:399-450 | the bulk decode of a page is the rows it was cut from with nulls as Null; the null count is the number of nulls, and with the non-null count makes up the row count |
| `PageRoundTrip.PagingRoundTrip` | v1/crates/cove-arrow/src/parquet.rs:705-773 | the pages cut from a row range decode, concatenated, to exactly those rows |
| `PageRoundTrip.ArrayOfPage` | v1/crates/cove-core/src/writer/scan.rs:399-450 | the reader finds the right data and the right null flags |
| `PageWriter.BitmapPasses` | v1/crates/cove-core/src/writer/scan.rs:414-440 | the bitmap of a converted page passes the writer's recheck of tail bits and population count |
| `PageWriter.PackedTailClear` | v1/crates/cove-core/src/writer/scan.rs:426-432 | packed flags leave the bits that stand for no row clear |
| `PageWriter.PackedOnes` | v1/crates/cove-core/src/writer/scan.rs:433-439 | packed flags have as many ones as there are nulls |
| `PageWriter.PaddingMaskIsComplement` | v1/crates/cove-core/src/writer/scan.rs:428-429 | the tail mask is the complement of the low bits |
| `NullBitmaps.BitmapAcceptedExactly` | v1/crates/cove-core/src/writer/scan.rs:414-440 | the writer lets a null bitmap through exactly when it is the packing of one flag per row of which as many are set as the page says |
| `NullBitmaps.TailClearExactly` | v1/crates/cove-core/src/writer/scan.rs:426-432 | the check of the last byte passes exactly when every bit behind the last row is clear |
| `NullBitmaps.FlagsSayNulls` | v1/crates/cove-arrow/src/parquet.rs:741-766 | a page is marked as all non-null, or all null, exactly when its rows are |
| `Durable.InitInv` | v1/crates/cove-core/src/durable.rs:197-219 | the invariant holds before any publisher starts |
| `DurableSteps.StepInv` | v1/crates/cove-core/src/durable.rs:197-219 | every step of every publisher, every failure and every crash keeps the invariant |
| `DurableSafety.PublishIsAtomic` | v1/crates/cove-core/src/durable.rs:197-219 | after any interleaving of publishers, failures and crashes the final path holds the old content or one publisher's whole payload |
| `DurableSafety.NoRenameNoChange` | v1/crates/cove-core/src/durable.rs:197-219 | without a rename the old content stays, crashes included |
| `DurableSafety.OnlyRenameMovesFinal` | v1/crates/cove-core/src/durable.rs:197-219 | no step but a rename or a crash changes what the final path holds |
| `DurableSafety.OkMeansDurable` | v1/crates/cove-core/src/durable.rs:203-211 | once a publisher has returned Ok, every later state, after crashes too, has its payload or that of one that renamed after it |
| `DurableSafety.CleanupRemovesOwn` | v1/crates/cove-core/src/durable.rs:214-216 | cleanup removes nothing but the publisher's own temporary file |
| `DurableSafety.CollisionRemovesOthersFile` | v1/crates/cove-core/src/durable.rs:197-219 | from every state with two idle publishers of one free name: the one that finds the name taken cleans up the other's file |
| `DurableSharing.CleanupIsSafeExactly` | v1/crates/cove-core/src/durable.rs:197-219 | from any start, cleanup never removes another publisher's file, in any run, exactly when no two publishers share a temporary name |
| `DurableSharing.SharedNamesTear` | v1/crates/cove-core/src/durable.rs:197-219 | any three publishers that share a temporary name have a run that leaves neither the old content nor anyone's payload at the final path |
| `DurablePairs.SharingTearsExactly` | v1/crates/cove-core/src/durable.rs:197-219 | from any start, every run keeps the final path whole exactly when no three publishers share a temporary name |
| `DurablePairs.StepPair` | v1/crates/cove-core/src/durable.rs:197-219 | with at most two sharers of a name, every step, failure and crash keeps the weaker invariant |
| `DurablePublish.TempNamesDiffer` | v1/crates/cove-core/src/durable.rs:76-86 | temporary names differ when process, time or counter do, and are never the final name |
| `DurablePublish.TempCounter.TempPathFor` | v1/crates/cove-core/src/durable.rs:76-86 | a name this process has not given out, until the counter wraps |
| `DurablePublish.Disk.WriteNewFile` | v1/crates/cove-core/src/durable.rs:159-163 | fails exactly on a taken name or a failing create or write; the final path stays |
| `DurablePublish.Disk.SyncFile` | v1/crates/cove-core/src/durable.rs:165-172 | moves on exactly when the sync succeeds; the final path stays |
| `DurablePublish.Disk.RenameFile` | v1/crates/cove-core/src/durable.rs:174-176 | after it the final path holds the payload and the temporary name is gone |
| `DurablePublish.Disk.SyncParentDir` | v1/crates/cove-core/src/durable.rs:183-194 | the step after which the rename outlives a crash |
| `DurablePublish.Disk.RemoveFile` | v1/crates/cove-core/src/durable.rs:178-181 | frees the temporary name, or ignores its own failure |
| `DurablePublish.Disk.DurableReplace` | v1/crates/cove-core/src/durable.rs:197-219 | Ok exactly when the name is free and no step fails; the final path holds the new content exactly when the rename was reached and done, even if the directory sync then fails; the temporary name is gone unless its removal fails |

## Left out

- PageRoundTrip.PagingRoundTrip: holds for columns whose page encoding is the one the converter gives to their values (`WellTyped`).
- RowAccess.BulkIsScalar: numeric cascades and local codebooks are one function from a payload to values; their payload formats and encoders are not modelled.
- RowAccess.DecodeAllRows: where a page is wrong in several ways, the error may be another one than the row-wise specification reports.
- VarBytesExport.MaterializeAllRows: the same holds for its errors.
- ZoneEntries.SegmentZones: the overflow of the morsel counter at 2^32 morsels in one segment is not modelled; the bounds are numbers, and their byte form in `StatScalar` is not.
- PruningQueries.QueriesAreOrderFree: what a leaf predicate finds in the zone statistics and indexes is a parameter, one recorded step or an error; the outcome rules of each index are not modelled, and `PruningSound` takes them to be right about the zone.
- ZoneEntries.EntryAdmitsItsRows: boolean zones count distinct values and runs over the raw bytes, as the code does; bounds are over truth values.
- SourceColumns.AppendArray: the JSON text of a nested value is a parameter, so its encoding never fails; an array of the wrong Arrow type is not modelled.
- SynthesisSize.SynthesisShrinks: sizes are those of payloads, index and dictionary; null bitmaps, page headers and compression are not counted, as in the code.
- DomainHeader.DamageIsRefused: that CRC32C tells particular damages apart is not modelled.
- CompositeZones.BuildCompositeZones: the entries are records, not the bytes the code appends; a zone's start is kept modulo 2^32, as the code cuts it.
- LookupIndex.BuildLookupIndex: the header fields that are constant zero are not modelled.
- DurableSafety.PublishIsAtomic: the backend steps are atomic events over a directory of which each name may come back from a crash as any state since the last directory sync; unsynced file content comes back arbitrary.
- DurablePublish.Disk.DurableReplace: one call without interference; interleavings are the subject of `DurableSafety`. `durable_replace_with_writer` is the same protocol with the writer's bytes as payload.
- DurablePublish.TempCounter.TempPathFor: `TEMP_COUNTER` is not followed past its wrap-around.
- VarBytesStrings.MaterializeUtf8: view arrays, dictionary arrays and the choice of array type are not modelled.
- The Windows rename and its directory sync that does nothing.
- Arrow and Parquet library types, downcasts and record batches; alignment, retained buffers and `unsafe` lifetimes: raw copies are array writes within bounds.
- LZ4, Zstd, SHA-256, BLAKE3 and CRC32C.
- Bloom filters, exact sets, aggregates and top-N summaries: they would add members of the same kind as the lookup index and the zones.
- File headers, section digests, collation tables and error enumerations: fixed layouts that would only add easy round trips.
- The other conformance fixtures, command-line tools, benchmarks and scripts.
