# Verified models of the PiglorOS conformance tooling

PiglorOS ships independent generators and checkers beside its kernel. They fix the byte formats the
kernel must meet, hash them, compute the calibration metrics a second time, mask Rust sources before
policy checks, walk reference and build graphs, assemble the conformance catalog, and compare
benchmark evidence. This project states in Dafny what that code computes and proves what it is relied
on for. `dafny verify dfyconfig.toml` checks all of it.

Code that advances a cursor, fills a table or drives a worklist is modelled by methods with loops or
by classes with fields (`Reader`, `Scanner`, `ReferenceInspector`). Each is proved against a function
or a predicate, and the results below are about those. Exact fractions are `real`; Python and Rust
integers are `int` and `nat`, with 64-bit limits written out where they matter. Text is held as UTF-8
bytes in the binary formats and as `string` in the source scanner.

| file | contents |
|---|---|
| `Cbor`, `CborLayout`, `LooseDecoder`, `CanonicalMaps` | deterministic CBOR (section 4.2.1 of RFC 8949), its bytes, its strict and its lenient reader, map key order |
| `Reading`, `MetricInputs`, `Utf8Text` | the cursor with failure coordinates; the `MTI1` record and its two-pass decoder; UTF-8 (section 3 of RFC 3629) |
| `Rounding`, `Metrics`, `MetricLaws`, `MetricResults`, `MetricMeanings` | round half to even; the nine metrics by closed formulas and by definition; their inequalities and ranges; the `MTR1` record; what its numbers count |
| `Quantization`, `QuantizationRecords` | binary64 bit patterns to millionths (section 3.4 of IEEE 754-2019); the `MTQ1` record |
| `Blake3`, `HashLayout` | the chunk stack, the tree and the extendable output of BLAKE3 over any compression function; the bytes and flags each node is given |
| `Masker`, `MaskGrammar` | the Rust source scanner; the lexical grammar that determines it |
| `References`, `Groups`, `Features`, `Notices` | the four graph walks |
| `Catalog`, `Providers`, `Sources` | the conformance build script |
| `Replay`, `Ulid` | replay streams, their digest preimage, ULID text |
| `Baselines`, `Comparisons` | benchmark samples, baseline selection, the displayed change |
| `Sums`, `Sorting`, `Commons` | shared facts about sequences, shared definitions |

## Main results

* A byte string is skipped as one item exactly when it is the encoding of a value within the nesting
  cap. Hence `MTI1` and `MTQ1` decoding succeeds on exactly the canonical encodings of valid records
  and returns the record; every failure has an admissible coordinate, and once the structure is sound
  the second pass can only fail on a field's type or value.
* The nine closed metric formulas equal the definitions before rounding, for every non-empty list of
  scored records. They lie in their ranges, so the sealed result always fits its 1024 bytes. They do
  not depend on record order or on records that are not scored.
* `quantize` accepts exactly the patterns of [0, 1] and negative zero, rounds to the nearest
  millionth with ties to even, and is monotone.
* The incremental BLAKE3 stack computes the recursive left-full tree, keyed or not, and the output is
  one stream that can be read at any offset.
* Masking Rust source keeps length and line structure and is idempotent. It hides
  strings, raw strings with quotes in them, character literals with escapes, and comments, doc and
  nested comments included, each to its own end and no further, and keeps every word and character
  that is none of these: a grammar over characters alone determines the masked text.
* The reference inspector accepts exactly when no bad file, bad reference, file cycle or alias cycle
  is reachable, and then every reachable reference is local or ends in a full revision or digest; group expansion fails exactly when a cycle or an unknown group is reachable; the
  feature closure is the least closed set; a report narrowed to the gateway stays clean.
* The catalog's passes agree on every number; fixtures are partitioned among providers; retained
  sources are bounded however files change.
* The result preimage is injective up to payload hashes; ULID text round-trips and sorts; the
  length-first key order agrees with the bytewise order on a pair of keys exactly when the shorter
  one is not of the higher major type, hence on all text keys.
* Benchmark parsing ignores row order; the selected baseline is the newest valid one; the displayed
  percentage decides the warning except in two exactly described cases at +10.00%.

## Model

| member | source | states |
|---|---|---|
| `Cbor.FromToBigEndian` | scripts/generate_metric_conformance_fixtures.py:160-167 | a value that fits its width is read back from its big-endian bytes |
| `Cbor.ToFromBigEndian` | scripts/generate_metric_conformance_fixtures.py:302-319 | bytes read as a number are the big-endian form of that number, which fits their width |
| `Cbor.PreferredWidth` | scripts/generate_metric_conformance_fixtures.py:160-167 | a width is the one the encoder picks exactly when the argument is at least the least preferred one and fits |
| `Cbor.HeadIsRead` | scripts/generate_metric_conformance_fixtures.py:302-319 | the shortest head of any argument is read back, wherever it stands |
| `Cbor.ReadIsHead` | scripts/generate_metric_conformance_fixtures.py:302-319 | an accepted head is the shortest head of what it was read as |
| `Cbor.ReadItemSound` | scripts/generate_metric_conformance_fixtures.py:375-386 | an accepted item is the encoding of an encodable value within the nesting cap, and ends where that encoding ends |
| `Cbor.ReadItemComplete` | scripts/generate_metric_conformance_fixtures.py:375-386 | the encoding of any encodable value within the cap is accepted as that value |
| `Cbor.SpanIsReadIffEncoding` | scripts/generate_metric_conformance_fixtures.py:375-386 | a span is consumed at a level if and only if it encodes some value that fits that level |
| `Cbor.EncodingsAreSelfDelimiting` | scripts/generate_metric_conformance_fixtures.py:170-188 | for all encodable values, nested to any depth: equal strings that start with two encodings start with one encoding of one value |
| `Cbor.BadPathIsShallow` | scripts/generate_metric_conformance_fixtures.py:375-386 | the index path of a failure is never deeper than the nesting cap allows |
| `CborLayout.HeadIff` | scripts/generate_metric_conformance_fixtures.py:160-167 | a string is the head the encoder writes if and only if it says its major type and argument as the format defines and no shorter head says them |
| `CborLayout.EncodingIs` | scripts/generate_metric_conformance_fixtures.py:170-188 | every value is a shortest head, of the major type of its kind and with its argument, and then its content |
| `CborLayout.LessIff` | scripts/generate_replay_conformance_fixtures.py:185-193 | the byte order is that of the first difference, a prefix coming before what it starts |
| `LooseDecoder.ItemAgrees` | scripts/generate_metric_conformance_fixtures.py:1970-1999 | what the strict reader accepts, with texts that are UTF-8, the lenient decoder decodes alike |
| `LooseDecoder.DecodeInvertsEnc` | scripts/generate_metric_conformance_fixtures.py:1962-1999 | the lenient decoder inverts the encoder |
| `LooseDecoder.DecodedIsStrictIff` | scripts/generate_metric_conformance_fixtures.py:1962-1999 | a string the lenient decoder accepts is accepted by the strict reader as the same value if and only if every head the walk meets has the preferred width |
| `LooseDecoder.AcceptedIsWhole` | scripts/generate_metric_conformance_fixtures.py:1962-1999 | bytes appended to an accepted string change nothing of what is read: nothing accepted was cut short |
| `LooseDecoder.LenientCases` | scripts/generate_metric_conformance_fixtures.py:1970-1999 | an overlong head decodes, and the strict reader refuses it; an item cut short decodes inside the walk, and the whole-string decoder refuses it |
| `CanonicalMaps.HeadsAscend` | scripts/generate_replay_conformance_fixtures.py:175-198 | a smaller argument has a bytewise smaller and no longer head, whatever follows |
| `CanonicalMaps.OrdersAgreeIff` | scripts/generate_replay_conformance_fixtures.py:185-193 | for any two keys that are not arrays, the two orders agree on them if and only if the shorter encoding is not of the higher major type |
| `CanonicalMaps.LengthFirstIsBytewise` | scripts/generate_replay_conformance_fixtures.py:185-193 | for all text keys, comparing by length and then bytes is comparing by bytes |
| `CanonicalMaps.SortsAgree` | scripts/generate_replay_conformance_fixtures.py:185-193 | any list of text keys sorts to one list either way |
| `CanonicalMaps.InsertionOrderIsIrrelevant` | scripts/generate_replay_conformance_fixtures.py:185-193 | a map with distinct keys is encoded alike whatever the order in which its pairs were put in |
| `CanonicalMaps.MapsEncodeAlikeIff` | scripts/generate_replay_conformance_fixtures.py:185-193 | two maps, the first with distinct keys, have one encoding if and only if they hold the same pairs |
| `CanonicalMaps.OrdersDifferOnIntegers` | scripts/generate_replay_conformance_fixtures.py:185-193 | keys of different major type can part the orders: -1 comes before 24 by length and after it bytewise |
| `Reading.Reader.constructor` | scripts/generate_metric_conformance_fixtures.py:291-293 | a reader starts at the first byte |
| `Reading.Reader.Take` | scripts/generate_metric_conformance_fixtures.py:295-300 | the next bytes, or a failure at the given coordinate that moves nothing |
| `Reading.Reader.ReadHeadAt` | scripts/generate_metric_conformance_fixtures.py:302-319 | reads exactly the shortest heads and moves past them |
| `Reading.Reader.Uint` | scripts/generate_metric_conformance_fixtures.py:321-325 | reads an unsigned integer or fails at the coordinate |
| `Reading.Reader.TextString` | scripts/generate_metric_conformance_fixtures.py:327-331 | reads the bytes of a text string or fails |
| `Reading.Reader.Array` | scripts/generate_metric_conformance_fixtures.py:333-337 | reads the length of an array or fails |
| `Reading.Reader.UintOrNull` | scripts/generate_metric_conformance_fixtures.py:339-345 | reads an unsigned integer or null |
| `Reading.Reader.Boolean` | scripts/generate_metric_conformance_fixtures.py:347-351 | reads a boolean |
| `Reading.Reader.Finish` | scripts/generate_metric_conformance_fixtures.py:353-355 | fails at `trailing` unless all bytes are read |
| `Reading.Reader.SkipItem` | scripts/generate_metric_conformance_fixtures.py:375-386 | skips exactly what the item reader accepts; a failure names the nested item by its indices |
| `Reading.TypedReadsAgree` | scripts/generate_metric_conformance_fixtures.py:321-351 | on an encoded value each typed read yields that value, or the same failure as looking at the value |
| `MetricInputs.StructureIsEncoding` | scripts/generate_metric_conformance_fixtures.py:389-412 | the structural pass accepts a string if and only if it encodes an array of seven fields and an array of six-field records, within the nesting cap |
| `MetricInputs.RecordIffCanonical` | scripts/generate_metric_conformance_fixtures.py:440-476 | a record is accepted if and only if it is the value of a valid record whose ID follows the previous one |
| `MetricInputs.HeaderIffCanonical` | scripts/generate_metric_conformance_fixtures.py:415-439 | the header is accepted if and only if it is the canonical header with the record count of the array |
| `MetricInputs.DecodeIffCanonical` | scripts/generate_metric_conformance_fixtures.py:247-273 | decoding yields an input if and only if the input is valid and the string is its encoding |
| `MetricInputs.PassRefinesInterpret` | scripts/generate_metric_conformance_fixtures.py:415-478 | after a sound structure, the pass over the bytes is the interpretation of the decoded values: it cannot run out of bytes or meet a misplaced array |
| `MetricInputs.HeaderFirstFailure` | scripts/generate_metric_conformance_fixtures.py:415-439 | a header failure is reported at a field if and only if that field is the first bad one; at `records` if and only if only the count is wrong |
| `MetricInputs.RecordFirstFailure` | scripts/generate_metric_conformance_fixtures.py:440-476 | a record failure is reported at a field if and only if that field is the first bad one |
| `MetricInputs.RecordsFirstFailure` | scripts/generate_metric_conformance_fixtures.py:440-476 | the records fail with the failure of the first bad record, and only if there is one |
| `MetricInputs.StructureCoordinates` | scripts/generate_metric_conformance_fixtures.py:389-412 | a structural failure is `InvalidEncoding` at a coordinate the published pattern admits |
| `MetricInputs.DecodeFailures` | scripts/generate_metric_conformance_fixtures.py:1674-1683 | every failure has an admitted coordinate; after a sound structure it is at a header field, at `records` or at a record field, and `InvalidEncoding` then means a wrong type |
| `MetricInputs.CheckStructure` | scripts/generate_metric_conformance_fixtures.py:389-412 | the loop of the structural pass decides as specified |
| `MetricInputs.Identifier` | scripts/generate_metric_conformance_fixtures.py:364-372 | reads a text that is UTF-8 and within the length bounds of an identifier, or fails as `InvalidIdentifier` |
| `MetricInputs.DecodeHeader` | scripts/generate_metric_conformance_fixtures.py:415-439 | the header reads decide as specified and leave the cursor at the first record |
| `MetricInputs.DecodeRecord` | scripts/generate_metric_conformance_fixtures.py:440-476 | the reads of one record decide as specified |
| `MetricInputs.DecodeMti1` | scripts/generate_metric_conformance_fixtures.py:415-478 | decodes every canonical encoding of a valid input and nothing else, and returns that input |
| `Utf8Text.Utf8Iff` | scripts/generate_metric_conformance_fixtures.py:364-372 | identifier bytes are accepted as UTF-8 if and only if they are the encodings, computed from the code points, of some list of code points that are not surrogates |
| `Utf8Text.EncodingsAreUtf8` | scripts/generate_metric_conformance_fixtures.py:364-372 | the encoding of any such list is accepted |
| `Utf8Text.AsciiIsUtf8` | scripts/generate_metric_conformance_fixtures.py:364-372 | ASCII text is accepted, each character as its own code |
| `Rounding.RoundsToNearestEven` | scripts/generate_metric_conformance_fixtures.py:199-205 | the result is the nearest integer, the even one on a tie, and the only such integer |
| `Rounding.RoundIsMonotone` | scripts/generate_metric_conformance_fixtures.py:199-205 | rounding preserves order |
| `Rounding.CloseValuesRoundClose` | scripts/generate_metric_conformance_fixtures.py:199-205 | values less than one apart round to values at most one apart |
| `Metrics.BrierAgrees` | scripts/generate_metric_conformance_fixtures.py:524-562 | the closed Brier score is the mean squared error, in millionths |
| `Metrics.EceAgrees` | scripts/generate_metric_conformance_fixtures.py:524-562 | the sum of integer bin deviations is the calibration error from per-bin means |
| `Metrics.PopulationAgrees` | scripts/generate_metric_conformance_fixtures.py:524-562 | the closed population baseline is the error of the mean probability as a constant predictor |
| `Metrics.PersistenceAgrees` | scripts/generate_metric_conformance_fixtures.py:524-562 | the closed persistence baseline is the error of the base rate as a constant predictor |
| `Metrics.EntityTermAgrees` | scripts/generate_metric_conformance_fixtures.py:517-521 | the closed entity term is the sum of squared leave-one-out errors of that entity's outcomes |
| `Metrics.PersonalAgrees` | scripts/generate_metric_conformance_fixtures.py:524-562 | the floored personal baseline agrees with the definition, entity by entity |
| `Metrics.LiftPersonalAgrees` | scripts/generate_metric_conformance_fixtures.py:524-562 | the personal lift is the personal baseline minus the Brier score |
| `Metrics.ClosedIsDefined` | scripts/generate_metric_conformance_fixtures.py:2052-2086 | all metrics agree with their definitions before rounding, for every non-empty list |
| `Metrics.MicrosAreDefined` | scripts/generate_metric_conformance_fixtures.py:2052-2086 | hence the nine rounded values agree |
| `Metrics.MembersAreTheBin` | scripts/generate_metric_conformance_fixtures.py:2060-2069 | the records of a tenth are those of its integer bin: the same count, sum of probabilities and positives |
| `MetricLaws.CalibrationBelowBrier` | scripts/generate_metric_conformance_fixtures.py:524-562 | the squared sum of bin deviations is at most the count times the sum of squared errors |
| `MetricLaws.PopulationGap` | scripts/generate_metric_conformance_fixtures.py:524-562 | population minus persistence is a square over n squared times D, so it is never negative |
| `MetricLaws.PopulationNeverBeatsPersistence` | scripts/generate_metric_conformance_fixtures.py:498-510 | the same order holds of the rounded values and of the lifts |
| `MetricLaws.FloorCostsAtMostOne` | scripts/generate_metric_conformance_fixtures.py:524-562 | flooring each entity term lowers the rounded personal lift by at most one |
| `MetricLaws.MicrosRanges` | scripts/generate_metric_conformance_fixtures.py:498-510 | the nine values lie within a million in magnitude, persistence within 250000, and only lifts can be negative |
| `MetricLaws.EntitiesPartition` | scripts/generate_metric_conformance_fixtures.py:524-562 | the entity groups together hold every scored record once |
| `MetricLaws.MicrosPermute` | scripts/generate_metric_conformance_fixtures.py:524-562 | reordering scored records changes none of the nine values |
| `MetricLaws.BinsConserve` | scripts/generate_metric_conformance_fixtures.py:565-572 | the bin columns sum to the scored count, the total probability and the positives |
| `MetricResults.CountsConserve` | scripts/generate_metric_conformance_fixtures.py:575-585 | the four state counts sum to the record count |
| `MetricResults.SealNeverRefuses` | scripts/generate_metric_conformance_fixtures.py:618-624 | for every valid input the sealed record fits 1024 bytes, so the guard never fires |
| `MetricResults.SealedDecodes` | scripts/generate_metric_conformance_fixtures.py:618-628 | the sealed record decodes to its twelve fields and the digest of their encoding |
| `MetricResults.OtherRecordsDoNotInterfere` | scripts/generate_metric_conformance_fixtures.py:596-615 | result kind, metrics and bins depend on the scored records and the minimum alone |
| `MetricResults.OrderFixesNoValue` | fixtures/conformance/profiles/metric-conformance/normative-requirements.md:75-77 | reordering the records changes no field but the input digest |
| `MetricResults.TabulateBins` | scripts/generate_metric_conformance_fixtures.py:565-572 | one pass fills the table of bin counts, sums and positives |
| `MetricResults.GroupByEntity` | scripts/generate_metric_conformance_fixtures.py:524-562 | one pass collects each entity's outcomes, entities in order of appearance |
| `MetricResults.ExactMetrics` | scripts/generate_metric_conformance_fixtures.py:524-562 | the loops compute the closed formulas of the scored records |
| `MetricResults.ComputeMtr1` | scripts/generate_metric_conformance_fixtures.py:596-628 | every accepted input has a sealed result of at most 1024 bytes with the specified fields; a refused one passes on its failure |
| `MetricMeanings.BrierIsZeroIff` | scripts/generate_metric_conformance_fixtures.py:524-562 | the Brier score is zero if and only if every record with outcome 1 was given all the probability and every record with outcome 0 none |
| `MetricMeanings.BinRowCounts` | scripts/generate_metric_conformance_fixtures.py:565-572 | the first and third column of a bin are the number of its records and of those with outcome 1, the bin given by its bounds |
| `MetricMeanings.EntityCounts` | scripts/generate_metric_conformance_fixtures.py:543-550 | the outcomes of an entity number its records and sum to the number of those with outcome 1 |
| `MetricMeanings.PositivesCount` | scripts/generate_metric_conformance_fixtures.py:524-562 | the positives of the list are the records with outcome 1 |
| `MetricMeanings.CountsCount` | scripts/generate_metric_conformance_fixtures.py:575-585 | each of the first six counts is the number of records it is named for |
| `MetricMeanings.EntitiesCount` | scripts/generate_metric_conformance_fixtures.py:575-585 | the seventh count is the number of entities an observed record names |
| `MetricMeanings.RedactionIsTheHeaviest` | scripts/generate_metric_conformance_fixtures.py:588-593 | the state of a result is the heaviest state of any record, missing evidence over redaction over none |
| `MetricMeanings.ResultMeans` | scripts/generate_metric_conformance_fixtures.py:596-615 | a result is computed if and only if as many records were observed as required; it then holds the metrics by definition and the bins, and otherwise neither |
| `Quantization.AcceptedPatterns` | scripts/generate_metric_conformance_fixtures.py:649-669 | a pattern is accepted if and only if it is at most that of 1.0 or is negative zero |
| `Quantization.Binary64Monotone` | scripts/generate_metric_conformance_fixtures.py:649-669 | the value of a non-negative pattern is monotone across subnormals and exponents |
| `Quantization.Binary64AtMostOne` | scripts/generate_metric_conformance_fixtures.py:649-669 | a non-negative pattern is worth at most one exactly up to the pattern of 1.0 |
| `Quantization.QuantizesToNearest` | scripts/generate_metric_conformance_fixtures.py:649-669 | the result is the nearest millionth, ties to even, within [0, 10^6] |
| `Quantization.QuantizeMonotone` | scripts/generate_metric_conformance_fixtures.py:649-669 | a greater accepted pattern never quantizes lower |
| `Quantization.Binary64OfFields` | scripts/generate_metric_conformance_fixtures.py:649-669 | the value of a pattern is its significand, with the leading bit unless the exponent field is 0, times the power of two of its exponent |
| `QuantizationRecords.ShapeIsEncoding` | scripts/generate_metric_conformance_fixtures.py:686-700 | the structural pass accepts exactly the encodings of two fields and an array |
| `QuantizationRecords.DecodeIffCanonical` | scripts/generate_metric_conformance_fixtures.py:672-721 | decoding yields patterns if and only if they are valid and the string is their encoding |
| `QuantizationRecords.PassRefinesInterpret` | scripts/generate_metric_conformance_fixtures.py:703-721 | after a sound structure the pass over the bytes is the interpretation of the values |
| `QuantizationRecords.DecodeFailures` | scripts/generate_metric_conformance_fixtures.py:686-721 | every failure has an admitted coordinate; a structural one is `InvalidEncoding`; after a sound structure coordinate and error say what is wrong: a field of the wrong type or value, no pattern or too many, or the first pattern that is not an unsigned integer |
| `QuantizationRecords.PatternsCoordinate` | scripts/generate_metric_conformance_fixtures.py:703-721 | a pattern failure names the first item that is not an unsigned integer |
| `QuantizationRecords.CheckShape` | scripts/generate_metric_conformance_fixtures.py:686-700 | the loop of the structural pass decides as specified |
| `QuantizationRecords.DecodeMtq1` | scripts/generate_metric_conformance_fixtures.py:703-721 | the two passes decide as specified |
| `QuantizationRecords.ResultEntryMeaning` | scripts/generate_metric_conformance_fixtures.py:724-729 | a result entry is an error exactly for a refused pattern and otherwise a number within [0, 10^6] |
| `Blake3.ChunkNode` | scripts/generate_plugin_conformance_fixtures.py:89-99 | the loop over the blocks of a chunk leaves the output of its last block, start and end flags at the ends |
| `Blake3.SubtreeSplits` | scripts/generate_pmf1_golden_vectors.py:131-146 | the subtree over a power of two of chunks and at most as many more is the parent of the two subtrees |
| `Blake3.StackHeight` | scripts/generate_pmf1_golden_vectors.py:131-146 | after c chunks the stack holds one subtree per binary one of c |
| `Blake3.PushChunk` | scripts/generate_pmf1_golden_vectors.py:131-146 | merging while the chunk total is even turns the stack of c chunks into that of c + 1 |
| `Blake3.FoldStack` | scripts/generate_pmf1_golden_vectors.py:131-146 | folding the stack right to left onto the last chunk gives the whole tree |
| `Blake3.RootOutput` | scripts/generate_plugin_conformance_fixtures.py:108-121 | for every input, keyed or not, the incremental root is that of the recursive tree whose left part is the largest power of two of chunks below the total |
| `Blake3.StreamIsSeekable` | scripts/generate_plugin_conformance_fixtures.py:124-141 | output at an offset is that part of the output from zero, and adjacent reads concatenate |
| `Blake3.Xof` | scripts/generate_plugin_conformance_fixtures.py:124-141 | the block loop yields the bytes of the stream at any unaligned offset |
| `Blake3.KeyedXof` | scripts/generate_plugin_conformance_fixtures.py:82-141 | with a 32-byte key or without one the output is that of the keyed or plain tree at the offset; a key of another length is refused |
| `Blake3.RootCounterIsZero` | scripts/generate_pmf1_golden_vectors.py:131-146 | the root's own counter is zero, the counter of output block 0 |
| `Blake3.Hash` | scripts/generate_pmf1_golden_vectors.py:131-146 | the plain 32-byte hash is the first 32 bytes of the unkeyed stream |
| `HashLayout.PiecesIff` | scripts/generate_pmf1_golden_vectors.py:111-132 | a list is the pieces of the data if and only if it joins to the data, all but the last have the full size, and the last has at most that and is empty only for no data |
| `HashLayout.WordsAreTheBlock` | scripts/generate_pmf1_golden_vectors.py:104-105 | the sixteen words of a block, written low byte first, are the block and zeros up to 64 bytes |
| `HashLayout.WordBytes` | scripts/generate_pmf1_golden_vectors.py:104-105 | a word is written low byte first: its four bytes reversed are its big-endian bytes |
| `HashLayout.ChunkIsAChain` | scripts/generate_plugin_conformance_fixtures.py:89-99 | a chunk chains its blocks in order, flag 1 on the first, flag 2 and its own length on the last |
| `HashLayout.TreeIsAParent` | scripts/generate_plugin_conformance_fixtures.py:102-121 | two or more chunks make a parent whose left half covers the largest power of two below their number; left value first, then right, under flag 4 |
| `HashLayout.OutputIsTheRootState` | scripts/generate_plugin_conformance_fixtures.py:124-141 | output block i is the root compressed with counter i under flag 8, each state word low byte first |
| `HashLayout.KeyIsItsWords` | scripts/generate_plugin_conformance_fixtures.py:82-83 | a 32-byte key is its eight words, low byte first, and puts flag 16 on every node |
| `Masker.MaskShadows` | scripts/check_owner_bridge_unsafe_policy.py:257-335 | the masked text has the length of the source, its newlines where the source has them, and every other character either the source's, a space or an underscore |
| `Masker.MaskIsAllKept` | scripts/check_owner_bridge_unsafe_policy.py:257-335 | in masked text every token is kept code |
| `Masker.MaskIsIdempotent` | scripts/check_owner_bridge_unsafe_policy.py:257-335 | masking masked text changes nothing |
| `Masker.StringIsHidden` | scripts/check_owner_bridge_unsafe_policy.py:216-226 | a string literal with any escapes becomes blank and what follows is masked on its own |
| `Masker.EveryStringIsHidden` | scripts/check_owner_bridge_unsafe_policy.py:216-226 | whatever follows an opening quote, the literal is blanked to its closing quote, or to the end of the text if it never closes |
| `Masker.PrefixedStringIsHidden` | scripts/check_owner_bridge_unsafe_policy.py:318-319 | a byte or C string is blanked with its prefix |
| `Masker.ByteCharIsHidden` | scripts/check_owner_bridge_unsafe_policy.py:320-323 | a byte prefix is blanked with the character literal behind it, and stays code before a lifetime |
| `Masker.RawIdentifierIsHidden` | scripts/check_owner_bridge_unsafe_policy.py:312-317 | a raw identifier becomes as many underscores and what follows is masked on its own |
| `Masker.CommentIsHidden` | scripts/check_owner_bridge_unsafe_policy.py:199-213 | so does a block comment with comments nested in it to any depth; lone slashes and stars, as in doc comments, are ordinary characters |
| `Masker.EveryCommentIsHidden` | scripts/check_owner_bridge_unsafe_policy.py:199-213 | whatever follows an opening, the comment is blanked to its own end, or to the end of the text if it never closes |
| `Masker.LineCommentIsHidden` | scripts/check_owner_bridge_unsafe_policy.py:291-296 | so does a line comment up to its newline |
| `Masker.RawStringIsHidden` | scripts/check_owner_bridge_unsafe_policy.py:247-250 | a raw string with any prefix and number of hashes is one blank token if and only if its body holds no quote followed by that many hashes; other quotes are body |
| `Masker.EveryRawStringIsHidden` | scripts/check_owner_bridge_unsafe_policy.py:247-250 | whatever follows the opening of a raw string, it is blanked to its first closing, or to the end of the text if there is none |
| `Masker.CharOrLifetime` | scripts/check_owner_bridge_unsafe_policy.py:229-244 | a quoted character other than quote and backslash is blanked; a quote before anything else stays code |
| `Masker.EscapedCharIsHidden` | scripts/check_owner_bridge_unsafe_policy.py:229-244 | an escaped character literal is blanked to the next quote on its line after the escaped character; without one the opening quote stays code |
| `Masker.LinesAgree` | scripts/check_owner_bridge_unsafe_policy.py:338-339 | an offset has one line number in the source and in the masked text |
| `Masker.LinesJoin` | scripts/check_owner_bridge_unsafe_policy.py:334-335 | cutting a text at its line breaks loses nothing |
| `Masker.LinesShadow` | scripts/check_owner_bridge_unsafe_policy.py:334-335 | every line of the masked text shadows the same line of the source |
| `Masker.BlockCommentEnd` | scripts/check_owner_bridge_unsafe_policy.py:199-213 | the depth counter finds the end of the nested comment |
| `Masker.QuotedEnd` | scripts/check_owner_bridge_unsafe_policy.py:216-226 | the loop finds the closing quote that is not escaped |
| `Masker.CharEnd` | scripts/check_owner_bridge_unsafe_policy.py:229-244 | the end of a character literal, or none for a lifetime |
| `Masker.ScanToken` | scripts/check_owner_bridge_unsafe_policy.py:289-333 | the branches pick the token at the cursor and how it is rendered |
| `Masker.NextStart` | scripts/check_owner_bridge_unsafe_policy.py:289-333 | tokens follow one another without gap or overlap |
| `Masker.Scanner.Emit` | scripts/check_owner_bridge_unsafe_policy.py:273-284 | renders the text up to the end and keeps line and line start those of the text before the cursor |
| `Masker.Scan` | scripts/check_owner_bridge_unsafe_policy.py:257-335 | the code is the masked text and the lines are its lines; the raw identifiers are exactly those of the token stream, in order; exactly the lines with a standalone line comment are noted, with its stripped text |
| `Masker.OneCommentPerLine` | scripts/check_owner_bridge_unsafe_policy.py:291-296 | a line holds one standalone comment, so its note is determined |
| `MaskGrammar.TokenIffLexeme` | scripts/check_owner_bridge_unsafe_policy.py:289-333 | the scanner takes a token if and only if the grammar, written over characters alone, says that it is a comment, a literal, a raw identifier, a word or a character of its own |
| `MaskGrammar.MaskedIff` | scripts/check_owner_bridge_unsafe_policy.py:257-335 | a text is the masked text if and only if it shows each piece of the source as the grammar says |
| `MaskGrammar.WordIsKept` | scripts/check_owner_bridge_unsafe_policy.py:299-323 | a whole word that opens no literal with what follows it stays, and what follows is masked on its own |
| `MaskGrammar.WordTakesIff` | scripts/check_owner_bridge_unsafe_policy.py:299-323 | a whole word is a token of its own if and only if it opens no literal |
| `MaskGrammar.CharacterIsKept` | scripts/check_owner_bridge_unsafe_policy.py:326-333 | a character that is no word character and opens no literal and no comment stays, and what follows is masked on its own |
| `MaskGrammar.TextStarts` | scripts/check_owner_bridge_unsafe_policy.py:289-333 | every text starts with a piece of the grammar |
| `MaskGrammar.AsciiWords` | scripts/check_owner_bridge_unsafe_policy.py:253-254 | the ASCII word characters are the letters, the digits and the underscore |
| `MaskGrammar.NewlinesCount` | scripts/check_owner_bridge_unsafe_policy.py:283-286 | the line count is the number of line breaks |
| `MaskGrammar.LineStartIs` | scripts/check_owner_bridge_unsafe_policy.py:283-286 | a line starts behind the last line break |
| `MaskGrammar.StripTrims` | scripts/check_owner_bridge_unsafe_policy.py:291-296 | stripping takes all the space off both ends and nothing else |
| `References.DoneIsClean` | scripts/check-pinned-yaml-references.py:83-96 | from a file marked done no trouble is reachable |
| `References.RootDone` | scripts/check-pinned-yaml-references.py:110-138 | a walked document has no alias cycle and no bad reference, and everything it refers to is done |
| `References.ReferenceInspector.constructor` | scripts/check-pinned-yaml-references.py:71-73 | an inspector starts with no file visited |
| `References.ReferenceInspector.InspectConfig` | scripts/check-pinned-yaml-references.py:83-96 | succeeds with the file done, and fails only with a trouble reachable from the current chain of files |
| `References.ReferenceInspector.Walk` | scripts/check-pinned-yaml-references.py:110-138 | succeeds with the collection finished and its entries done, and fails only with a reachable trouble |
| `References.ReferenceInspector.InspectReference` | scripts/check-pinned-yaml-references.py:140-153 | accepts a pinned reference, or a local one whose file is done |
| `References.ReferenceInspector.InspectLocalReference` | scripts/check-pinned-yaml-references.py:155-189 | accepts a local reference exactly when it resolves and its file is clean |
| `References.ReferenceInspector.Run` | scripts/check-pinned-yaml-references.py:75-81 | succeeds if and only if every root resolves and from none is reachable a file cycle, an alias cycle, an unusable document or a bad reference; then every reference reachable from a root is local, ends in `@` and 40 hexadecimal digits, or is an image that ends in `@sha256:` and 64 |
| `References.PinnedExternalIff` | scripts/check-pinned-yaml-references.py:16 | a reference is a pinned action if and only if it is an owner, a slash, a name, `@` and 40 lower-case hexadecimal digits, owner and name without `@` and space and the owner without a slash |
| `References.PinnedDockerIff` | scripts/check-pinned-yaml-references.py:17 | a reference is a pinned image if and only if it is `docker://`, a name without `@` and space, `@sha256:` and 64 such digits |
| `References.CleanIsFixed` | scripts/check-pinned-yaml-references.py:110-153 | where no trouble is reachable, every reference reached is local to a file inside the repository, ends in `@` and 40 digits, or is an image that ends in `@sha256:` and 64 |
| `Groups.FailsIffBroken` | scripts/materialize-systemd-scs1.py:76-94 | expansion fails if and only if a chain of groups leads to an unknown group or back to an ancestor |
| `Groups.ExpandLists` | scripts/materialize-systemd-scs1.py:76-94 | a successful expansion lists exactly the calls reachable through groups |
| `Groups.ExpandKeepsOrder` | scripts/materialize-systemd-scs1.py:76-94 | members expand in order, and plain calls stand for themselves |
| `Groups.ExpandGroup` | scripts/materialize-systemd-scs1.py:76-94 | the recursion terminates on every table and yields the specified list or error |
| `Features.ReachableIsLeastClosed` | scripts/check_test_support_features.py:33-47 | a feature is reachable from `default` if and only if every closed set with `default` holds it |
| `Features.DefaultClosure` | scripts/check_test_support_features.py:33-47 | the worklist returns exactly the reachable features |
| `Notices.CheckReport` | scripts/third_party_notices.py:621-640 | the errors are one per blank text in order, then one per crate with an unknown licence or without a text in order; there are none if and only if the report is clean |
| `Notices.ErrorsIffUnclean` | scripts/third_party_notices.py:621-640 | there is nothing to report if and only if there are crates and texts, no text is blank, and every crate has an accepted licence and a text that covers it |
| `Notices.CoveredIs` | scripts/third_party_notices.py:621-640 | the covered crates are the users of the texts that are not blank |
| `Notices.ErrorsAre` | scripts/third_party_notices.py:621-640 | an error is reported if and only if a text is blank, or a crate has no accepted licence, or has one and no text that covers it |
| `Notices.SelectUnits` | scripts/third_party_notices.py:724-744 | the worklist visits exactly the reachable units, all of them admissible, and selects exactly their registry packages; it refuses only for a reachable inadmissible unit |
| `Notices.GatewayReport` | scripts/third_party_notices.py:724-767 | succeeds if and only if all units are reachable and admissible and every selected package is pinned and described alike; then it is the report narrowed to the selected packages |
| `Notices.NarrowKeeps` | scripts/third_party_notices.py:762-766 | narrowing texts to the selection keeps the coverage of the selected crates and blanks nothing |
| `Notices.SelectionStaysClean` | scripts/third_party_notices.py:948-955 | a clean report stays clean when narrowed, so the second check cannot fail |
| `Catalog.EmitFixtures` | crates/pos-conformance/build.rs:1882-1895 | the nested loops number fixtures and auxiliary files in catalog order |
| `Catalog.EmitProfile` | crates/pos-conformance/build.rs:1770-1829 | a profile calls consecutive fixture functions, provider by provider |
| `Catalog.EmitProfiles` | crates/pos-conformance/build.rs:1896-1904 | each profile starts where the one before it ended |
| `Catalog.WriteAuxiliaryFiles` | crates/pos-conformance/build.rs:2737-2744 | file i holds member i in catalog order |
| `Catalog.PassesAgree` | crates/pos-conformance/build.rs:2697-2744 | every call reaches the function of its own provider's fixture, and every file that function includes holds the bytes of that fixture's member |
| `Catalog.CalledOnce` | crates/pos-conformance/build.rs:1896-1904 | the calls of all profiles in order are the numbers of all fixtures in order: each once |
| `Catalog.IncludedOnce` | crates/pos-conformance/build.rs:2697-2708 | the included files in order are the numbers of all auxiliary members in order: each once |
| `Providers.FamilyOrder` | crates/pos-conformance/build.rs:1041-1056 | the contract is accepted exactly when it declares seven different families |
| `Providers.AssignProvider` | crates/pos-conformance/build.rs:1213-1297 | a provider is accepted if and only if it names seven known, new and different cases whose fixtures stand in family order; then it owns them and they are taken; a refusal names the first check that failed and the case it failed at |
| `Providers.SortedAndDeduped` | crates/pos-conformance/build.rs:1340-1363 | sorting, removing repetitions and comparing accepts exactly the strictly ascending keys |
| `Providers.DedupedSize` | crates/pos-conformance/build.rs:1340-1363 | removing repetitions from the sorted keys loses some if and only if keys repeat |
| `Providers.KeyLessIff` | crates/pos-conformance/build.rs:1340-1363 | two keys are ordered by the first of provider, contract version, major and minor in which they differ |
| `Providers.AssignProviders` | crates/pos-conformance/build.rs:1299-1365 | the assignment succeeds if and only if case IDs are distinct, every provider is accepted, no case is left over and keys ascend; a refusal names the first check that failed, and for a provider its place and its own first failed check |
| `Providers.EveryRecordIsOwned` | crates/pos-conformance/build.rs:1137-1365 | on success every fixture record is in the slot of its family at some provider |
| `Providers.SlotsAreDisjoint` | crates/pos-conformance/build.rs:1137-1365 | on success each provider has all seven slots filled, no two slots hold one record, and keys strictly increase |
| `Sources.InventoriedSources` | crates/pos-conformance/build.rs:738-784 | the two loops retain what is specified, under each file's own name, or give the specified error |
| `Sources.RetentionIsBounded` | crates/pos-conformance/build.rs:605-643 | whatever the two openings of each file show, totals never overflow 64 bits; success holds if and only if all sizes are in bounds and each file had its declared size, and then at most 1 GiB is held |
| `Replay.RunScript` | scripts/generate_replay_conformance_fixtures.py:282-297 | the tick loop commits the drafts before the failure, in order, and the failure |
| `Replay.RunsExtend` | scripts/generate_replay_conformance_fixtures.py:282-297 | a longer run extends a shorter one, and nothing changes after a failure |
| `Replay.RunSteps` | scripts/generate_replay_conformance_fixtures.py:282-297 | a tick commits its drafts, except that the failing tick commits nothing, ends the run and leaves the failure code |
| `Replay.FrameResult` | scripts/generate_replay_conformance_fixtures.py:370-403 | the loop concatenates the specified parts |
| `Replay.PreimageLayout` | scripts/generate_replay_conformance_fixtures.py:370-403 | where every field of the preimage stands: the count, 120 bytes for each event, 80 for the checkpoint, then the failures |
| `Replay.PreimageInjective` | scripts/generate_replay_conformance_fixtures.py:370-403 | two streams have one preimage if and only if they agree in everything but payloads that hash alike |
| `Replay.RunsWithOnePreimage` | scripts/generate_replay_conformance_fixtures.py:300-403 | recomputed runs with one preimage committed as many events, with payloads that hash alike, and both failed or neither |
| `Ulid.ParseUlid` | scripts/generate_replay_conformance_fixtures.py:156-162 | the loop spells out the number, and refuses a character outside the alphabet and a value over 128 bits |
| `Ulid.UlidTextIsBase32` | scripts/generate_replay_conformance_fixtures.py:152-153 | picking five bits at a time writes the base-32 digits |
| `Ulid.TextRoundTrips` | scripts/generate_replay_conformance_fixtures.py:152-162 | a value is read back from its text if and only if it fits 128 bits |
| `Ulid.ValueRoundTrips` | scripts/generate_replay_conformance_fixtures.py:152-162 | an accepted text is the text of its value if and only if it has 26 characters |
| `Ulid.OtherSpellings` | scripts/generate_replay_conformance_fixtures.py:156-162 | such other texts are accepted: the empty one, a single digit, and 27 digits |
| `Ulid.TextOrder` | scripts/generate_replay_conformance_fixtures.py:152-153 | texts sort as their values do |
| `Baselines.ParseBenchmarkCsv` | scripts/compare_memory_store_benchmarks.py:215-298 | the loops over rows and keys accept exactly the complete sample tables and return the sorted values of each key; a refused row is reported at the first line that breaks the contract, with the first check it fails |
| `Baselines.FaultIffRefused` | scripts/compare_memory_store_benchmarks.py:230-262 | a row passes all checks if and only if it parses, is expected and its sample is new |
| `Baselines.RowOrderIsIrrelevant` | scripts/compare_memory_store_benchmarks.py:215-298 | permuted rows parse to the same dataset, or both are refused |
| `Baselines.RecheckIsImplied` | scripts/compare_memory_store_benchmarks.py:284-296 | ten admitted samples of a key have the indexes 0 to 9, so the recheck cannot fail |
| `Baselines.DecimalIff` | scripts/compare_memory_store_benchmarks.py:207-212 | a field is read as a number if and only if it writes that number in decimal behind any number of zeros |
| `Comparisons.CompareDatasets` | scripts/compare_memory_store_benchmarks.py:487-510 | datasets compare if and only if they have the same keys and no zero baseline median; the rows are those of the inventory in order |
| `Comparisons.ParsedCovers` | scripts/compare_memory_store_benchmarks.py:271-298 | a parsed dataset has exactly the expected keys, each with ten values in ascending order |
| `Comparisons.StatisticsAre` | scripts/compare_memory_store_benchmarks.py:118-120 | of the recorded times, more than half do not exceed the median and at most half are below it; the other statistic is the greatest time |
| `Comparisons.WarnsIff` | scripts/compare_memory_store_benchmarks.py:487-510 | a warning means more than 1.1 times the baseline median |
| `Comparisons.SelectNewestBaseline` | scripts/compare_memory_store_benchmarks.py:746-802 | the selected artifact is valid and no valid one has a later date, or the same date and a higher ID; nothing is selected only if nothing is valid |
| `Comparisons.SelectedCompares` | scripts/compare_memory_store_benchmarks.py:1011-1017 | a selected baseline compares with every dataset that parses |
| `Comparisons.DisplayIsNearest` | scripts/compare_memory_store_benchmarks.py:513-522 | the display is the sign and the nearest hundredth of a percent, the greater one on a tie; a number is shown if and only if it is that one |
| `Comparisons.WarningsAreVisible` | scripts/compare_memory_store_benchmarks.py:487-522 | a warning displays at least +10.00%, and anything displayed above +10.00% is a warning |
| `Comparisons.DisplayDecidesIff` | scripts/compare_memory_store_benchmarks.py:487-522 | more than +10.00% shown means a warning and nothing else does, except exactly for a warning less than 2001 in 20000 above its baseline; +10.00% or more shown does, except exactly for no warning at least 1999 in 20000 above it |
| `Comparisons.TenPercentIsAmbiguous` | scripts/compare_memory_store_benchmarks.py:487-522 | both exceptions occur: +10.00% is shown with a warning and without one |

## Left out

- Providers.AssignProvider: checks that look at one fixture and its provider alone are one parameter, and a manifest's validity is an input; the shared set of taken case IDs is passed in and returned, not updated through a reference.
- Comparisons.SelectNewestBaseline: artifact metadata, workflow runs, archives and manifests are inputs; the rejected artifacts are returned without their messages.
- Baselines.ParseBenchmarkCsv: an incomplete table is refused without naming the missing samples; it holds for any inventory of scenarios, of which the repository's fourteen are one.
- References.ReferenceInspector.Walk: the visiting and visited sets are passed and returned as values.
- Masker.Scan: which other characters count as letters, digits or space is a parameter.
- Replay.PreimageInjective: assumes numbers that fit their fields, where the source raises an error otherwise; identities, schemas and checkpoints are digests given as inputs.
- The BLAKE3 compression rounds, Ed25519, P-256 and SHA-2 are not modelled; hashes are parameters that yield 32 bytes.
- Builders of malformed test records, including spliced raw bytes, are not modelled.
- The header check of a finished `MTR1` record and the checks of Cargo metadata before the gateway worklist are not modelled.
- The order in which selected crates are listed is a parameter that only has to list each once.
- Resolving paths, parsing YAML, TOML, JSON and CSV, reading files and archives, HTTP, git and cargo are inputs.
- The text layout of the generated catalog, profile manifests, schemas and fixture tables are not modelled; emitted functions are their numbers and references.
- Continuous-integration policy checkers and the checkers built on regular expressions are not modelled.
- The Rust kernel, gateway and stores are not part of this model.
