# A verified model of the MaxMind DB reader

This project models the reader of the MaxMind DB format in Dafny and proves what its three linked parts promise:

* **The search tree** — lookup over packed 24/28/32-bit records with 32-bit chunking and the IPv4 shortcut, iteration
  with an explicit stack and alias skipping, and the memoised verification walk. The record graph may be cyclic or
  shared; nothing is assumed about it.
* **The data section** — one grammar and four walkers over any byte buffer: the counter-based skip, the budgeted
  skip, the structural preflight validator and the budgeted dynamic decoder, plus path decoding on top of them.
* **Accelerators that must be invisible** — the cursor API's proven-successor protocol, the lock-free string cache
  and the open-addressed field table.

`dafny verify dfyconfig.toml` checks everything.

## How it is organised

| file | content |
|---|---|
| `Core.dfy` | bytes, results, quotient and remainder |
| `SearchTree.dfy` | records, one-bit walks, paths and the bound `Fits` on their length |
| `LookupReader.dfy` | class `Reader`: traversal loops, IPv4 start, lookup |
| `TreeVerifier.dfy` | class `SearchTreeWalker`: memoised depth-first verification |
| `Networks.dfy` | iteration, `Result.Prefix`, tiling and alias theorems |
| `NodeLayout.dfy` | packed nodes and trees, and that every walk reads them back |
| `Format.dfy` | control bytes, pointers, the skip grammar and its loop, string resolution |
| `StringPaths.dfy` | inlined key and string readers |
| `Values.dfy` | decoded values, their slot and payload cost, integer accumulators |
| `Grammar.dfy` | `Parse`, `CheckEntries`/`CheckValue` and `InlineN`: what decoding, validation and the budgeted skip mean without budgets, and how they relate |
| `Validator.dfy` | class `StructuralValidator` |
| `Decoder.dfy` | class `BudgetedDecoder` |
| `PathDecoder.dfy` | path decoding against `Select` |
| `DuplicateKeys.dfy`, `PathLaws.dfy` | repeated map keys; what paths select, by position and occurrence |
| `DataVerifier.dfy`, `TextValidation.dfy`, `Verification.dfy` | data-section verification and the end-to-end results |
| `Encoding.dfy`, `Costs.dfy` | canonical encoding, round trips and what the two budgets count |
| `Cursors.dfy`, `CursorLaws.dfy`, `StringCache.dfy`, `FieldTable.dfy` | the accelerators |

## Conventions

* Bytes are integers 0..255; shifts and masks are written as division and remainder. Addresses and the 32-bit address
  register of the traversal loops are bit sequences, most significant bit first. Integers are unbounded; widths that
  matter (the extended-kind byte, the 16/32/64-bit accumulators, the skip counter, the fingerprint) wrap explicitly.
  A buffer is at most `MAX_LEN` long, as any slice is, and `nodeCount * nodeBytes` does not overflow because opening a
  database checks that (reader.go:361-370).
* A `Database` is the immutable part of a Reader: the file bytes, the data section and the metadata the tree needs.
* The three traversal functions differ only in the record load, so one loop calls `LoadRecord`, which has their three
  formulas. `decodeMap`/`decodeSlice`, `unmarshalMap`/`unmarshalSlice` and `MapCursor`/`SliceCursor` are likewise
  modelled together, with a flag for the map case.
* A decoded map is the list of its entries in encoded order, so that "first duplicate" (paths) and "last duplicate"
  (materialised maps) can both be stated. A slice is a container whose entries have empty keys.
* `Parse(…, strict)`: the validator checks the depth of pointer keys and the decoder does not. Inside a container of
  1,024 or more values, which is preflighted, a pointer key in a map at the deepest level is therefore rejected. The
  `strict` flag of `Parse` says exactly this, and makes the decoder's success condition an equivalence.
* The runtime's UTF-8 test is a function parameter. Floats are bit patterns.

Two places where code and comments differ; the model follows the code. The cache key of a string is documented as its
control-record offset (internal/decoder/string_cache.go:31-33), but for an extended kind that wraps to "string" it is
one past that offset (`StringCache.RecordOf`); it still determines the payload.
Default iteration is documented to visit networks once that a database maps into several locations (traverse.go:65-68).
The test compares records only (traverse.go:177-180), so when the IPv4 start is a data record every other network with
that record counts as an alias and is dropped, its data notwithstanding (`NodeLayout.SharedRecordIsLost`). Exactly what
is dropped, for any IPv4 start and options, is `Networks.FilteredIteration`.

Paths and decoded maps treat repeated keys differently, and the repository does not say so. A path gives the first of
several equal keys and a decoded map holds the last (`DuplicateKeys.FirstAndLast`), down to the bytes of a file
(`DuplicateKeys.DuplicateKeyDiffers`). The two agree on a key, whatever its values, exactly when it occurs at most once
(`DuplicateKeys.AgreeExactlyWhenUnique`).

A metadata `ip_version` other than 4 and 6 passes opening but not `Verify`. Lookup and iteration are modelled for every
version: an IPv4 address then enters the tree at depth 96 and an IPv6 address at depth 0 (`LookupReader.StartDepth`).
The end-to-end results are about databases that `Verify` accepts, so they ask for version 4 or 6
(`Verification.KnownVersion`, verifier.go:185-191).

## Model

| member | source | states |
|---|---|---|
| `SearchTree.ReadsChildren` | reader.go:499-558 | under the entry guard the bounds check of a node read never fails and yields both children |
| `SearchTree.ResolveDataPointer` | reader.go:803-815 | a record resolves exactly when it lies past the separator and inside the data section, and then names that offset |
| `SearchTree.WalkResume` | reader.go:576-645 | a walk interrupted at any depth and resumed ends where the uninterrupted walk ends |
| `SearchTree.WalkAgrees` | reader.go:576-645 | a walk depends only on the bits it consumes |
| `SearchTree.WalkFollows` | reader.go:616-644 | the walk ends at the record its bits lead to, and outside the internal nodes whenever the path bound covers the bits left |
| `SearchTree.CycleNeverFits` | verifier.go:36-40 | a node on a cycle satisfies no path bound |
| `SearchTree.FitsFollow` | verifier.go:28-76 | a path bound at a node bounds what remains after following part of a path |
| `SearchTree.FitsMeaning` | verifier.go:28-76 | the bound holds exactly when no path of that many bits stays internal |
| `NodeLayout.NodeRoundTrip` | reader.go:501-558 | the packed bytes of a 24-, 28- or 32-bit node, left record first, read back as its two records |
| `NodeLayout.TreeRoundTrip` | reader.go:499-558 | a buffer that starts with an encoded tree covers it, and every child and every traversal load is the record that was encoded |
| `LookupReader.ReadNode28Splits` | reader.go:717-724 | the single four-byte load with nibble masks gives the same two records as the pairwise read |
| `LookupReader.LoadIsChild` | reader.go:603-612 | the record load of each traversal loop is the child of the node for that bit |
| `LookupReader.ShortcutIsFullWalk` | reader.go:588-614 | starting IPv4 addresses at the shortcut gives node and depth of the full 128-bit walk for every stop bit from 96 to 128, early ends included |
| `LookupReader.Reader.SetIPv4Start` | reader.go:449-463 | for every `ip_version`: after success the shortcut is the end of the all-zero 96-bit path of an IPv6 tree, or the root at depth 96; on failure nothing changes |
| `LookupReader.Reader.TraverseTree` | reader.go:560-574 | succeeds exactly when the buffer covers the tree, and equals the one-bit walk for both families |
| `LookupReader.Reader.TraverseIPv4` | reader.go:588-614 | the shifted 32-bit register loop equals the one-bit walk of the embedded address |
| `LookupReader.Reader.TraverseIPv6` | reader.go:616-644 | the 32-bit-chunked nested loops equal the one-bit walk for every address and stop bit |
| `LookupReader.AnswerSays` | reader.go:803-815 | the answer is "not found" exactly at `nodeCount`, offset o exactly at record `nodeCount + 16 + o` inside the data section, and the malformed-database error at every other record |
| `LookupReader.Reader.Lookup` | reader.go:405-437 | outcome and prefix length are those of the record at the end of the full walk, in those terms; wrong families and the zero address are refused |
| `TreeVerifier.RevisitIsCycle` | verifier.go:36-40 | meeting a node that is being visited refutes the path bound at the root |
| `TreeVerifier.TooTall` | verifier.go:68-72 | a subtree taller than the bits left at its depth refutes the bound at the root |
| `TreeVerifier.HeightStep` | verifier.go:67-75 | one plus the larger child height is the exact longest path |
| `TreeVerifier.AllSettled` | verifier.go:28-91 | once the root is finished, everything on any path from it is finished or a collected offset |
| `TreeVerifier.FinishedTree` | verifier.go:249-264 | a finished walk has visited exactly the reachable nodes and collected exactly the reachable offsets |
| `TreeVerifier.SearchTreeWalker.VerifyNode` | verifier.go:28-76 | failure means the tree is unsound; success keeps every memo height exact, every earlier state unchanged and counts each node once |
| `TreeVerifier.SearchTreeWalker.VerifyPointer` | verifier.go:78-91 | the same for a record: internal, empty or data |
| `TreeVerifier.VerifySearchTree` | verifier.go:231-265 | succeeds if and only if the reachable graph is acyclic with longest path within 128 minus the start depth and every reachable data pointer resolves; offsets and the number of expanded nodes are exactly the reachable ones |
| `Networks.PrefixIsNetwork` | result.go:153-182 | Prefix denotes exactly the network found, masked, with or without an IPv4 subtree, and has IPv4 form exactly for an IPv4 result of length at least 96 |
| `Networks.MappedIP` | traverse.go:259-281 | the reported address embeds back to the 128-bit network address, and has IPv4 form exactly inside ::/96 |
| `Networks.Descend` | traverse.go:207-250 | replacing an internal node on the stack by its children does not change what the stack yields |
| `Networks.Consume` | traverse.go:161-206 | a record that is not expanded yields its own result before the rest of the stack |
| `Networks.Iterate` | traverse.go:148-252 | the stack loop terminates on every tree and yields exactly the recursive left-to-right visit, cut where the consumer stops |
| `Networks.NetworksWithin` | traverse.go:91-155 | invalid prefixes and wrong families give one error; otherwise the visit from the network where the walk stops, cut where the consumer stops; over bounded paths these are the results of full iteration that the options let through |
| `Networks.TilesJoin` | traverse.go:243-250 | tilings of both halves, concatenated, tile the network in order |
| `Networks.FullVisit` | traverse.go:157-252 | below a record whose paths fit, full iteration never aborts, tiles the network and agrees with lookup |
| `Networks.FullVisitAborts` | traverse.go:207-222 | below a record that does not fit, full iteration aborts |
| `Networks.AbortIsLast` | traverse.go:207-222 | with any options, an aborted iteration ends with one error result at 128 bits |
| `Networks.FullIteration` | traverse.go:91-255 | full iteration yields pairwise disjoint ascending prefixes whose union is the start network, and for every address in a prefix the full walk ends at that depth and at a record that says that outcome |
| `Networks.KeptNone` | traverse.go:175-180 | no result below a skipped alias is kept |
| `Networks.FilteredVisit` | traverse.go:157-252 | with any options, iteration below a record keeps exactly the results of full iteration that the options let through |
| `Networks.FilteredIteration` | traverse.go:91-252 | the same from any start network, for every option set, database version and IPv4 start: results without data only on request, results under an alias unless asked for or there is no IPv4 start to compare with, order included and without an abort |
| `Networks.SharedRecordSkipped` | traverse.go:175-180 | when the IPv4 start is a data record, every network outside ::/96 with that record is passed over |
| `NodeLayout.SharedRecordIsLost` | traverse.go:175-180 | six bytes of a tree on which default iteration of ::/0 drops a network that has data and is no alias |
| `Format.DecodeCtrl` | internal/decoder/data_decoder.go:150-200 | a header ends past its start and inside the buffer, with a size the format can express |
| `Format.SkipComposes` | internal/decoder/data_decoder.go:749-794 | skipping a + b values is skipping a and then b |
| `Format.SkipToken` | internal/decoder/data_decoder.go:754-792 | adding a container's children to the counter is the same as skipping them recursively |
| `Format.NextValueOffset` | internal/decoder/data_decoder.go:752-794 | the single-counter loop terminates and equals the recursive grammar on every buffer; its overflow guards never reject a parsable one |
| `Format.ResolveCtrl` | internal/decoder/decoder.go:502-540 | at most one pointer is followed, and the reported pointer end is the plain-skip end of the value |
| `Format.StringEndsAtSkip` | internal/decoder/data_decoder.go:445-460 | a resolved string ends where the plain skip ends |
| `StringPaths.InlinePointerIsDecoded` | internal/decoder/data_decoder.go:584-604 | the inlined pointer arithmetic equals decodePointer for all four widths |
| `StringPaths.KeyReaderAgrees` | internal/decoder/data_decoder.go:649-736 | decodeKeyAt with its fast paths returns payload, cache offset and end of resolve-then-decode, errors included |
| `StringPaths.StringReaderAgrees` | internal/decoder/data_decoder.go:365-460 | decodeStringValue likewise |
| `Values.AccumulateUint` | internal/decoder/data_decoder.go:462-526 | the truncating 16/32/64-bit loops compute the big-endian value |
| `Values.AccumulateInt32` | internal/decoder/data_decoder.go:252-270 | the wrapping signed loop computes the two's-complement value |
| `Values.AccumulateUint128` | internal/decoder/data_decoder.go:528-555 | high and low words together are the big-endian value |
| `Values.CostsAppend` | internal/decoder/reflection.go:210-234 | slots and payload add up over entries |
| `Grammar.InlineAgrees` | internal/decoder/reflection.go:289-398 | whatever the budgeted skip crosses, the plain skip crosses to the same offset |
| `Grammar.InlineToken` | internal/decoder/reflection.go:317-332 | one header at a time, the counter form charges exactly the children of the inline containers |
| `Grammar.ParseAgrees` | internal/decoder/reflection.go:655-814 | whatever decodes ends where the plain skip ends |
| `Grammar.CheckAgrees` | internal/decoder/reflection.go:1262-1310 | whatever the validator accepts ends where the plain skip ends |
| `Grammar.EntriesAgree` | internal/decoder/reflection.go:1187-1260 | the same for container contents, inline shapes included |
| `Grammar.CheckComplete` | internal/decoder/reflection.go:1262-1310 | what decodes under the strict rule is accepted, and the validator reserves exactly its slots |
| `Grammar.StrictFromCheck` | internal/decoder/reflection.go:1090-1112 | what decodes and is accepted decodes under the strict rule |
| `Grammar.ParseMonotone` | internal/decoder/reflection.go:655-665 | decoding at a smaller depth gives the same value |
| `Grammar.InlineBounded` | internal/decoder/reflection.go:236-272 | skipping a value that decodes never crosses more slots than the value unfolds to |
| `Validator.StructuralValidator.ValidateContainerContents` | internal/decoder/reflection.go:1187-1260 | accepts exactly what checks within the allowance, spends exactly its slots, rejects checked contents for size only, and looks at no more than two values (inline keys and values included) for each slot it reserves |
| `Validator.StructuralValidator.ValidateValue` | internal/decoder/reflection.go:1262-1310 | the same for one value; depth strictly decreases, so it ends on cyclic pointers |
| `Decoder.BudgetedDecoder.constructor` | internal/decoder/reflection.go:178-185 | a fresh decoder has 32,768 slots and 2 MiB of payload |
| `Decoder.BudgetedDecoder.ReserveContainer` | internal/decoder/reflection.go:210-223 | grants exactly when the child slots are left, and never reaches the inactive counter value |
| `Decoder.BudgetedDecoder.ReservePayload` | internal/decoder/reflection.go:225-234 | grants exactly when the bytes are left |
| `Decoder.BudgetedDecoder.DecodeScalar` | internal/decoder/reflection.go:1371-1531 | a scalar decodes exactly when its size and range are valid and its payload is left |
| `Decoder.BudgetedDecoder.DecodeValue` | internal/decoder/reflection.go:635-747 | succeeds exactly when the value parses and both allowances cover its unfolded cost, which is then exactly what is spent; on a value the validator accepts only a budget or the depth limit can fail |
| `Decoder.BudgetedDecoder.UnmarshalPointer` | internal/decoder/reflection.go:1005-1049 | a pointer decodes to its target's value, pays the target's full cost and ends after its own token |
| `Decoder.BudgetedDecoder.UnmarshalContainer` | internal/decoder/reflection.go:963-1088 | reservation, preflight and decoding together meet the same contract, nested preflights included |
| `Decoder.BudgetedDecoder.ValidateContainerSize` | internal/decoder/reflection.go:1090-1137 | bounds and preflight refuse nothing that would decode within budget |
| `Decoder.BudgetedDecoder.DecodeContents` | internal/decoder/reflection.go:1534-1712 | the entry loops decode the run exactly when its slots, keys and payload are covered |
| `Decoder.BudgetedDecoder.DecodeAny` | internal/decoder/reflection.go:2732-2776 | the dynamic entry point meets the contract of DecodeValue |
| `Decoder.BudgetedDecoder.NextValueOffsetBudgeted` | internal/decoder/reflection.go:236-272 | with its fast path, crosses exactly the inline grammar and charges exactly the inline containers |
| `Decoder.BudgetedDecoder.NextValueOffsetBudgetedSlow` | internal/decoder/reflection.go:287-398 | the counter loop likewise |
| `Decoder.DecodeFresh` | internal/decoder/reflection.go:96-122 | a decode into any with fresh limits succeeds exactly on what parses within 32,768 slots and 2 MiB, and ends where the plain skip ends |
| `PathDecoder.ParseResolves` | internal/decoder/reflection.go:435-463 | resolving a header finds the shape of the decoded value |
| `PathDecoder.FindKey` | internal/decoder/reflection.go:466-486 | stops at the first matching key, or reports absence, without running out of what the full decode would spend |
| `PathDecoder.SkipToIndex` | internal/decoder/reflection.go:487-509 | lands on the indexed element within the same allowance |
| `PathDecoder.ElementWithin` | internal/decoder/reflection.go:487-509 | the skip before an indexed element and the element together cost no more than the whole run |
| `PathDecoder.Navigate` | internal/decoder/reflection.go:430-516 | one path element of a record that decodes leads to the selected value, to absence or to the mismatch, never to another error |
| `PathDecoder.DecodePath` | internal/decoder/reflection.go:418-544 | whenever the record decodes within the allowances, the path gives the selected value, an unchanged destination or the mismatch |
| `PathDecoder.DecodePathFresh` | internal/decoder/reflection.go:158-170 | the same with fresh limits, so navigation never exhausts budget or depth on a decodable record |
| `PathLaws.IndexFromStart` | internal/decoder/reflection.go:500-505 | index i selects the i-th element |
| `PathLaws.IndexFromEnd` | internal/decoder/reflection.go:493-499 | index -k selects the k-th element from the end: element k - 1 of the reversed slice |
| `PathLaws.IndexOutside` | internal/decoder/reflection.go:488-505 | every other index selects nothing, and an index into anything but a slice is the mismatch |
| `PathLaws.KeySelects` | internal/decoder/reflection.go:466-486 | a key gives the first entry with it, nothing when no entry has it, and the mismatch on anything but a map |
| `PathLaws.PathComposes` | internal/decoder/reflection.go:429-516 | a path cut anywhere selects the rest from what the beginning selected, failures included |
| `PathLaws.DecodeEncodedPath` | internal/decoder/reflection.go:418-544 | from the encoding of any value within the limits, every path decodes what it selects from the value |
| `PathLaws.DecodeEncodedIndex` | internal/decoder/reflection.go:487-513 | on the bytes of any slice of n elements, i and i - n decode element i, and indices outside change nothing |
| `DuplicateKeys.StoreEntries` | internal/decoder/reflection.go:1556-1624 | storing the entries in encoded order, the later of two equal keys replacing the earlier, fills the map `Materialised` |
| `DuplicateKeys.FillTakesLast` | internal/decoder/reflection.go:1622-1622 | the filled map holds the value of the last entry with a key, whatever was in it before |
| `DuplicateKeys.FirstAndLast` | internal/decoder/reflection.go:471-479 | for every list of entries, with a key first at i and last at j, the path gives entry i and the decoded map holds entry j |
| `DuplicateKeys.UniqueKeyAgrees` | internal/decoder/reflection.go:471-479 | path and decoded map agree on a key that occurs at most once |
| `DuplicateKeys.AgreeExactlyWhenUnique` | internal/decoder/reflection.go:471-479 | for a list of keys, path and decoded map agree on a key for every choice of values if and only if it occurs at most once |
| `DuplicateKeys.EncodedFirstAndLast` | internal/decoder/reflection.go:418-544 | the encoding of every map within the limits decodes, and a path into those bytes gives the first entry while the decoded map holds the last |
| `DuplicateKeys.DuplicateKeyDiffers` | internal/decoder/reflection.go:1622-1622 | nine bytes of a data section on which a path gives false and the decoded map holds true for the same key |
| `DuplicateKeys.TextOfMap` | internal/decoder/verifier.go:87-110 | validating the text of a decoded map is validating its keys and the values it holds; replaced entries are not looked at |
| `TextValidation.ValidTextIsEveryText` | internal/decoder/verifier.go:87-110 | validation accepts a decoded value exactly when every string reachable in it and every key of its maps passes the test |
| `DataVerifier.RecordsTile` | internal/decoder/verifier.go:25-72 | accepted records decode with valid text, start at the start of the section and each ends at the next start or at the end |
| `DataVerifier.TilingIsRecords` | internal/decoder/verifier.go:25-72 | conversely, any valid records that lie end to end and fill the section are the records found |
| `DataVerifier.VerifyDataSection` | internal/decoder/verifier.go:21-85 | accepts if and only if valid records tile the section and their starts are exactly the offsets of the tree |
| `Verification.VerifySeparator` | verifier.go:267-290 | accepts if and only if sixteen zero bytes follow the tree |
| `Verification.VerifyDatabase` | verifier.go:213-224 | accepts if and only if tree, separator and data section are sound together; an accepted database has sixteen zero bytes after its tree |
| `Verification.SoundWalk` | verifier.go:213-265 | in an accepted database every walk ends at the empty record or at the record of an offset that starts a decodable record |
| `Verification.LookupAndDecode` | result.go:45-58 | in an accepted database every lookup and decode of an address it accepts succeeds: "not found" exactly when the full walk ends at `nodeCount`, otherwise the value at the offset that is that record less `nodeCount + 16`, a tiling record |
| `Verification.SoundNetworks` | traverse.go:182-206 | full iteration of an accepted database yields only empty networks and records that decode |
| `Encoding.HeaderRoundTrip` | internal/decoder/data_decoder.go:150-200 | every kind and every size up to 65,821 + 2^24 - 1 survives its header |
| `Encoding.PointerRoundTrip` | internal/decoder/data_decoder.go:272-306 | all four pointer widths lead back to their target |
| `Encoding.ScalarRoundTrip` | internal/decoder/reflection.go:816-961 | the payload of every scalar reads back as the scalar |
| `Encoding.RoundTrip` | internal/decoder/reflection.go:776-814 | decoding an encoded value anywhere in any buffer returns it and consumes exactly its bytes |
| `Encoding.SharedRoundTrip` | internal/decoder/reflection.go:1005-1049 | a pointer of any width to an encoded value decodes to it and consumes only the pointer |
| `Encoding.UintRoundTrip` | internal/decoder/reflection.go:2751-2772 | unsigned integers of every kind and width decode into any alike |
| `Encoding.ParsedEncodable` | internal/decoder/reflection.go:655-814 | whatever decodes is a value the format can express, nested no deeper than the levels left |
| `Encoding.Reencoded` | internal/decoder/reflection.go:776-814 | encoding a decoded value afresh and decoding it again gives the same value |
| `Costs.CostsCount` | internal/decoder/reflection.go:199-234 | the slots of a value are the values and keys below it, and its payload is the text of all of them |
| `Costs.InlineEncoded` | internal/decoder/reflection.go:236-272 | skipping an encoded value without pointers crosses exactly the slots it unfolds to |
| `Costs.FixedPayload` | internal/decoder/reflection.go:816-920 | a direct float is exactly its last eight or four bytes, and a direct boolean its size bits |
| `Cursors.InlineReadsAgree` | internal/decoder/cursor.go:331-509 | the inline branches of the typed readers change neither value nor successor |
| `CursorLaws.TypedReads` | internal/decoder/cursor.go:137-288 | every typed read succeeds exactly when the value decodes with the type asked for, and returns that value and its end |
| `CursorLaws.StringReads` | internal/decoder/cursor.go:163-290 | a string read gives the decoded string and refuses exactly the longer ones; keys read as the same strings |
| `Cursors.ReadsEndAtSkip` | internal/decoder/cursor.go:137-288 | every successful read ends at the plain-skip end of the value |
| `Cursors.OpenTracks` | internal/decoder/cursor.go:525-576 | opening a map or slice starts the cursor at its first entry, directly or through a pointer |
| `Cursors.NextTracks` | internal/decoder/cursor.go:850-881 | Next moves by exactly one proven value or key, keeps errors and never loses its place |
| `Cursors.SizeTracks` | internal/decoder/cursor.go:939-953 | Size moves nothing, returns the declared size or fails for good, and a refused slice can no longer be ended |
| `Cursors.OpenDecodable` | internal/decoder/cursor.go:525-576 | a value that decodes can be opened as a map or slice exactly when it is one |
| `Cursors.SizeOfDecodable` | internal/decoder/cursor.go:939-953 | Size never refuses a container that decodes with fresh limits, large ones included |
| `Cursors.EndIsProven` | internal/decoder/cursor.go:894-911 | End succeeds only when every entry is complete and returns the container's plain-skip end, or the pointer's |
| `CursorLaws.NextGivesEntry` | internal/decoder/cursor.go:850-881 | Next at an entry that decodes yields its key and a cursor at its value |
| `CursorLaws.TraversalGivesEntries` | internal/decoder/cursor.go:850-911 | on a container that decodes, Next yields the k-th key and a cursor at which the k-th value decodes, for all entries and then nothing, and End is just past the container |
| `CursorLaws.LargeSizeIsReal` | internal/decoder/cursor.go:939-953 | the size reported for a large slice is the number of values that do follow its header |
| `CursorLaws.LargeMapIsReal` | internal/decoder/cursor.go:525-576 | so is the size of a large map that opens |
| `Cursors.ContainerCursor.Next` | internal/decoder/cursor.go:969-994 | the mutating method performs that step; a failed cursor stays failed |
| `Cursors.ContainerCursor.Size` | internal/decoder/cursor.go:939-953 | the mutating method performs that size check with the structural validator |
| `Cursors.ContainerCursor.End` | internal/decoder/cursor.go:1007-1024 | the method returns that proven end |
| `Cursors.EveryRunIsSafe` | internal/decoder/cursor.go:1068-1074 | after any sequence of client calls, sizes and copies of container cursors included, every held cursor with token t + 1 sits at the plain-skip end of the value at t |
| `StringCache.CacheOffsetDeterminesPayload` | internal/decoder/data_decoder.go:330-344 | equal cache offsets imply equal payloads, overlapping encodings and wrapped extended kinds included |
| `StringCache.StringRecordIsGenuine` | internal/decoder/data_decoder.go:320-346 | the offset computed for any string record is one the previous property covers |
| `StringCache.AlternateDiffers` | internal/decoder/string_cache.go:83-86 | the alternate slot is never the primary slot |
| `StringCache.StepKeepsInv` | internal/decoder/string_cache.go:38-81 | every atomic step keeps cached strings equal to what their offset determines |
| `StringCache.CacheIsTransparent` | internal/decoder/string_cache.go:31-81 | in every run and interleaving, each call that returns gives exactly its argument |
| `StringCache.NoCallWaits` | internal/decoder/string_cache.go:38-81 | every call returns within five steps of its own, whatever the others do |
| `StringCache.HitsChangeNothing` | internal/decoder/string_cache.go:45-60 | calls for cached strings, or for lengths the cache refuses, change nothing |
| `StringCache.MissOutcome` | internal/decoder/string_cache.go:62-78 | a first miss stores no string and is remembered; a miss right after it admits the string |
| `StringCache.SecondCallAdmits` | internal/decoder/string_cache.go:62-78 | after two undisturbed calls a string of cacheable length is cached |
| `FieldTable.InsertKeeps` | internal/decoder/reflection.go:2274-2287 | placing a field at the end of its probe disturbs no earlier probe |
| `FieldTable.MakeFingerprintFields` | internal/decoder/reflection.go:2267-2289 | for any insertion order every field stays findable and an empty slot remains |
| `FieldTable.FieldForFingerprint` | internal/decoder/reflection.go:2234-2247 | probing terminates, and a miss means that no field has the fingerprint |
| `FieldTable.FieldForKey` | internal/decoder/reflection.go:2226-2232 | equals the map lookup for every key, collisions included |
| `FieldTable.BuildAndFind` | internal/decoder/reflection.go:2226-2289 | building from any listing and looking up any key gives the map's answer |
| `FieldTable.HintsInvisible` | internal/decoder/reflection.go:1751-1759 | after any order of racing fill-once stores, the field chosen through any hint slot is the map's |

## Left out

- Opening, mapping and closing files, metadata decoding and its field checks.
- Reflection into Go structs, pointers, interfaces and custom unmarshalers; there is one dynamic destination.
- Error text, error paths and context wrapping; failures are classes, and an error's class is stated only where a property needs it.
- The `SkipEmptyValues` option.
- `MapReader`, which by its own description cannot verify membership or count, `SizeForCapacity`, which only reads, and the stateful `Decoder` with its iterators.
- `maxsize` schema checks other than the string size limit, and `CheckMaxSize`.
- How strings alias or copy the buffer; payloads are values here.
- The sizes of slices reused from an existing destination, since the destination is always new.
- FieldTable.FieldForKey: names and keys are shorter than 2^32 - 1 bytes, because the length shares 64 bits with four name bytes; map keys of the format always are.
- Cursors.OpenTracks: the exact refusals of `Map` and `Slice` before opening are modelled as bounds plus preflight, without their error classes.
- The maxminddb-gen code generator and struct-tag parsing.
