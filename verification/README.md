# Verified model of a search engine

An in-process search engine keeps each of its fast structures next to a simple
counterpart that it should agree with: a segmented inverted index and the set of
postings, an append-only log and a map, a block tree and a filter, a bounding-box tree
and a linear scan, a dynamic-programming table and the shortest edit script, a
write-ahead log and the run without a crash, candidate sets and brute force, pages and
one list. This project models those structures in Dafny, in the form the program gives
them (classes whose methods update their fields, loops over arrays, maps and byte
slices), proves each operation against a specification, and proves what the
specifications promise over every input, every run and every interleaving.

Verify it with `dafny verify dfyconfig.toml`.

## The modules

- `EditDistance`: the in-place Levenshtein table of `analysis/fuzzy.go`, scripts of
  edits, and the metric laws.
- `LogStore`, `LogStoreRuns`: the byte log with its offset index, recovery from any cut,
  compaction, and refinement of a map over runs of puts, deletes, compactions and reopens.
- `InvertedIndex`, `MergeRuns`: buffer, segments, tombstones, lookup, and the three-phase
  merge as a step machine interleaved with adds, deletes and flushes.
- `NumericCodes`, `BlockCodec`, `NumericIndex`, `NumericRuns`: the order-preserving codes,
  the block format, the block tree, and range queries over whole histories.
- `KDTree`, `KDTreeRuns`: building, searching and deleting in the bounding-box tree,
  compared with the linear scan.
- `WalStore`, `WalReplay`, `RecoveredPhrases`: schema resolution, indexing and redo
  recovery. The engine there owns an `InvertedIndex.Index` and so flushes when its policy
  says so.
- `Tokenizer`, `Query`, `Candidates`: token streams, phrases, boolean matching, and
  candidate search on an `InvertedIndex.Index`.
- `Trie`: the linked prefix tree. `Paging`: pages and cursors. `SortFirst`: the sort-first
  walk, its ties and its early stop.
- `Bytes`, `Wrappers`, `Sequences`, `Sorting`: shared vocabulary.

## Modelling decisions

- Lengths are kept in 32-bit fields. `LogStore.Store.Put` takes keys and values of any
  length and stays valid exactly for those below 2^32 (`Bytes.Blob`), which the records,
  logs and block entries hold. Other strings are `seq<char>`, one element per rune.
- A float is its 64-bit pattern. The XORs are written as arithmetic, which
  `NumericCodes.XorOnWords` justifies on machine words. What the machine makes of a float
  bound converted to an integer is a parameter (`NumericIndex.Bound.truncated`).
- Values in the bounding-box tree are extended reals without NaN. Its entries are one
  array that is sorted in place; a leaf is a range of that array. `Tree.Build` demands what
  the program demands: more than 64 entries need at least one field to split on.
- Map iteration order is always left open (a loop that takes any remaining key), and so is
  the order in which a lookup's goroutines deliver their segments.
- `sort.Slice` and `sort.SliceStable` are insertion sorts; contracts promise only a sorted
  permutation, and of the stable sort the one stable ranking of grouped hits.
- The write-ahead log is a sequence of whole entries. Type inference, text analysis and the
  Unicode tables are given functions; inference never yields the skip type.
- The words of a phrase arrive already split at spaces. `Query.Clause.Other` stands for the clause
  kinds that add candidates but are not checked by a match.

## Where the code does not do what its documentation suggests

The model follows the code; each item is a proved statement.

- A merge is documented to remove deleted documents for good. It forgets every tombstone it
  has seen, so a document deleted while still in the buffer, or flushed after the merge
  began, is found again (`MergeRuns.DeletedFoundIff`, `SwapHides`, `MergeLosslessIff`,
  `MergeBringsBackBufferedDelete`).
- A put torn inside its value stays indexed: its key reads absent, hides the older value,
  and comes back with foreign bytes when the next record fills the hole
  (`LogStoreRuns.RecoveryAtAnyCut`, `AppendFrame`, `TornKeyComesBack`). A put made after such
  a recovery is not found at the next open, and a deleted key may return
  (`LogStoreRuns.PutAfterRecoverySurvives`, `AppendAfterRecovery`, `DeletedKeyComesBack`). A
  compaction may then grow the file (`CompactionGrowsIff`, `CompactionCanGrow`), although it
  is documented to shrink it.
- Exclusive numeric bounds wrap round at the extreme codes, minus zero lies below zero, and
  fractional bounds on integer fields are truncated (`NumericRuns.ExclusiveBoundsExact`,
  `FloatBoundsExact`, `TruncatedBoundsExact`).
- A missing field is zero to the bounding-box tree and no match to the linear scan
  (`KDTree.TreeEqualsScanIff`).
- A replay restores field values but drops boosts and vectors
  (`WalStore.ReplayRestoresDocumentIff`).
- Two phrases on different fields that share a word read each other's positions
  (`Candidates.PhraseQueryExactIff`), and a query that only excludes finds nothing
  (`Candidates.OnlyExcludingFindsNothing`).
- A page's cursor is documented to be absent on the last page; it is absent only on an empty
  page (`Paging.CursorsCoverEverything`). The early stop of a sort-first search can cut a
  page short or keep the wrong hit of a tie (`SortFirst.EarlyStopPageExactIff`,
  `EarlyStopPrefixIff`).
- The standard tokenizer drops everything that is neither a separator nor a letter, digits
  included, without ending the word (`Tokenizer.Tokenize`).

## Model

| member | source | states |
|---|---|---|
| `EditDistance.FillTable` | analysis/fuzzy.go:6-27 | every cell of the finished table is the distance between its two prefixes |
| `EditDistance.FillRow` | analysis/fuzzy.go:18-26 | one pass of the inner loop completes one row and leaves the rows above and the border alone |
| `EditDistance.Compute` | analysis/fuzzy.go:6-28 | the result is the least length of any script of single-byte inserts, deletes and substitutions that turns one string into the other |
| `EditDistance.FreeDiagonal` | analysis/fuzzy.go:20-24 | taking the diagonal for free on a match loses nothing: the cell still is the minimum of all three textbook moves |
| `EditDistance.NoShorterScript` | analysis/fuzzy.go:6-28 | no edit script whatsoever is shorter than the table says |
| `EditDistance.ShortestScript` | analysis/fuzzy.go:6-28 | a script of exactly that length exists |
| `EditDistance.LevIsDistance` | analysis/fuzzy.go:3-6 | the recurrence computes the documented minimum number of edits |
| `EditDistance.Triangle` | analysis/fuzzy.go:6-28 | the triangle inequality |
| `EditDistance.DistanceIsMetric` | analysis/fuzzy.go:6-28 | answers are zero only on equal strings, symmetric, satisfy the triangle inequality, and lie between the length difference and the longer length |
| `EditDistance.OneEditApart` | analysis/fuzzy.go:3-6 | distance one means, in plain bytes, that one string has one byte more or differs in one byte |
| `LogStore.HeaderRoundTrip` | storage/local/local.go:259-279 | a header decodes to itself exactly when both lengths fit 32 bits |
| `LogStore.Store.constructor` | storage/local/local.go:45-71 | opening any file terminates with an index that points only at put records in it |
| `LogStore.Store.LoadEntries` | storage/local/local.go:306-343 | the scan loop builds the index of the recovery function, stopping at a truncated header or key |
| `LogStore.Store.Put` | storage/local/local.go:74-113 | a nine-byte header (kind one and both lengths, most significant byte first), key and value are appended and the key indexed at the old end of the file, all else stands; the store stays valid exactly when both lengths fit 32 bits, and then gains exactly the put record |
| `LogStore.Store.Delete` | storage/local/local.go:122-152 | a nine-byte header of kind two and the key are appended and the key leaves the index, all else stands; the store stays valid, and gains exactly the delete record if the key fits |
| `LogStore.Store.Get` | storage/local/local.go:281-304 | a value is returned exactly for indexed keys whose record ends within the file, and it is the bytes behind header and key; that is the store's meaning |
| `LogStore.Store.Compact` | storage/local/local.go:184-245 | file and index become those of one put per readable key, in some order, at the running sums of the record sizes |
| `LogStore.LoadIsWellIndexed` | storage/local/local.go:306-343 | whatever bytes the file holds, every indexed entry points at a put record for its key, so reads stay inside their buffer |
| `LogStore.LoadIsDisjoint` | storage/local/local.go:306-343 | whatever bytes the file holds, indexed records of different keys occupy disjoint ranges |
| `LogStore.OpeningBytes` | storage/local/local.go:306-343 | opening literal bytes: a record of kind one, its lengths big-endian, indexes its key, and a record of any other kind takes it out again |
| `LogStoreRuns.AppendFrame` | storage/local/local.go:74-152 | a put or a delete leaves another key's answer alone if and only if its record does not fill up that key's torn record |
| `LogStoreRuns.LogMeaning` | storage/local/local.go:74-152 | after any log of puts and deletes, reads equal the fold of the log, and records are disjoint and inside the file |
| `LogStoreRuns.ReopenIsIdentity` | storage/local/local.go:45-71 | reopening an uncut file gives the live store back, index and all |
| `LogStoreRuns.RecoveryAtAnyCut` | storage/local/local.go:306-343 | the first n bytes of a log, for every n, read as the fold of the complete records, except that a put torn inside its value makes only its own key absent |
| `LogStoreRuns.PutAfterRecoverySurvives` | storage/local/local.go:306-343 | a put made after recovery is indexed at its own place at the next open, and the whole store is as it was, if and only if the recovery scan ended exactly at the end of the file |
| `LogStoreRuns.AppendAfterRecovery` | storage/local/local.go:306-343 | at the next open the scan reads on behind any record written after a recovery from where it gave up: it finds the record where it had used up the file, and no trace of it where no header fits any more |
| `LogStoreRuns.DeleteAfterRecovery` | storage/local/local.go:122-152 | a delete whose record disappears that way is undone if and only if there was something to delete |
| `LogStoreRuns.DeletedKeyComesBack` | storage/local/local.go:306-343 | a concrete file on which a key deleted after a recovery is indexed again at the next open |
| `LogStoreRuns.TornKeyComesBack` | storage/local/local.go:330-340 | a concrete torn key that reads absent and then returns with foreign bytes after a put of another key |
| `LogStoreRuns.CompactNeverGrows` | storage/local/local.go:184-245 | when indexed records are disjoint, the rewritten log is no longer than the old one |
| `LogStoreRuns.CompactPreserves` | storage/local/local.go:184-245 | compaction changes no answer, leaves exactly the readable keys and reopens as itself; the new length is the total size of the readable records, so no more than the old one when records are disjoint |
| `LogStoreRuns.CompactionGrowsIff` | storage/local/local.go:184-343 | some puts and deletes after opening a file make a compaction grow it if and only if the records the scan indexed, a torn one counted in full, take more bytes than the file has |
| `LogStoreRuns.CompactionCanGrow` | storage/local/local.go:184-245 | the smallest case: ten bytes of a torn put, then a put, and every compaction writes 22 bytes for 21 |
| `LogStoreRuns.RunCompactNeverGrows` | storage/local/local.go:184-245 | along every run of puts, deletes, compactions and reopens from an empty file, no compaction grows the file |
| `LogStoreRuns.RunRefinesMap` | storage/local/local.go:74-245 | after any run of puts, deletes, compactions and reopens from an empty file the store reads as the map of its puts and deletes, and reopening changes nothing |
| `LogStoreRuns.RunRecovers` | storage/local/local.go:306-343 | any cut of the file that any run leaves recovers the fold of the complete records of an honest log of that run |
| `LogStoreRuns.CrashInsideOperation` | storage/local/local.go:74-152 | a crash at any byte inside a put or delete reads as the map before it, or without the key once a put's header and key are down |
| `LogStoreRuns.RunsStayWellIndexed` | storage/local/local.go:74-343 | from any bytes on disk, no run ever indexes something that is not a put record |
| `InvertedIndex.Index.ClearTombstone` | index/index.go:444-458 | the tombstone goes, and with it the buffered postings of a tombstoned buffered document and the terms left empty |
| `InvertedIndex.Index.Add` | index/index.go:151-195 | exactly the tokens' occurrences are recorded under the document after clearing its tombstone, and their terms enter the prefix tree; each token finds the document behind the field's name and a colon, and no other document is touched; the buffer is flushed exactly when tokens or documents reach their limit; the index stays well formed |
| `InvertedIndex.Index.AddRaw` | index/index.go:197-227 | the same for a single term at position zero |
| `InvertedIndex.Index.PrefixSearch` | index/index.go:430-435 | lists every indexed term with the prefix, once each, and otherwise only terms inserted earlier: the prefix tree holds all terms of buffer and segments through adds, flushes and merges |
| `InvertedIndex.Index.Lookup` | index/index.go:230-281 | finds exactly the untombstoned documents with a posting in the buffer or a segment; each comes with its buffered posting, or with that of any one segment having it |
| `InvertedIndex.Index.SearchSegment` | index/index.go:251-266 | one goroutine's pass, in any order among the others, keeps that relation for the segments searched so far |
| `InvertedIndex.Index.Delete` | index/index.go:284-290 | only a tombstone is added |
| `InvertedIndex.Index.Terms` | index/index.go:292-316 | lists exactly the terms of the buffer and of all segments |
| `InvertedIndex.Index.Flush` | index/index.go:332-336 | the buffer becomes the last segment and is emptied |
| `InvertedIndex.Index.MergeSnapshot` | index/index.go:391-397 | remembers the segments and a copy of the tombstones |
| `InvertedIndex.Index.MergeBuild` | index/index.go:400-416 | the merged segment has every term of the snapshotted segments, exactly the postings of documents not dead at the snapshot, of several versions the one of the newest segment, and lists exactly the documents that have a posting |
| `InvertedIndex.Index.MergeSwap` | index/index.go:419-427 | replaces exactly the snapshotted segments, keeps the later ones, removes exactly the snapshotted tombstones |
| `InvertedIndex.Index.Merge` | index/index.go:389-428 | the three phases with nothing in between: one segment, no tombstones, the buffer as it was |
| `MergeRuns.SwapRule` | index/index.go:419-427 | the swap changes no search for a document alive at the snapshot; a document dead at the snapshot is found afterwards exactly where the merge has not looked |
| `MergeRuns.SwapKeepsPostings` | index/index.go:399-427 | for a document alive at the snapshot, every posting a lookup may deliver after the swap, frequency and positions included, is one it could deliver before |
| `MergeRuns.MergeKeepsNewest` | index/index.go:402-427 | for a document alive at the snapshot, the merged segment holds the posting of the newest snapshotted segment that has one, and unless a later segment has one too, that is the only posting a lookup may deliver |
| `MergeRuns.SwapHides` | index/index.go:402-426 | a document dead at the snapshot stays hidden if and only if it is in neither the buffer nor a later segment |
| `MergeRuns.UninterleavedMerge` | index/index.go:389-428 | run alone, a merge keeps the term list and adds to each lookup exactly the buffered tombstoned documents |
| `MergeRuns.MergeLosslessIff` | index/index.go:389-428 | run alone, it changes no search if and only if no tombstoned document has a buffered posting |
| `MergeRuns.SwapUnhidesIff` | index/index.go:419-427 | a swap brings some deleted document back if and only if a document still deleted has a posting the merge has not looked at |
| `MergeRuns.SnapshotStaysPrefix` | index/index.go:391-422 | over every interleaving the snapshot stays a prefix of the live segments, so the swap's slice is in range |
| `MergeRuns.NothingLost` | index/index.go:151-428 | over every interleaving of adds, deletes, flushes and merge phases, every term added for a live document since its last delete finds it |
| `MergeRuns.DeletedFoundIff` | index/index.go:284-428 | over every interleaving, a term finds a document deleted last if and only if some later merge end forgot its tombstone while the term had a posting of it that the merge had not looked at |
| `MergeRuns.DeletedStaysHidden` | index/index.go:284-428 | over every interleaving, a document deleted last is hidden from all terms if and only if no later merge end does that |
| `MergeRuns.MergeBringsBackBufferedDelete` | index/index.go:389-428 | a four-step run after which a deleted document is found again |
| `MergeRuns.RunsAreWellFormed` | index/index.go:151-227 | in every reachable index a posting's frequency is the number of its positions, no buffered term is empty, and every document with a posting is listed |
| `MergeRuns.UpsertLeavesNoTrace` | index/index.go:444-458 | deleting a wholly buffered version and adding a new one before any flush leaves exactly the new version's postings, and only its terms find the document |
| `MergeRuns.FreshPosting` | index/index.go:160-185 | in any buffer, the posting of a term the document did not have holds the term's positions in stream order and their number |
| `MergeRuns.AddedPosting` | index/index.go:160-185 | behind the positions the document keeps come exactly the places of the term in the stream, in order, and the frequency is the number of positions |
| `NumericCodes.FloatCodes` | index/numeric.go:270-285 | the float code is a bijection on 64-bit patterns, undone by decoding, and realises totalOrder (section 5.10 of IEEE 754-2019) |
| `NumericCodes.FloatOrderIsValueOrder` | index/numeric.go:267-276 | codes of floats that are not NaN compare like their values for every pair but plus zero against minus zero |
| `NumericCodes.IntCodes` | index/numeric.go:287-295 | the integer code is a bijection that preserves signed order |
| `NumericCodes.XorOnWords` | index/numeric.go:270-295 | on 64-bit machine words the two XORs are the additions and subtractions of the model |
| `NumericRuns.ExclusiveBoundsExact` | index/numeric.go:150-158 | the codes an exclusive bound of a range selects are exactly those strictly beyond it if and only if it is not the extreme code, where it lets everything through |
| `NumericRuns.TruncatedBoundsExact` | index/numeric.go:147-182 | on an integer field, each of the four bounds selects exactly the right integers if and only if it is whole or on the right side of zero and, if exclusive, not at the extreme |
| `NumericRuns.FloatBoundsExact` | index/numeric.go:147-182 | on a float field, each of the four bounds selects exactly the right values, infinities included, if and only if it is not the zero of the wrong sign |
| `NumericRuns.IntegerRange` | index/numeric.go:141-182 | the filter that a range query of an integer field refines is the comparison of the integers with the real bounds, for bounds that truncate exactly |
| `NumericRuns.FloatRange` | index/numeric.go:141-182 | the filter that a range query of a float field refines is the comparison of values, for bounds that are not the zero of the wrong sign |
| `BlockCodec.Encode` | index/numeric.go:334-347 | the write loop produces the block format |
| `BlockCodec.Decode` | index/numeric.go:299-330 | the read loop agrees with the decoding function, including each of its four errors |
| `BlockCodec.BlockRoundTrip` | index/numeric.go:297-347 | decoding an encoded block returns its entries, whatever bytes follow |
| `BlockCodec.CutBlockRejected` | index/numeric.go:299-330 | every strict prefix of an encoded block is rejected |
| `BlockCodec.DecodesIff` | index/numeric.go:297-347 | decoding accepts exactly the data that begin with the encoding of fewer than 2^32 entries, and returns those entries |
| `BlockCodec.BlockBytes` | index/numeric.go:334-347 | the literal bytes of a block: count, code, id length and id, all big-endian |
| `NumericIndex.BlockKeyInjective` | index/numeric.go:123 | keys of different (field, block) pairs never collide, whatever characters the field names hold |
| `NumericIndex.BlockKeyText` | index/numeric.go:123 | the key is the field's name and the block's number in decimal behind their prefix |
| `NumericIndex.TreeSpans` | index/numeric.go:213-253 | the blocks of a valid tree concatenate to one sorted sequence, and the root's extremes are the true ones |
| `NumericIndex.BuildTreeValid` | index/numeric.go:213-233 | the tree built over leaves in order is valid, holds exactly their entries, and has their outer extremes |
| `NumericIndex.BuildTreeBalanced` | index/numeric.go:213-233 | the tree has exactly the given leaves, and every branching halves them to within one |
| `NumericIndex.FilterInPlace` | index/numeric.go:105-110 | the filter that overwrites the slice it reads keeps exactly the live entries, in order and each as often as it stood there |
| `NumericIndex.LiveSorted` | index/numeric.go:105-114 | the live entries, each as often as before, sorted by code |
| `NumericIndex.WriteBlocks` | index/numeric.go:116-130 | block j holds the entries from 512 j on, 512 of them or what is left; the leaves are valid and concatenate to the input, and no other field's blocks are disturbed |
| `NumericRuns.SearchBlock` | index/numeric.go:192-207 | binary search and scan of a sorted block return exactly what a filter of it returns |
| `NumericRuns.SearchTree` | index/numeric.go:184-211 | pruning and search of a valid tree return exactly what a filter of all its entries returns |
| `NumericRuns.Index.AddFloat` | index/numeric.go:56-63 | stages the float's code, makes the field a float field, and keeps the index representing its history |
| `NumericRuns.Index.AddInt` | index/numeric.go:66-73 | the same for an integer |
| `NumericRuns.Index.Delete` | index/numeric.go:76-81 | marks the document, and keeps the index representing its history |
| `NumericRuns.Index.FlushField` | index/numeric.go:101-133 | one field becomes a valid tree of its live entries, and every other field keeps its tree and entries |
| `NumericRuns.Index.Flush` | index/numeric.go:85-137 | every field keeps exactly its live entries as a valid tree, and nothing is staged or marked any more |
| `NumericRuns.Index.Range` | index/numeric.go:141-173 | after any history of adds, deletes and flushes, returns as a multiset exactly the staged entries of the field that no deletion hides and whose code is within the bounds, exclusive bounds overriding inclusive ones |
| `NumericRuns.RangeAnswer` | index/numeric.go:141-182 | that answer, operation by operation: one document for each entry added to the field that no delete of its document hides, be it later or before it in the same flush, and whose code meets the bounds; an exclusive bound at the extreme code lets all pass |
| `NumericRuns.VisibleAfterAdd` | index/numeric.go:56-73 | an added entry becomes visible unless its document was deleted since the last flush |
| `NumericRuns.VisibleAfterDelete` | index/numeric.go:76-81 | a deletion hides exactly the document's entries |
| `NumericRuns.VisibleAfterFlush` | index/numeric.go:85-137 | a flush changes nothing that is visible, so no range answer |
| `KDTree.EntryMatchesBounds` | index/index.go:506-526 | the linear check: every bounded field is present and on the right side of each of its four kinds of bound |
| `KDTree.MatchesMeans` | index/kdtree.go:170-178 | both checks in full: a missing field fails the linear one and counts as zero in the other, and each kind of bound lets exactly its side pass |
| `KDTree.SplitLeavesAreFull` | index/kdtree.go:80-133 | every leaf of a split tree holds 32 to 64 entries |
| `KDTree.PruningLosesNothing` | index/kdtree.go:159-164 | a box that misses a bound holds no entry the linear scan would return |
| `KDTree.FoundBetweenScans` | index/kdtree.go:154-191 | the tree's answer contains the linear scan's and is contained in that of a scan reading missing fields as zero, as multisets |
| `KDTree.FoundIsLinearScan` | index/kdtree.go:154-191 | when every live entry carries the bounded fields, the tree's answer is the linear scan's |
| `KDTree.TreeEqualsScanIff` | index/kdtree.go:154-191 | tree and scan agree on all bounds of a field if and only if every live entry carries it |
| `KDTreeRuns.LeafBox` | index/kdtree.go:82-97 | each side of the box over a leaf is the true extreme of its field among the entries |
| `KDTreeRuns.JoinBoxes` | index/kdtree.go:118-123 | each side of the joined box is the extreme of the two halves' sides, over exactly the tree's fields |
| `KDTreeRuns.JoinedIsBox` | index/kdtree.go:118-123 | the joined box has the true extremes of both halves' entries |
| `KDTreeRuns.FieldNames` | index/kdtree.go:58-69 | every field of the entries once, in order |
| `KDTreeRuns.LeafMatches` | index/kdtree.go:171-181 | the check of a leaf: the value, or zero for a missing field, is on the right side of each kind of bound |
| `KDTreeRuns.BuildHalves` | index/kdtree.go:107-132 | halves, boxes, split field and split value of a sorted slice make a valid split whose halves stay separated however they are rearranged below |
| `KDTreeRuns.BuildNode` | index/kdtree.go:74-133 | terminates, only permutes its slice, and yields a valid tree whose boxes are the true extremes and that splits each slice by its turn of the fields |
| `KDTreeRuns.SearchNode` | index/kdtree.go:154-191 | the recursive search returns what the specified pruned search finds |
| `KDTreeRuns.DeleteFromNode` | index/kdtree.go:259-278 | only flags of the document are set, and all of them when ids are unique |
| `KDTreeRuns.Tree.Build` | index/kdtree.go:54-72 | the tree is valid over the same entries, rearranged, with true extremes in every box and the sorted field names as its rotation |
| `KDTreeRuns.Tree.Delete` | index/kdtree.go:252-257 | the entries are those of the build with the documents removed since flagged |
| `KDTreeRuns.Tree.MultiRange` | index/kdtree.go:141-152 | after any build and deletes with unique ids: everything the linear scan returns, nothing that fails with missing fields as zero, no document twice, and exactly the linear scan when live entries carry the bounded fields; up to 64 entries, exactly the live documents that pass with missing fields as zero, if every bound reaches its field's values |
| `KDTreeRuns.FoundAnswers` | index/kdtree.go:154-191 | that answer does not depend on how sorting rearranged the entries |
| `KDTreeRuns.UnsplitAnswer` | index/kdtree.go:154-191 | in an unsplit tree a document that lacks a bounded field is returned if and only if zero passes the bound and the box, which flagged entries still stretch, is not pruned |
| `WalStore.ResolveKeepsDropped` | engine/mapping.go:79-102 | resolving a document's fields never changes which fields are kept out of the store |
| `WalReplay.SchemaOfDocument` | engine/mapping.go:79-102 | a new field gets its inferred type, an inferred field whose values disagree becomes text, and explicit, agreeing and unmentioned fields stay |
| `WalReplay.TermsOfDocument` | engine/engine.go:211-241 | a document's terms are the words of its indexed text fields and the whole values of its other indexed fields, each behind the field's name and a colon |
| `WalReplay.VersionMeans` | engine/engine.go:193-262 | what it means for searches that a version was indexed: its words and values find the document, nothing else newly does, and other documents are found as before |
| `WalReplay.Engine.IndexInternal` | engine/engine.go:193-262 | in whatever order fields are visited: the schema takes each field's rule, the stored document is the fields that are neither skipped nor unstored, each word of an indexed text field and each value of another indexed field finds the document behind the field's name, no other terms are added, and no other document is touched; without a flush on the way the index gains exactly the fields' token streams |
| `WalReplay.Engine.AddField` | engine/engine.go:211-241 | a text is analysed and every other type is one term, added with or without making the index flush |
| `WalReplay.Engine.Index` | engine/engine.go:167-191 | an empty id changes nothing; otherwise the entry is logged before the store is touched, the old version retired, the new one stored and indexed, and the engine stays where its log leads; a crash after any step leaves a store that a replay completes |
| `WalReplay.Engine.DeleteInternal` | engine/engine.go:282-292 | tombstones the document and removes it from the store |
| `WalReplay.Engine.Delete` | engine/engine.go:265-280 | logs the delete, then does it, and the engine stays where its log leads; a crash after either step leaves a store that a replay completes |
| `WalReplay.Engine.ReplayWAL` | engine/snapshot.go:147-160 | the store becomes the redo of the log over what it held; from an empty index, every term of a last live version finds its document and a document deleted last is tombstoned, whatever was flushed; with no flush, every document has exactly the postings of its last live version, and a search finds exactly those |
| `WalReplay.LiveTermsOf` | engine/snapshot.go:147-160 | the terms a log leaves a document with are those of its last version under the schema of that moment |
| `WalReplay.VersionReplayed` | engine/snapshot.go:150-155 | replaying one more version keeps all of that, retiring the version the store still held |
| `WalStore.ReplayRestoresValues` | engine/snapshot.go:147-173 | a replay over any store that agrees outside the log gives every id the field values of the run without a crash |
| `WalStore.RedoIsIdempotent` | engine/snapshot.go:147-160 | so does one over the effects of any prefix of the log with one operation half done |
| `WalStore.ReplayTwice` | engine/snapshot.go:147-160 | a replay that is interrupted anywhere, even inside one entry, and started over ends the same |
| `WalStore.ReplayRestoresDocumentIff` | engine/snapshot.go:162-173 | a replayed document equals the one indexed if and only if no stored field of it had a boost or a vector |
| `WalReplay.Recover` | engine/engine.go:139-164 | a fresh engine over a store left by a crash at any point of the log ends with the values of the run without a crash, finds every last live version and no document deleted last, and without a flush holds exactly the postings of the last live versions |
| `WalReplay.LiveAndRecoveredAgree` | engine/engine.go:139-292 | an unflushed run and an unflushed replay of its log answer every search alike |
| `RecoveredPhrases.RecoveredPhrase` | engine/snapshot.go:147-173 | after an unflushed replay, a phrase finds a live document exactly when its words are a contiguous run of the text its last version has in that field |
| `Tokenizer.Tokenize` | analysis/tokenizer.go:42-69 | the tokens are those of the four laws below: chunks between separators reduced to their letters, lower-cased and numbered |
| `Tokenizer.SeparatorSplits` | analysis/tokenizer.go:51-57 | at a space or a punctuation mark the text falls apart: its tokens are those of the two halves, numbered on |
| `Tokenizer.OthersVanish` | analysis/tokenizer.go:58-62 | a character that is neither a separator nor a letter can be left out anywhere without changing a token |
| `Tokenizer.LettersAreAWord` | analysis/tokenizer.go:58-68 | letters alone are one token at position zero, lower-cased, and an empty text has none |
| `Query.ContainsPosition` | query/phrase.go:45-51 | true exactly for the listed positions |
| `Query.PhraseMatch` | query/phrase.go:7-43 | true exactly when behind some place of the first word the others follow at consecutive positions, repeated words and later starts included; an empty phrase never matches |
| `Query.PhraseFindsRuns` | query/phrase.go:7-43 | when a field is added to a document that had none of the phrase's words under it, whatever other fields it has, a phrase matches exactly when its words are a contiguous run of the token stream |
| `Query.OtherFieldsKeepPhrase` | index/index.go:160-185 | adding further fields that do not mention the phrase's keys keeps its answer |
| `Query.Match` | query/match.go:12-46 | the one loop with its flags decides, on keys made of field, colon and term: all musts, no must-nots, all phrases, and some should unless there is a must or no should |
| `Candidates.LookupForcedIff` | index/index.go:248-267 | a lookup has only one possible answer if and only if the segments agree on the live postings of the term |
| `Candidates.DeliveredByLookup` | index/index.go:230-281 | the postings that the statements about merges call deliverable are exactly those that lookups come with |
| `Candidates.WholeIsBuffer` | index/index.go:230-281 | before the first flush and without deletes, what lookups return is the buffer |
| `Candidates.BuildCandidates` | engine/search.go:45-76 | each document is filed with exactly the postings of the lookups the clauses ask for, whichever answers they give, later ones overwriting, and only if there are any; with one version of each document, with the whole index's |
| `Candidates.SearchIds` | engine/search.go:104-120 | returns exactly the stored candidates that match, whichever answers the lookups give; without phrases, exactly the stored documents that some clause finds, all musts find, no must-not finds and, if there is a should and no must, some should finds; with one version of each document and for compatible phrases and a demanding query, exactly the stored documents that satisfy the query on the whole index |
| `Candidates.CandidatesEqualBruteForce` | engine/search.go:45-120 | evaluation on the filed postings equals evaluation of every clause on the whole index |
| `Candidates.BruteMeansText` | query/match.go:12-46 | evaluation on the index of one document is evaluation on its text: a term is a word of the field, a phrase a stretch of it |
| `Candidates.PhraseQueryExactIff` | engine/search.go:55-66 | a query of phrases is answered like brute force for every document of differently named fields, one token stream each, if and only if there is a phrase and no two on different fields share a word, or one is empty |
| `Candidates.SharedWordFoolsCandidates` | engine/search.go:55-66 | for any phrases of which two share a word across fields, a document, added field by field, that candidate search finds and brute force does not |
| `Candidates.CandidateSearchExactIff` | engine/search.go:45-76 | with compatible phrases, the answer is that of brute force for every such document if and only if some clause demands a term or a phrase |
| `Candidates.OnlyExcludingFindsNothing` | engine/search.go:45-120 | a query that only excludes finds nothing in any index |
| `Candidates.IndexHolds` | index/index.go:160-185 | a document added field by field is filed under each key of a field exactly where the word stands in that field's stream |
| `Trie.Trie.Insert` | index/trie.go:19-30 | the nodes stay a tree in which each hangs at exactly one path and each end carries its path, and the terms grow by exactly the inserted one |
| `Trie.Trie.CollectTerms` | index/trie.go:32-40 | terminates and lists exactly the terms below the node, once each |
| `Trie.Trie.Search` | index/trie.go:43-56 | lists exactly the inserted terms with the prefix, once each, and nothing when the path ends early |
| `Trie.ChildKeepsTree` | index/trie.go:22-25 | hanging a new node below another never makes a cycle or a shared node |
| `Paging.ApplyPagination` | engine/search.go:271-313 | the page holds the hits from its start on, as many as there are and as size and result limit allow; it starts behind the cursor's document, is empty and without a cursor if that document is not in the result, and starts at the offset otherwise; a sorted page that is not empty gets a cursor with the sort value and id of its last hit |
| `Paging.CursorsCoverEverything` | engine/search.go:271-313 | on a fixed list of distinct documents, following the cursors covers every hit once and in order in non-empty pages of at most the size, and ends with an empty page, the only one without a cursor |
| `SortFirst.WalkEntries` | engine/search.go:162-179 | the walk yields the qualifying hits in entry order up to the limit, and has met every entry unless it stopped |
| `SortFirst.BreakTies` | engine/search.go:181-189 | when equal sort values stand together, the result is the stable ranking within groups |
| `SortFirst.StableIsTheRanking` | engine/search.go:181-189 | that is the only rearrangement that keeps the sort values in place, puts the best scores of a group first, and keeps the order of hits equal in both |
| `SortFirst.Search` | engine/search.go:143-215 | the walked hits stably ranked within groups and, unless they reach the limit, the best of the documents that lack the field |
| `SortFirst.SearchMeans` | engine/search.go:143-215 | that list, hit by hit: the entries walked are all that qualify up to the stop; their hits keep the entry order of sort values and stand best score first within one; behind them, best score first and each once, the documents without an entry, of which a limit cuts off none better than it lets in |
| `SortFirst.SortFirstReturnsAll` | engine/search.go:191-212 | without a limit every qualifying document is returned |
| `SortFirst.SortFirstIsPrefix` | engine/search.go:150-212 | without ties, the early-stopped result is a prefix of the one full walk |
| `SortFirst.StablePrefixIff` | engine/search.go:176-189 | ranking the first n hits gives the first n of the ranking if and only if no later hit outranks an earlier one of its group, full ties included |
| `SortFirst.EarlyStopPrefixIff` | engine/search.go:150-212 | a search stopped within the walk is a prefix of the same search run to the end if and only if no hit beyond the stop outranks one before it in the same group |
| `SortFirst.StopBehindWalkIff` | engine/search.go:191-212 | stopped behind the walk, it always is a prefix if and only if no two documents lacking the field tie with fewer better ones than there is room for |
| `SortFirst.SearchPage` | engine/search.go:96-102 | the limit (none with a cursor, otherwise the end of the page if it is nearer than the result limit), the search and the pagination one after another |
| `SortFirst.CleanStopIsHarmless` | engine/search.go:150-212 | with ties too, a stop that cuts nothing better off its group and reaches the page leaves the page as it was |
| `SortFirst.EarlyStopPageExactIff` | engine/search.go:150-160 | even for distinct documents without any ties, the page of the stopped search is that of the search run to the end if and only if the result limit reaches the end of the requested page, there is no offset or limit, or a cursor is used |

## Left out

- The field index (`index/field_index.go`): the sorted entries of a sort-first search are an input. Its range query and comparator do not meet the orderings assumed elsewhere.
- Inserting into a built bounding-box tree: nothing calls it, and appending to a leaf that shares its array can overwrite the neighbouring leaf.
- In-place changes of a value whose document is already in the bounding-box tree, and entries staged after its build: the rebuild on flush (`index/index.go:338-344`) and the choice between tree and linear scan (`index/index.go:491-504`) are not modelled.
- Document counts, document lengths and scores, and with them BM25, vector and hybrid ranking: a score is an uninterpreted real. Highlights and aggregations.
- WalReplay.Engine.ReplayWAL: once a flush falls into the replay, says only that last live versions are found and documents deleted last are not, because postings of an older version then stay in a segment when its id is indexed again.
- WalReplay.Engine.IndexInternal: leaves out the vectors and field lengths kept beside the index.
- WalReplay.Engine.AddField: leaves out the numeric values and sort entries staged for the bounding-box tree and the field index.
- WalReplay.Engine.DeleteInternal: leaves out the removal of those.
- MergeRuns.UpsertLeavesNoTrace: needs the earlier version to be wholly in the buffer, for the same reason.
- Candidates.SearchIds: is compared with brute force only with one indexed version per id, the condition under which every lookup has one answer, and for phrase words free of colons.
- Candidates.PhraseQueryExactIff: no exact condition for queries that mix clauses of other kinds with phrases that share a word across fields; for those, `SearchIds` states what is returned from the lookups.
- SortFirst.BreakTies: promises no order when equal sort values do not stand together, because the comparator is then no weak order and the library sort promises none.
- The background trigger of merges: merge phases may begin whenever no other merge is under way, and a replay is stated without one. The timer that flushes.
- Saving and loading snapshots, gob and JSON text, torn or over-long lines of the write-ahead log, and its truncation after a snapshot. What a replay does to the index is stated from an empty index, as without a snapshot; what it does to the store, from any store.
- File errors, memory limits and locking outside the merge; the on-disk store under the block tree is a map from keys to bytes, which is what `LogStoreRuns.RunRefinesMap` proves of it for keys and values below 2^32 bytes.
- Synonyms, range and terms filters, regular expressions, wildcards, fuzzy and prefix result assembly, struct tags, re-indexing, and the remote storage stub.
