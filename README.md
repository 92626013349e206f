# vdb-validate: a verified model of its checking core

`vdb-validate` checks SRA tables and databases on disk. This project models the
parts of `tools/vdb-validate/vdb-validate.c` that decide the verdict. The library
calls around them are given as parameters.

- **The visit tree.** A consistency check of the storage layer reports
  every object it visits, tagged with its depth. The callback `visiting`
  appends one `node_t` per object to a flat array. It links the node to its
  parent, its previous sibling and its first child, and copies the name, with
  its NUL, into a name arena. `get_sizes` sizes both buffers beforehand by
  walking the directory. (`VisitTree`, `NameArena`, `CheckContext`)
- **The report callback.** `report` and the four handlers `report_index`,
  `report_column`, `report_table` and `report_database` update
  `cc_context_t`:
  - they latch the first failure in `ctx->rc`;
  - they count the columns that passed;
  - they answer the check with `report_rtn`, which is zero in exhaustive
    mode;
  - a table or database that lacks required md5 files stops the check.

  `kdbcc` runs the whole check and combines its result with the latched
  failure. (`Reports`, `CheckContext`, `ConsistencyRun`)
- **The referential-integrity check.** `ric_align_generic` reads table A's
  foreign key per row, in chunks of at most `work_chunk(count)` found rows.
  It sorts each chunk with `ksort` by (key, row) using `id_pair_cmp`. It
  groups the chunk into spans of equal key with `id_pair_span`. It compares
  each span's origin rows with the id list held by table B at row = key.
  (`Sorting`, `Ids`, `RefIntegrity`, `RefIntegrityProps`,
  `RefIntegrityExamples`, `RefIntegrityIntended`)
- **Aggregation.**
  - The two wrappers turn `TooBig` and a failed allocation into a skip.
  - `dbric_align` runs the SEQUENCE/PRIMARY_ALIGNMENT and
    REFERENCE/PRIMARY_ALIGNMENT checks and keeps the first failure.
  - `verify_database_align` classifies the root's children into a table
    bitmask, gives the structural verdict and then runs the integrity
    checks.

  (`Aggregate`, `Classify`)
- **Small rules.** These are the `name#version` split of `get_schema_info`
  and the option-to-mode-to-level mapping of `dbcc` and `kdbcc`.
  (`SchemaAndMode`)

The code is imperative in the source, and the model keeps that form:

- `visiting` and the handlers are methods of the class `CcContext`, over
  `array<Node>` and `array<char>`.
- `ric_align_generic` fills and sorts the `pair` and `scratch` arrays in
  place.
- The classifier is a loop along the sibling chain.
- `get_sizes`, `work_chunk`, `id_pair_span` and the schema split are loops.

Each method is proved equal to a specification function, and the properties
are proved as lemmas about those functions:

- The sequence of visits builds a tree whose links mean what they say
  (`VisitTree.Linked`).
- Every name can be read back from its node.
- For the same list of names, the size `get_sizes` sums is exactly the
  room their NUL-terminated copies take in the arena.
- The integrity check is sound in the direction it covers. When it
  returns 0, every A row in range was read cleanly, and every found one is
  backed by B.
- The check is also complete under three conditions. Every A row in range
  holds one key or is row-not-found. Every B list fits a chunk and is
  stored in ascending order. Every found A row is listed at its key.
- Every failure has a cause.
- The first failure wins, both in the handlers and in `dbric_align`.
- Exhaustive mode changes which failure is returned, never whether one is.

Behaviours of the code worth knowing:

- The integrity check runs in one direction only, from A's keys to B's
  lists. A B list naming a row that does not point back is not detected
  (`RefIntegrityExamples.UnbackedListEntryPasses`).
- The working-set ceiling is 2 GiB divided by 24 bytes per entry: a 16-byte
  `id_pair_t` plus an 8-byte scratch id. So the largest chunk is 89478485
  entries.
- The chunk is `count` halved, rounding down, until it fits. It is not a
  power-of-two divisor of `count`.
- A chunk holds at most `pairs` found rows. Extraction can therefore scan
  past `current + pairs`, and the next chunk reads those rows again.
- A cell too large for a chunk (`TooBig`) is reported as a skip with result
  zero, not as a finding.
- With `ref_int_check` set, which is the default (line 2043), the structural
  verdict is replaced by the integrity result (see Findings).

Two behaviours of the comparison are kept as written, each with a lemma
showing its effect and an intended variant beside it:

- When a B cell has more than four ids, only its first `span` ids are
  sorted (line 1069). A cell whose ids are not already ordered can reject an
  origin it lists (`RefIntegrityIntended.PartialSortRejectsListedOrigin`).
- For cells of at most four ids, `found` is never cleared between origins
  (lines 1104-1121). Only the span's first origin is really checked
  (`RefIntegrityProps.ScanFoundIsFirstOrigin`,
  `RefIntegrityIntended.SmallScanAcceptsUnlistedOrigin`).

## Model

| member | source | states |
|---|---|---|
| Ids.IdCmp | tools/vdb-validate/vdb-validate.c:963-969 | negative, zero or positive exactly when the first id is below, equal to or above the second |
| Ids.IdPairCmp | tools/vdb-validate/vdb-validate.c:976-988 | zero iff the pairs are equal; negative iff lexicographically smaller by (key, origin); always -1, 0 or 1 |
| Ids.IdPairCmpAntisymmetric | tools/vdb-validate/vdb-validate.c:976-988 | swapping the arguments negates the comparison |
| Ids.IdPairCmpAgreesWithIdCmp | tools/vdb-validate/vdb-validate.c:963-988 | on equal origins the pair order is the key order of `id_cmp` |
| Ids.ComparatorsAreTotalOrders | tools/vdb-validate/vdb-validate.c:963-988 | both comparators are total, transitive and antisymmetric, so the `ksort` outcome is determined |
| Ids.Span | tools/vdb-validate/vdb-validate.c:990-1000 | the run length from `first` is between 1 and `N - first` |
| Ids.SpanIsRun | tools/vdb-validate/vdb-validate.c:990-1000 | every pair of the run has the key of the first, and the run is maximal (it ends at `N` or at a different key) |
| Ids.SpanUnique | tools/vdb-validate/vdb-validate.c:990-1000 | any length with those three properties is the span |
| Ids.IdPairSpan | tools/vdb-validate/vdb-validate.c:990-1000 | the loop returns a span within bounds, with all keys equal to the target and the next key (if any) different |
| Ids.Halved | tools/vdb-validate/vdb-validate.c:1002-1011 | the halved count is at most `MaxChunk` and at most `count`, and at least 1 when `count` is |
| Ids.HalvedIsShift | tools/vdb-validate/vdb-validate.c:1002-1011 | the chunk is `count` divided (rounding down) by the least power of two that brings it under the ceiling |
| Ids.WorkChunk | tools/vdb-validate/vdb-validate.c:1002-1011 | the chunk fits the 2 GiB working set (24 bytes per entry), equals `count` when that fits, is more than half the ceiling otherwise, and is at least 1 for a non-empty range |
| Sorting.SortPermutes | tools/vdb-validate/vdb-validate.c:1049 | the library sort returns a permutation of its input |
| Sorting.SortIsSorted | tools/vdb-validate/vdb-validate.c:1049 | under a total order the result is sorted |
| Sorting.SortedPermutationUnique | tools/vdb-validate/vdb-validate.c:1049 | two sorted permutations of one multiset are equal under an antisymmetric total order |
| Sorting.SortIsUnique | tools/vdb-validate/vdb-validate.c:1049 | any sorted permutation is the modelled sort, so the verdict does not depend on how `ksort` sorts |
| Sorting.KSort | tools/vdb-validate/vdb-validate.c:1049 | sorts the first `n` entries of the array in place and leaves the rest unchanged |
| RefIntegrity.FillChunk | tools/vdb-validate/vdb-validate.c:1031-1048 | reads rows from `current` into `pair` and returns the chunk the extraction defines, or its failure |
| RefIntegrity.MatchExact | tools/vdb-validate/vdb-validate.c:1071-1081 | passes iff the sorted cell equals the span's origins element by element |
| RefIntegrity.MergeSubset | tools/vdb-validate/vdb-validate.c:1082-1102 | the merge walk over the span and the cell returns the merge verdict |
| RefIntegrity.SmallScan | tools/vdb-validate/vdb-validate.c:1104-1122 | the nested scan, with `found` never cleared, returns the scan verdict |
| RefIntegrity.CopyCell | tools/vdb-validate/vdb-validate.c:1066-1068 | scratch starts with the cell's ids |
| RefIntegrity.CopyAndSort | tools/vdb-validate/vdb-validate.c:1066-1069 | scratch holds the cell with only its first `span` ids sorted |
| RefIntegrity.LargeCell | tools/vdb-validate/vdb-validate.c:1064-1103 | a cell of more than four ids is judged exactly as the cell-match definition says |
| RefIntegrity.CompareSpan | tools/vdb-validate/vdb-validate.c:1055-1130 | returns the span verdict: 0, `TooBig`, `Inconsistent` or B's read error |
| RefIntegrity.CheckSpansStops | tools/vdb-validate/vdb-validate.c:1128-1130 | a failing span decides the chunk |
| RefIntegrity.CheckSpansContinues | tools/vdb-validate/vdb-validate.c:1132 | a passing span hands over to the span after it |
| RefIntegrity.CompareChunk | tools/vdb-validate/vdb-validate.c:1050-1133 | walking the sorted chunk span by span returns the chunk verdict |
| RefIntegrity.RicFromStops | tools/vdb-validate/vdb-validate.c:1027-1134 | a failing chunk decides the check |
| RefIntegrity.RicFromContinues | tools/vdb-validate/vdb-validate.c:1027-1134 | a passing chunk hands over to the chunk `pairs` rows later |
| RefIntegrity.RicAlignGeneric | tools/vdb-validate/vdb-validate.c:1013-1136 | the nested loops over the two buffers return exactly the verdict `Ric` defines |
| RefIntegrityProps.ExtractKeepsPrefix | tools/vdb-validate/vdb-validate.c:1031-1048 | a chunk only grows and never holds more than `pairs` entries |
| RefIntegrityProps.ExtractedPairsAreRows | tools/vdb-validate/vdb-validate.c:1031-1043 | each extracted pair comes from a row in range whose key cell holds exactly that key, and origins increase in row order |
| RefIntegrityProps.ExtractCovers | tools/vdb-validate/vdb-validate.c:1031-1047 | while the chunk has room, every row is read. A successful extraction saw each row holding one key or missing, since any other read error or key count is returned. Each found row lands in the chunk |
| RefIntegrityProps.ExtractFailureHasCause | tools/vdb-validate/vdb-validate.c:1034-1047 | an extraction failure is a read error other than row-not-found, or `Unexpected` for a key cell without exactly one element, at a row in range |
| RefIntegrityProps.ExtractSucceeds | tools/vdb-validate/vdb-validate.c:1031-1048 | extraction succeeds when every row ahead is sparse or holds one key |
| RefIntegrityProps.MergeFoundSound | tools/vdb-validate/vdb-validate.c:1086-1101 | a passing merge walk saw every origin in the cell |
| RefIntegrityProps.MergeFoundFits | tools/vdb-validate/vdb-validate.c:1086-1101 | a passing walk never has more origins left than cell ids |
| RefIntegrityProps.MergeFoundTight | tools/vdb-validate/vdb-validate.c:1086-1101 | with as many origins as ids left, a passing walk matched them one by one |
| RefIntegrityProps.MergeFoundComplete | tools/vdb-validate/vdb-validate.c:1086-1101 | on an ascending cell, strictly increasing origins all listed make the walk pass |
| RefIntegrityProps.ScanFoundLatches | tools/vdb-validate/vdb-validate.c:1108-1121 | once `found` is set the small-cell scan passes |
| RefIntegrityProps.ScanFoundIsFirstOrigin | tools/vdb-validate/vdb-validate.c:1104-1121 | the small-cell scan passes iff the span's first origin is in the cell |
| RefIntegrityProps.PartlySortedPermutes | tools/vdb-validate/vdb-validate.c:1066-1069 | sorting part of the copied cell keeps its ids |
| RefIntegrityProps.PartlySortedOfSorted | tools/vdb-validate/vdb-validate.c:1066-1069 | a cell already in ascending order is left as it is |
| RefIntegrityProps.CheckSpanSound | tools/vdb-validate/vdb-validate.c:1055-1130 | a passing span's B cell exists, fits a chunk, has at least as many ids as the span and lists its first origin, and every origin when it has more than four ids |
| RefIntegrityProps.CheckSpanFailures | tools/vdb-validate/vdb-validate.c:1058-1130 | a missing B row and a cell shorter than the span give `Inconsistent`, another read error is returned, an oversized cell gives `TooBig` |
| RefIntegrityProps.ExactCellVerdict | tools/vdb-validate/vdb-validate.c:1071-1081 | a cell of exactly as many (more than four) ids as the span passes iff it holds the same ids in any order |
| RefIntegrityProps.SortedLargeCellVerdict | tools/vdb-validate/vdb-validate.c:1064-1102 | against an ascending cell of more than four ids, a span passes iff every origin is listed |
| RefIntegrityProps.SmallCellVerdict | tools/vdb-validate/vdb-validate.c:1104-1122 | a cell of at most four ids passes iff it fits, is not shorter than the span and lists the first origin |
| RefIntegrityProps.SortedCellAccepts | tools/vdb-validate/vdb-validate.c:1064-1122 | an ascending cell that fits and lists every origin passes, whatever its size |
| RefIntegrityProps.CheckSpansSound | tools/vdb-validate/vdb-validate.c:1050-1133 | every pair of a passing chunk is backed by B |
| RefIntegrityProps.RicFromPasses | tools/vdb-validate/vdb-validate.c:1027-1134 | a chunk of a passing check was read without error, its spans pass, and the rest passes |
| RefIntegrityProps.ChunkRowBacked | tools/vdb-validate/vdb-validate.c:1027-1133 | a found row of a passing chunk holds one key that B backs |
| RefIntegrityProps.RicFromSound | tools/vdb-validate/vdb-validate.c:1027-1134 | from any chunk on, a pass means every row was read cleanly (one key, or row-not-found), and every found row holds a key that B backs |
| RefIntegrityProps.RicSound | tools/vdb-validate/vdb-validate.c:1013-1136 | soundness: when the check returns 0, every A row in range holds exactly one key or is row-not-found, so a hard read error or a bad key count fails the check. For every found row, the B row at its key exists and fits a chunk, and a B cell with more than four ids lists the row |
| RefIntegrityProps.CheckSpansFailureHasCause | tools/vdb-validate/vdb-validate.c:1055-1130 | a failing chunk fails with `Inconsistent`, `TooBig` or a B read error |
| RefIntegrityProps.RicFromFailureHasCause | tools/vdb-validate/vdb-validate.c:1027-1134 | every failure from a chunk on has a cause in A or B |
| RefIntegrityProps.RicFailureHasCause | tools/vdb-validate/vdb-validate.c:1013-1136 | every failure of the check is a bad A row in range, `Inconsistent`, `TooBig` or a B read error |
| RefIntegrityProps.NoDupCountsOnce | tools/vdb-validate/vdb-validate.c:1049 | an element of a repeat-free sequence occurs at most once in its multiset |
| RefIntegrityProps.RepeatCountsTwice | tools/vdb-validate/vdb-validate.c:1049 | an element at two positions occurs at least twice |
| RefIntegrityProps.NoDupPreserved | tools/vdb-validate/vdb-validate.c:1049 | sorting a repeat-free chunk leaves it repeat-free |
| RefIntegrityProps.SpanOriginsIncrease | tools/vdb-validate/vdb-validate.c:1049-1052 | in a sorted chunk of distinct pairs, a span's origins strictly increase |
| RefIntegrityProps.SpanOriginsListed | tools/vdb-validate/vdb-validate.c:1050-1058 | when each pair is listed in the B cell at its key, the span's cell lists all its origins |
| RefIntegrityProps.SpanComplete | tools/vdb-validate/vdb-validate.c:1055-1130 | a span of distinct pairs each listed in its ascending B cell passes |
| RefIntegrityProps.CheckSpansComplete | tools/vdb-validate/vdb-validate.c:1050-1133 | a sorted chunk of such pairs passes |
| RefIntegrityProps.ChunkComplete | tools/vdb-validate/vdb-validate.c:1027-1133 | a chunk read from tables that agree passes |
| RefIntegrityProps.RicFromComplete | tools/vdb-validate/vdb-validate.c:1027-1134 | from any chunk on, agreeing tables pass |
| RefIntegrityProps.RicComplete | tools/vdb-validate/vdb-validate.c:1013-1136 | completeness: the check returns 0 under three conditions. Every A row in range holds one key or is row-not-found. For every found row, the B list at its key exists, fits a chunk, is stored in ascending order and lists the row |
| RefIntegrityExamples.AgreeingTablesPass | tools/vdb-validate/vdb-validate.c:1013-1136 | two rows sharing a key and one more, all listed back, pass |
| RefIntegrityExamples.ChunkOfKeysA | tools/vdb-validate/vdb-validate.c:1031-1049 | the chunk read is the three (key, row) pairs in row order, already sorted |
| RefIntegrityExamples.MissingBackReferenceFails | tools/vdb-validate/vdb-validate.c:1064-1130 | a B cell that omits a row pointing at it gives `Inconsistent` |
| RefIntegrityExamples.ExtractSkipsSparse | tools/vdb-validate/vdb-validate.c:1044-1045 | rows reporting row-not-found add nothing to a chunk |
| RefIntegrityExamples.SingleRowVerdict | tools/vdb-validate/vdb-validate.c:1027-1136 | a range with one found row is decided by that row's span alone |
| RefIntegrityExamples.DanglingKeyFails | tools/vdb-validate/vdb-validate.c:1125-1130 | a key naming a missing B row gives `Inconsistent` |
| RefIntegrityExamples.OversizedCellIsTooBig | tools/vdb-validate/vdb-validate.c:1061-1062 | a B cell with more ids than a chunk holds gives `TooBig` |
| RefIntegrityExamples.UnbackedListEntryPasses | tools/vdb-validate/vdb-validate.c:1013-1136 | a B cell listing a row that A does not back still passes: the check runs in one direction |
| RefIntegrityExamples.SmallCellChecksFirstOriginOnly | tools/vdb-validate/vdb-validate.c:1104-1121 | a small cell that lists the first origin passes although it omits the second |
| RefIntegrityIntended.ScanAllIsMembership | tools/vdb-validate/vdb-validate.c:1104-1121 | the scan with `found` cleared per origin passes iff every origin is in the cell |
| RefIntegrityIntended.CellMatchesIntendedIsMembership | tools/vdb-validate/vdb-validate.c:1064-1122 | with the whole cell sorted and the scan reset per origin, a span of increasing origins passes iff all are listed |
| RefIntegrityIntended.PartialSortRejectsListedOrigin | tools/vdb-validate/vdb-validate.c:1069 | sorting only `span` ids rejects a listed origin that the full sort accepts |
| RefIntegrityIntended.SmallScanAcceptsUnlistedOrigin | tools/vdb-validate/vdb-validate.c:1104-1121 | the never-cleared `found` accepts an origin the cell does not list |
| Aggregate.FirstError | tools/vdb-validate/vdb-validate.c:1285-1317 | zero iff every result is zero; otherwise a failing result preceded only by zeros |
| Aggregate.LatchAllIsFirstError | tools/vdb-validate/vdb-validate.c:125-126 | latching results in order (`if (ctx->rc == 0) ctx->rc = code`) keeps the first failure |
| Aggregate.ReportRtn | tools/vdb-validate/vdb-validate.c:112-115 | zero in exhaustive mode, the code itself otherwise |
| Aggregate.RicAlign | tools/vdb-validate/vdb-validate.c:1176-1211 | the wrapper returns the set-up failure, a skip (0) on a failed allocation or `TooBig`, and the check's result otherwise |
| Aggregate.RicAlignOutcomes | tools/vdb-validate/vdb-validate.c:1138-1281 | a failed set-up is returned as is. With the set-up opened the wrapper never returns `TooBig`. With the buffer also allocated, it passes iff the check passes or is too big |
| Aggregate.RicAlignSound | tools/vdb-validate/vdb-validate.c:1246-1281 | a wrapper that passed without skipping read every A row in range cleanly, and vouches for every found one |
| Aggregate.DbricAlign | tools/vdb-validate/vdb-validate.c:1285-1317 | the first check runs iff PRIMARY_ALIGNMENT and SEQUENCE exist, the second iff PRIMARY_ALIGNMENT and REFERENCE exist and (exhaustive or the first did not fail); the result is the first failure |
| Aggregate.DbricVerdictIgnoresExhaustive | tools/vdb-validate/vdb-validate.c:1285-1317 | the result does not depend on the exhaustive flag and is zero iff each check that applies passed |
| VisitTree.AncestorAt | tools/vdb-validate/vdb-validate.c:295-298 | the walk up the parent links stops at the nearest node at or above the depth, and every node it skips is deeper |
| VisitTree.Step | tools/vdb-validate/vdb-validate.c:271-305 | one visit appends a node with the event's depth, kind and name offset and no next sibling or child, and changes at most one earlier node, and only its next-sibling or first-child link: the previous node for a sibling or a child, the ancestor at the new depth otherwise, with the new node's parent and previous sibling set to match |
| VisitTree.OpenEnd | tools/vdb-validate/vdb-validate.c:294-301 | the node a new sibling is linked after has no next sibling yet |
| VisitTree.SiblingStepLinked | tools/vdb-validate/vdb-validate.c:285-301 | linking a new node after its previous sibling keeps the tree well linked |
| VisitTree.ChildStepLinked | tools/vdb-validate/vdb-validate.c:290-293 | linking a deeper node as the previous node's first child keeps the tree well linked |
| VisitTree.StepLinked | tools/vdb-validate/vdb-validate.c:271-305 | on a well-formed event stream every visit keeps parent, sibling and child links consistent |
| VisitTree.FirstChildIsNext | tools/vdb-validate/vdb-validate.c:290-293 | a node without a previous sibling is the first child of the node before it |
| VisitTree.PrevSiblingLinksBack | tools/vdb-validate/vdb-validate.c:287-301 | the previous sibling is earlier and its next-sibling link leads back |
| VisitTree.PreorderIsEventOrder | tools/vdb-validate/vdb-validate.c:284-303 | each node is either the first child of the node before it or the next sibling of an earlier node at no greater depth |
| NameArena.ArenaSizeIsLength | tools/vdb-validate/vdb-validate.c:460-472 | the size `get_sizes_cb` sums, `strlen + 1` per name, is the length of the filled arena |
| NameArena.ArenaPrefix | tools/vdb-validate/vdb-validate.c:280-282 | copying a prefix of the names fills a prefix of the arena |
| NameArena.NameInArena | tools/vdb-validate/vdb-validate.c:280-282 | the `j`-th name sits, NUL-terminated, at the offset where the earlier names end |
| NameArena.CString | tools/vdb-validate/vdb-validate.c:1337 | the C string at an offset has no NUL, stays in the buffer and copies the buffer's characters |
| NameArena.CStringReadsCopy | tools/vdb-validate/vdb-validate.c:282 | a NUL-free string copied and terminated is read back whole |
| NameArena.ArenaNamesReadBack | tools/vdb-validate/vdb-validate.c:280-282 | every name copied to the arena is read back from its offset |
| NameArena.GetSizes | tools/vdb-validate/vdb-validate.c:474-489 | returns the walk's result; on success the object count and the arena size, on failure zero for both |
| CheckContext.StepKeepsTree | tools/vdb-validate/vdb-validate.c:271-305 | one visit with its name appended keeps the nodes the linked tree of the visits and the arena their names |
| CheckContext.CcContext.constructor | tools/vdb-validate/vdb-validate.c:346-348 | a zeroed context over the caller's buffers: no failure, no columns, nothing visited |
| CheckContext.CcContext.NodeName | tools/vdb-validate/vdb-validate.c:280-282 | the name of every node, read from the arena, is the name of the object visited |
| CheckContext.CcContext.Visiting | tools/vdb-validate/vdb-validate.c:271-305 | appends the visit step's node, advances the node counter by one and the name counter by `strlen + 1`, writes the name and its NUL, touches nothing else, and keeps the tree valid |
| CheckContext.CcContext.AppendNode | tools/vdb-validate/vdb-validate.c:273-303 | the node writes and the walk up the parents produce exactly the visit step |
| CheckContext.CcContext.FindSibling | tools/vdb-validate/vdb-validate.c:295-298 | the walk up the parent links stops at the ancestor at the new node's depth, the node it follows as next sibling |
| CheckContext.CcContext.CopyName | tools/vdb-validate/vdb-validate.c:282 | the name and its NUL are written at the offset and nothing else changes |
| CheckContext.CcContext.ReportIndex | tools/vdb-validate/vdb-validate.c:117-143 | latches the failure of a Done or MD5 event, answers as `Respond` says and leaves the tree alone |
| CheckContext.CcContext.ReportColumn | tools/vdb-validate/vdb-validate.c:145-177 | as for an index, and counts a column that passed |
| CheckContext.CcContext.ReportTable | tools/vdb-validate/vdb-validate.c:179-226 | as for an index; a table that passed but lacks required md5 files stops the check without latching |
| CheckContext.CcContext.ReportDatabase | tools/vdb-validate/vdb-validate.c:228-269 | as for a table, for a database |
| CheckContext.CcContext.Report | tools/vdb-validate/vdb-validate.c:307-330 | a pending cancellation is returned with nothing changed; a visit builds the tree; any other event is answered by its kind's handler |
| Reports.Respond | tools/vdb-validate/vdb-validate.c:117-269 | a failure is offered to the latch exactly when an expected Done or MD5 event carries one; only a passing column is counted; an unexpected event is refused; missing required md5 files stop the check; otherwise the answer is `report_rtn` of the failure |
| Reports.StopsOnlyOn | tools/vdb-validate/vdb-validate.c:112-269 | in exhaustive mode a handler stops the check only for an unexpected event or missing md5 files; otherwise exactly for a failure |
| ConsistencyRun.ArenaSizeOfFront | tools/vdb-validate/vdb-validate.c:460-472 | the arena size of a list is the first name's `strlen + 1` plus the rest's |
| ConsistencyRun.VisitOnTrack | tools/vdb-validate/vdb-validate.c:271-305 | a visit of a well-formed run has room in both buffers and a depth it may follow at |
| ConsistencyRun.ReportOnTrack | tools/vdb-validate/vdb-validate.c:307-330 | a report answered with zero keeps the run on track; one answered otherwise ends it with the run's outcome |
| ConsistencyRun.Deliver | tools/vdb-validate/vdb-validate.c:307-330 | answers the next report and keeps the context on the run's track |
| ConsistencyRun.DeliverVisit | tools/vdb-validate/vdb-validate.c:315-316 | a visit is answered with zero and keeps the context on the run's track |
| ConsistencyRun.DeliverReport | tools/vdb-validate/vdb-validate.c:318-329 | a handled report either keeps the context on track or stops the run with the run's own stop code, latch and column count |
| ConsistencyRun.OnTrackAtStart | tools/vdb-validate/vdb-validate.c:346-348 | a zeroed context is on track for the whole run when the buffers were sized for its visits |
| ConsistencyRun.OnTrackAtEnd | tools/vdb-validate/vdb-validate.c:372-393 | a run on track with no reports left holds the whole run's latch, column count and visits |
| ConsistencyRun.Kdbcc | tools/vdb-validate/vdb-validate.c:333-419 | the verdict is the check's own result or, when zero, the first failure latched; the context holds that latch, the passing columns, and all visits when nothing stopped the run |
| ConsistencyRun.RunPassesIffClean | tools/vdb-validate/vdb-validate.c:117-330 | a run latches nothing and is never stopped iff every report is clean |
| ConsistencyRun.VerdictPassesIffClean | tools/vdb-validate/vdb-validate.c:372-393 | `kdbcc` passes iff the check passes and every report is clean, in either mode |
| ConsistencyRun.NonExhaustiveStopsAtFirstFailure | tools/vdb-validate/vdb-validate.c:112-115 | outside exhaustive mode the first latched failure also stops the check |
| ConsistencyRun.ExhaustiveStopsOnlyOnProtocol | tools/vdb-validate/vdb-validate.c:112-269 | in exhaustive mode only an unexpected event or missing md5 files stop the check |
| ConsistencyRun.ExhaustiveLatchesFirstFailure | tools/vdb-validate/vdb-validate.c:125-126 | an exhaustive run that nothing stopped latches the first failure any handler found |
| Classify.TableBit | tools/vdb-validate/vdb-validate.c:1341-1362 | each of the six known names gets its own bit and every other name none |
| Classify.BitsOfNames | tools/vdb-validate/vdb-validate.c:1336-1381 | a known table's bit is set iff the table is listed |
| Classify.BitsOfRange | tools/vdb-validate/vdb-validate.c:1326-1333 | only the six bits can be set, and none when no known table is listed |
| Classify.TablesVerdict | tools/vdb-validate/vdb-validate.c:1383-1405 | the structural verdict is zero or `Incomplete` |
| Classify.VerdictOfTables | tools/vdb-validate/vdb-validate.c:1383-1405 | passes iff the tables are SEQUENCE alone, or REFERENCE and PRIMARY_ALIGNMENT are present and the evidence tables come as a pair |
| Classify.ChainStep | tools/vdb-validate/vdb-validate.c:1377-1380 | the next-sibling link moves forward, and one link adds the node's bit |
| Classify.SkipNonChildren | tools/vdb-validate/vdb-validate.c:1377-1380 | nodes that are not children of the parent add no tables |
| Classify.SiblingsSameDepth | tools/vdb-validate/vdb-validate.c:1377-1380 | two children of one parent lie at the same depth |
| Classify.NoChildAfterLast | tools/vdb-validate/vdb-validate.c:1377-1380 | no child of the parent follows a child without a next sibling |
| Classify.ChainIsChildren | tools/vdb-validate/vdb-validate.c:1336-1381 | following the sibling links from a child collects the tables of all later children |
| Classify.RootChildren | tools/vdb-validate/vdb-validate.c:1325-1335 | the root's first child is either none or a later node, and the chain from it collects exactly the root's children |
| Classify.ChainFromIsChain | tools/vdb-validate/vdb-validate.c:1336-1381 | the loop's accumulated bits are the bits so far joined with the chain from the current node |
| Classify.ChildTablesStep | tools/vdb-validate/vdb-validate.c:1341-1362 | the tables among the children from a child on are that child's bit joined with those after it |
| Classify.ClassifyTables | tools/vdb-validate/vdb-validate.c:1324-1382 | the walk returns the bits of the tables among the root's children |
| Classify.EmptyRootPassesGuard | tools/vdb-validate/vdb-validate.c:1325-1335 | a root without children passes the guard as written |
| Classify.VerifyDatabaseAlign | tools/vdb-validate/vdb-validate.c:1320-1427 | returns the structural verdict on the root's tables, replaced (with `ref_int_check`) by the first table-open failure or the `dbric_align` result |
| Classify.IncompleteDroppedByIntegrityCheck | tools/vdb-validate/vdb-validate.c:1383-1425 | SEQUENCE with PRIMARY_ALIGNMENT and no REFERENCE is `Incomplete`, yet the function returns 0 when the integrity check passes |
| Classify.AlignVerdictIntended | tools/vdb-validate/vdb-validate.c:1383-1425 | keeps the structural finding, and passes iff the structure and (when enabled) the integrity checks pass |
| Classify.IntendedAgreesWhenComplete | tools/vdb-validate/vdb-validate.c:1383-1425 | the intended and the written verdict agree on complete databases and whenever the integrity check is off |
| SchemaAndMode.SchemaParts | tools/vdb-validate/vdb-validate.c:695-704 | with a '#', name + "#" + version gives back the attribute and the version has no '#'; without one, the version is empty |
| SchemaAndMode.SchemaPartsAt | tools/vdb-validate/vdb-validate.c:697-703 | the split is at the last '#' |
| SchemaAndMode.SplitSchemaName | tools/vdb-validate/vdb-validate.c:695-704 | the buffer, read as C strings from 0 and from the returned offset, holds the name and the version |
| SchemaAndMode.ModeOf | tools/vdb-validate/vdb-validate.c:1545-1548 | bit 1 is MD5, bit 2 blob CRC, bit 4 index, and no other bit is set |
| SchemaAndMode.LevelOf | tools/vdb-validate/vdb-validate.c:341 | the level is at most 3 |
| SchemaAndMode.LevelOfOptions | tools/vdb-validate/vdb-validate.c:341 | the index check asks for level 3, blob CRCs alone for level 1, otherwise 0; MD5 does not change the level |

## Left out

- All storage and database library calls are given as parameters, not
  modelled. This covers:
  - opening managers, tables, databases and cursors;
  - `VCursorCellDataDirect` (a `Column` function from row to cell);
  - `VCursorIdRange` and cursor set-up (a `CursorSetup` value);
  - `VDatabaseOpenTableRead` (its result per table);
  - `KDirectoryVVisit` (the listed names and the walk's result);
  - the consistency check itself (its report sequence and final result).
- `ConsistencyRun.Kdbcc` assumes that the library delivers the reports in
  order, stops at the first non-zero answer, and returns that answer as its
  own result (`KdbccVerdict`). The verdict of a stopped run relies on this.
  That covers a run stopped by missing required md5 files or by an
  unexpected event, where nothing is latched (lines 191-198 and 224). If
  the library returned zero instead, such an object would pass. Object-type detection,
  opening the object and the level's index-only bit are not modelled.
  `CC_INDEX_ONLY` is defined in a header that is not part of this model.
- `ConsistencyRun.Kdbcc` assumes that the consistency check reports
  well-nested visits: the first at depth 0, each later one at most one
  level deeper than the one before, and every name free of NUL. It also
  assumes that the node array and the arena have room for every visit.
  The source relies on both without checking them (lines 272-301). The
  model says nothing about a depth jump of two or more, which the source
  links as a first child, or about a buffer overrun.
- `CheckContext.CcContext.Visiting` and `CheckContext.CcContext.Report`
  require room in both buffers for the visit and a depth at most one
  below the last node's (0 for the first node). `visiting` writes
  `nodes[nn]` and copies the name with `strcpy` with no bound check
  (lines 272-282). These methods do not model what happens when either
  assumption fails.
- `NameArena.GetSizes` sums the names the directory walk lists. The model
  does not connect that list with the objects the consistency check
  visits. A directory walk lists files and subdirectories and not the
  root object, and `ConsistencyRun.Kdbcc` takes the room it needs as a
  requirement rather than from `get_sizes`.
- `ConsistencyRun.Kdbcc`: the "nothing to validate" warning for zero
  columns is logging only. The model returns the column count but not the
  warning.
- `ksort`'s algorithm is not modelled. It is an insertion sort (`Sorting.Sort`)
  written back into the array. `Sorting.SortIsUnique` shows that the verdict
  holds for any sort by these comparators.
- `init_dbcc` is modelled only through `get_sizes`. Opening archives and
  directories is I/O. Allocation is not modelled either: the source puts
  nodes and names in one block, while the model uses two arrays.
- The allocation check at line 676 tests the out-parameter rather than
  the allocated pointer. So a failed allocation is not detected. This is
  not modelled because allocation is left out.
- `Aggregate.RicAlign`: allocation is given by the `buffered` flag. The
  wrappers' log messages and the choice of id column are not modelled.
- Logging (`PLOGERR`/`PLOGMSG`) is not modelled. This includes the
  warnings for unexpected tables and objects, and the "unexpected object"
  table message.
- `CheckContext.CcContext.Report`: `Quitting()` is the parameter `quit`.
  `ConsistencyRun.Kdbcc` delivers every report with `quit` zero.
- `RcCodes`: an `rc_t` keeps only its object and state. The module,
  target and context parts are dropped. So the `report_table` code for
  missing md5 files (module 0) and the `report_database` one (`rcExe`) are
  the same `MissingMd5`.
- Integer widths are not modelled. Ids are unbounded integers, not
  `int64_t`. Counts and offsets are `nat`, not `uint32_t`/`size_t`. The
  model ignores wrap-around, which the source cannot reach within its
  memory ceiling.
- `get_tbl_schema_info`, `get_db_schema_info` and the metadata read are not
  modelled. Only the split of the attribute already read is modelled.
- `SchemaAndMode.SplitSchemaName` requires that the attribute read left
  room for the terminator (`sz < bsz`), and that the attribute holds no
  NUL. Line 693 passes the whole buffer size to `KMDataNodeReadAttr`, and
  line 695 writes `buffer[sz]` without checking either. The model does not
  cover a read that fills the buffer or an attribute with an embedded NUL.
- Command-line parsing, the column checks, `vdbcc`, `sra_dbcc` and the
  encryption check are not modelled. `exhaustive`, `md5_required` and
  `ref_int_check` are parameters.

## Findings

| source | as written | input that shows it | evidently intended | confidence | as-written member | corrected member |
|---|---|---|---|---|---|---|
| tools/vdb-validate/vdb-validate.c:1325-1335 | The guard tests the root's first-child index for non-zero. The "no child" value -1 passes it, and the walk starts at the node before the array. | A database whose root has no children: one node with first child -1. | Walk only when the root has a child (index > 0), and find no tables otherwise. | high, not executed | Classify.EmptyRootPassesGuard | Classify.ClassifyTables |
| tools/vdb-validate/vdb-validate.c:1383-1425 | With `ref_int_check` set, the default, the structural verdict `Incomplete` is overwritten by the table-open result or by `dbric_align`'s result. | A database holding SEQUENCE and PRIMARY_ALIGNMENT but no REFERENCE, whose tables open and whose SEQUENCE check passes. It returns 0. | Keep the structural finding, and let the integrity checks only add a failure. | medium, not executed | Classify.IncompleteDroppedByIntegrityCheck | Classify.AlignVerdictIntended |
