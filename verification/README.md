# A model of the clankers release gates and turn engine

Clankers ships an embeddable agent engine and guards its releases with Rust checker programs
under `scripts/`. This project models the algorithms those gates rely on, and the turn reducer
of the engine crate, and proves what a reader of the gates takes for granted.

`dafny verify dfyconfig.toml` checks the whole project. Each file holds one module of the same
name.

## What is modelled

- **Inventory pipeline.** `InventoryTable` is the Markdown table of public SDK items: its printer
  and the two readers that three checkers use; `InventoryReading` says what any text is read as,
  line by line. `Regeneration` merges old rows with a scan and sorts
  them stably under a comparator with many ties. `InventoryCheck` is the validator,
  `InventoryCommands` the two commands on the file text, `BrickStability` the text that is hashed for
  the stable contract, `PortBudget` the partition of rows into budget groups, `RuntimeFacade` the
  classification of runtime items and the framing of their hash input.
- **Normal forms and composition.** `Json` (canonical form), `ToolCatalog` (tool normalisation),
  `CapabilityPacks` (fail-closed merge of capability packs).
- **Paths and graphs.** `UsePaths` (suffix and prefix tests on `::`-joined text, flattened `use`
  trees), `DependencyGraph` (the workspace graph and its reverse).
- **Provider stub.** `HttpReader` (incremental request framing), `ProviderStub` (acceptor, workers,
  clock and main thread as an interleaving step system).
- **Selection and covers.** `ReleaseEvidence` (latest receipt per mode), `RailInventory` (rails
  against acceptance scripts).
- **Turn engine.** `Engine` is the reducer; `EngineRuns` and `EngineTools` say what holds over every
  sequence of inputs, `EngineConversation` what each accepted input makes the host do and what the
  conversation then holds; `EngineObject` is the object that hosts drive.
- `Text`, `Paths`, `Order`, `SortedMap` and `Counting` model the Rust library operations in use:
  string functions, path comparison, stable sorting, `BTreeMap` collection and counting.

A validator in the source pushes messages onto a list. Here a message is a `Finding`, and each
validator is proved to report exactly the findings that hold: `f in findings <==> Holds(f, ...)`.
The order and the wording of messages are not modelled.

A function that other contracts are stated with has a lemma of its own that says what its value is
without naming it, on characters, fields, members or outcomes: the lemmas called `...IsExact` and
`...AreExact` in the table, and beside them `OutcomesDecide`, `MarksAreRecorded`,
`ConversationIsWhatWasSaid`, `NormalToolIsTakenFromMembers` and `ComponentsFromTheEnd`.

What the source guarantees of its inputs is required: identifiers are segments, scanned items
print cleanly, package names are distinct. Beyond that these properties hold only under
conditions a reader may not expect, and each condition is proved to be exact, in both directions:

- Printing rows and parsing the text is the identity exactly for non-empty lists of rows without
  bar or newline whose kind and stability are trimmed and whose code holds no backtick, or for the
  other reader none at its ends (`RoundTripIsExact`). The rows that can be read at all are
  characterised too (`ReadableIsExact`): a crate or source cell may hold one lone backtick.
- Regenerating twice equals regenerating once exactly when the scanner yields no item of kind
  `example` and no two different new items with one reference (`RegenerationFixpoint`). Writing
  the file twice writes the same text exactly when, besides, no regenerated row holds a lone
  backtick (`WritingTwice`); a readable file with one loses it (`LoneBacktickIsLost`). A
  regenerated inventory without rows is written but cannot be read again.
- The bar-joined key identifies a row exactly when no identifying field holds a bar
  (`RowKeyIsExact`). Rows read from a file never hold one, so in every readable inventory the
  reported duplicates are real (`ParsedDuplicatesAreReal`).
- Among rows without NUL the hash input determines the rows exactly when no newline touches the
  boundary between two rows (`HashInputIsExact`). Scanned names hold no newline, so such rows never
  collide, whatever newlines the policy text holds (`HashInputInjective`). With NULs allowed, only
  a single row without NUL is determined (`DeterminedAmongAll`); owner and classification are free
  policy text, and a NUL there does collide (`PolicyTextCollides`).
- The abort receipt of the provider stub says that the follow-up started strictly before the stream
  completed. The stream sleeps for 101 seconds in all, and completes no sooner after its start
  (`CompletionTakesTheSleeps`), so the receipt of an earlier follow-up is final
  (`EarlyFollowupIsFinal`). In general it is final exactly when no completion time up to the
  follow-up can be stored any more (`ReceiptIsFinal`). Two states in which it passes and is not
  final are reached from the start: an older time is already taken (`StaleCompletionIsReachable`),
  or the stream has slept enough and can complete in the millisecond of the follow-up
  (`TieIsReachable`). Both need a follow-up at least 101 seconds after the stream started. The
  harness polls the screen for 25 seconds at most, but the commands it runs in between may take
  any time, so its clock is not bounded in the model.
- A turn that waits for tools can leave that phase without being cancelled exactly when the
  call ids in the model output are distinct (`ToolPhaseCanEnd`); a repeated id is two inputs away
  from a new engine (`RepeatedIdIsReachable`).
- Directory order can change the chosen receipt exactly when two different receipts tie for the
  latest place (`SelectionIgnoresOrderExactly`, `TieDependsOnListing`).

Modelling choices: `PathBuf` values compare by components, so two spellings of one path are one
reference. `serde_json` objects are lists of members in any order with distinct keys, which covers
both of the library's map types. The fixed prose above the printed table (lines 654-667 of
`scripts/check-embedded-sdk-api.rs`) is a parameter: any lines that begin neither with a bar nor
with white space. Scan results, file existence, directory listings, lossy UTF-8 decoding, the
clock, and the success of each read and write are parameters or steps.

## Model

| member | source | states |
|---|---|---|
| `InventoryTable.ParseInventory` | scripts/check-embedded-sdk-api.rs:140-191 | the parsing loop returns the rows and column errors of all lines, in order, for the SDK reader and for the reader shared by the other two checkers; `InventoryReading` says which they are for any text |
| `Text.LinesAreExact` | scripts/check-embedded-sdk-api.rs:140-144 | a line ends at its newline, or at a carriage return right before it, and what is left at the end is a line as it is |
| `InventoryTable.CodeSpanIsExact` | scripts/check-embedded-sdk-api.rs:193-201 | the code span of a cell is exactly the text between its first two backticks |
| `InventoryReading.ColumnErrorsAreExact` | scripts/check-embedded-sdk-api.rs:140-191 | for any text and either reader a column error with a line number and a count is reported if and only if that line is a table line whose text within its outer bars is a join of that many bar-free columns, and the count is not five |
| `InventoryReading.NoRowsIsExact` | scripts/check-embedded-sdk-api.rs:140-191 | a text is refused for having no rows if and only if no line of it shows one |
| `InventoryReading.AcceptedIsExact` | scripts/check-embedded-sdk-api.rs:140-191 | a text is read without error if and only if some line shows a row and no line has a wrong number of columns |
| `InventoryReading.RowsAreExact` | scripts/check-embedded-sdk-api.rs:140-191 | the rows of any text that is read are exactly what its lines show, column by column and in their order |
| `InventoryTable.RenderInventory` | scripts/check-embedded-sdk-api.rs:652-681 | the printing loop writes the head and one line per row |
| `InventoryTable.RenderIsExact` | scripts/check-embedded-sdk-api.rs:652-681 | the printed text is the prose, the table head and for each row a line with entry, crate, kind, stability and source in their columns |
| `InventoryTable.RowLineReadsBack` | scripts/check-embedded-sdk-api.rs:144-181 | a printed row without bar or newline is read, by either reader, with kind and stability trimmed, and its code up to the first backtick or, by the other reader, without outer backticks |
| `InventoryTable.ParseOfRender` | scripts/check-embedded-sdk-api.rs:140-201 | printing and then parsing such rows gives each row as it reads back, in order, or the error that there are none; no head line is taken for a row |
| `InventoryTable.RoundTripIsExact` | scripts/check-embedded-sdk-api.rs:140-201 | for any rows, printing and then parsing is the identity if and only if there are some and all are printable for the reader |
| `InventoryTable.ReadersAgree` | scripts/check-experimental-sdk-port-budget.rs:95-128 | all three checkers see exactly the printed rows if and only if there are some and all are printable |
| `InventoryTable.ParsedRowsAreClean` | scripts/check-brick-inventory-stability.rs:95-128 | rows read from any text hold no bar and no newline; SDK rows are readable rows |
| `InventoryTable.ReadableIsExact` | scripts/check-embedded-sdk-api.rs:140-201 | some text is read as the given rows if and only if there are some and each is clean, with a backtick-free entry, trimmed kind and stability, and no backtick in crate and source but a lone one in a trimmed cell |
| `Paths.PathOrder` | scripts/check-embedded-sdk-api.rs:630-636 | path comparison is a preorder in which exactly the paths with equal components tie |
| `Paths.ComponentsFromTheEnd` | scripts/check-embedded-sdk-api.rs:630-636 | the components of any path, from its last separator on: a separator at the start is the root, a dot counts only at the very beginning, an empty piece names nothing |
| `Paths.ComparePathIsLexicographic` | scripts/check-embedded-sdk-api.rs:630-636 | at the first component where two paths differ one ends or has the smaller component; names compare by their characters |
| `Order.StableSortIsUnique` | scripts/check-embedded-sdk-api.rs:595-597 | any sorted arrangement that keeps the order of ties is the result of the sort, so the model sort stands for every stable sort |
| `Order.CompareStrIsLexicographic` | scripts/check-current-head-release-evidence.rs:174-181 | strings compare by the first character where they differ, and a proper prefix is less |
| `Order.SortAppend` | scripts/check-embedded-sdk-api.rs:595-597 | sorting an already sorted tail again changes nothing, ties included |
| `Order.FilterSort` | scripts/check-embedded-sdk-api.rs:595-597 | selecting and stable sorting commute |
| `Regeneration.EntryOrder` | scripts/check-embedded-sdk-api.rs:630-650 | the rank comparator is a preorder, although it ties all unknown crates and kinds |
| `Regeneration.SameReference` | scripts/check-embedded-sdk-api.rs:459-471 | an old row and an item share a reference if and only if they agree in name and kind and neither path comes before the other |
| `Regeneration.OwnerStabilityIndex` | scripts/check-embedded-sdk-api.rs:600-610 | the indexing loop builds the owner index |
| `Regeneration.OwnerStabilityIsFirst` | scripts/check-embedded-sdk-api.rs:600-610 | the index has exactly the declared owners, each with the stability of its first declaration |
| `Regeneration.OwnerIsExact` | scripts/check-embedded-sdk-api.rs:612-619 | the owner of a name ends where its first `::` stands, or is the whole name |
| `Regeneration.IndexKeepsLast` | scripts/check-embedded-sdk-api.rs:578-579 | of several old rows with one reference the last one is kept |
| `Regeneration.RowIsKeptOrNew` | scripts/check-embedded-sdk-api.rs:582-593 | the row of a scanned item is the last old row with its reference, or else a new row with the entry, kind, crate and source of the item |
| `Regeneration.NewMemberInherits` | scripts/check-embedded-sdk-api.rs:612-619 | a new field or method gets the stability of the first declaration of its owner in the same crate |
| `Regeneration.NewReexportInherits` | scripts/check-embedded-sdk-api.rs:621-625 | a new re-export gets the stability of the first declaration of its name |
| `Regeneration.NewItemIsExperimental` | scripts/check-embedded-sdk-api.rs:612-628 | any other new item is carried over as experimental |
| `Regeneration.GeneratedIsOrdered` | scripts/check-embedded-sdk-api.rs:630-650 | generated rows go by crate rank, then by path components, then by kind rank, then by the characters of the name |
| `Regeneration.RowIsGenerated` | scripts/check-embedded-sdk-api.rs:578-598 | the generated rows are exactly the rows of the scanned items and the old example rows |
| `Regeneration.RegenerationFixpoint` | scripts/check-embedded-sdk-api.rs:578-650 | regenerating twice equals regenerating once, row for row, if and only if no scanned item is an example and new items that share a reference are the same item |
| `InventoryCheck.ValidateInventory` | scripts/check-embedded-sdk-api.rs:488-576 | reports exactly the true findings about guide, rows and scanned items |
| `InventoryCheck.ValidateRow` | scripts/check-embedded-sdk-api.rs:502-558 | the findings about one row, with the early exits of the loop |
| `InventoryCheck.CrateIsOfLast` | scripts/check-embedded-sdk-api.rs:481-486 | a reference is scanned if and only if an item has it, and the last such item gives its crate |
| `Text.ContainsIsExact` | scripts/check-embedded-sdk-api.rs:488-499 | the guide holds the link if and only if the link stands at some position of it |
| `InventoryCheck.ValidateRows` | scripts/check-embedded-sdk-api.rs:500-558 | the findings about all rows, duplicates judged by the joined key |
| `InventoryCheck.RowKeyInjective` | scripts/check-embedded-sdk-api.rs:503-509 | a bar-free row shares its key with exactly the rows of the same entry, kind, crate and source |
| `InventoryCheck.RowKeyIsExact` | scripts/check-embedded-sdk-api.rs:503-509 | the key of a row belongs to no other identity if and only if no identifying field of the row holds a bar |
| `InventoryCheck.ParsedDuplicatesAreReal` | scripts/check-embedded-sdk-api.rs:501-518 | in every readable inventory a row is reported as a duplicate if and only if an earlier row has the same entry, kind, crate and source |
| `InventoryCheck.RegenerationPasses` | scripts/check-embedded-sdk-api.rs:488-628 | regenerated rows pass the checker if and only if the guide has the link, kept and derived rows are sound and name the scanned crate, and example rows are sound and distinct |
| `InventoryCheck.SoundInputsPass` | scripts/check-embedded-sdk-api.rs:488-628 | from sound old rows, existing sources and agreeing crates, regeneration always passes its own checker |
| `InventoryCommands.WriteInventory` | scripts/check-embedded-sdk-api.rs:763-777 | parse, regenerate and print as one command, with the parse errors as the failure |
| `InventoryCommands.CheckInventory` | scripts/check-embedded-sdk-api.rs:754-761 | the plain run reports exactly the findings about the rows read from the text |
| `InventoryCommands.WrittenFileReadsBack` | scripts/check-embedded-sdk-api.rs:140-201 | whatever text was read, the written file reads back as the regenerated rows cut at lone backticks, so as these rows themselves if and only if there are some and none holds one |
| `InventoryCommands.WritingTwice` | scripts/check-embedded-sdk-api.rs:763-777 | the second write produces the same text if and only if the fixpoint condition holds and no regenerated row holds a lone backtick; an inventory without rows is rejected on the second write |
| `InventoryCommands.LoneBacktickIsLost` | scripts/check-embedded-sdk-api.rs:193-201 | there is a readable text with one example row and a lone backtick for which the second write differs although nothing is scanned |
| `InventoryCommands.WriteThenCheck` | scripts/check-embedded-sdk-api.rs:754-777 | the check after a write reads the regenerated rows as printed and is silent if and only if the guide has the link, the rows of the scanned items so read are sound and name the scanned crate, and the example rows are sound and distinct |
| `BrickStability.PrintedRowsInjective` | scripts/check-brick-inventory-stability.rs:204-211 | the joined text of clean rows determines the rows |
| `BrickStability.PrintedCells` | scripts/check-brick-inventory-stability.rs:204-211 | a printed row splits into entry, crate, kind, stability and source |
| `BrickStability.NormalizedTextIsExact` | scripts/check-brick-inventory-stability.rs:188-211 | the hashed text is the printed rows with a stable label, each as often as it occurs, in the order of their fields, and ends in a newline |
| `BrickStability.NormalizedIsCompleteInvariant` | scripts/check-brick-inventory-stability.rs:188-211 | two readable texts normalise alike if and only if their stable rows agree as multisets |
| `PortBudget.ValidateGroups` | scripts/check-experimental-sdk-port-budget.rs:208-243 | reports exactly the true findings about the groups |
| `PortBudget.AssignRows` | scripts/check-experimental-sdk-port-budget.rs:255-275 | each row goes to its first matching group; unbudgeted and ambiguous rows are reported exactly |
| `PortBudget.MatchesIsSegmentPrefix` | scripts/check-experimental-sdk-port-budget.rs:301-304 | a row of the crate matches a group if and only if the segments of one of the group's prefixes are the first segments of the row's path |
| `PortBudget.Utf8LenCountsBytes` | scripts/check-experimental-sdk-port-budget.rs:229-238 | the length an explanation is judged by counts its UTF-8 bytes |
| `PortBudget.BucketsHoldAssigned` | scripts/check-experimental-sdk-port-budget.rs:255-275 | the bucket of an identifier holds, in order, exactly the rows whose first matching group has it |
| `PortBudget.TakeBuckets` | scripts/check-experimental-sdk-port-budget.rs:277-278 | the bucket removed for a group, empty if its identifier was used before |
| `PortBudget.CheckBuckets` | scripts/check-experimental-sdk-port-budget.rs:277-299 | count drift, wrong stability and rows in absent groups are reported exactly |
| `PortBudget.RequireStability` | scripts/check-experimental-sdk-port-budget.rs:306-315 | one finding for each row of the bucket with another stability |
| `PortBudget.ValidateRows` | scripts/check-experimental-sdk-port-budget.rs:245-299 | reports exactly the true findings about the rows |
| `PortBudget.GroupCountsItsRows` | scripts/check-experimental-sdk-port-budget.rs:277-304 | in an accepted budget a group expects exactly the rows that match it, all with its stability |
| `PortBudget.SelectionAddsUp` | scripts/check-experimental-sdk-port-budget.rs:70-77 | for any selection of groups the expected rows add up to the rows the selection matches |
| `PortBudget.ExperimentalRowHasOneGroup` | scripts/check-experimental-sdk-port-budget.rs:256-275 | in an accepted budget every experimental row matches exactly one group, and that group expects experimental rows |
| `PortBudget.BudgetConservation` | scripts/check-experimental-sdk-port-budget.rs:70-77 | expected experimental rows, the budgeted number and the experimental rows are one number; the promoted total counts the rows that match promoting groups |
| `RuntimeFacade.GroupsBySourcePath` | scripts/check-runtime-facade-boundary.rs:165-189 | each listed path maps to the last group that lists it; all findings about groups are reported exactly |
| `RuntimeFacade.ClassifyItems` | scripts/check-runtime-facade-boundary.rs:409-436 | the sorted rows of the items with a group, and exactly the items without one |
| `RuntimeFacade.RowsAreExact` | scripts/check-runtime-facade-boundary.rs:165-440 | the rows are exactly those of the items whose file is listed: the item's own names, its file with slashes, and the labels of the last group that lists the file |
| `RuntimeFacade.RowsAreOrdered` | scripts/check-runtime-facade-boundary.rs:409-436 | no row stands after one that it comes before in entry, kind, file, group, owner, classification or stability, in that order |
| `RuntimeFacade.ItemHasOneGroup` | scripts/check-runtime-facade-boundary.rs:165-189 | in a clean policy the group of an item is the only one that lists its file |
| `RuntimeFacade.ClassificationIsExactCover` | scripts/check-runtime-facade-boundary.rs:409-553 | when nothing is reported every item has exactly one row and the counts per group add up to the number of rows |
| `RuntimeFacade.FeedHasher` | scripts/check-runtime-facade-boundary.rs:586-605 | the update loop feeds the framed rows one after the other |
| `RuntimeFacade.HashInputInjective` | scripts/check-runtime-facade-boundary.rs:586-605 | NUL-free row sequences that feed the same characters are the same, if entries (or else stabilities) hold no newline |
| `RuntimeFacade.HashInputIsExact` | scripts/check-runtime-facade-boundary.rs:586-605 | a NUL-free sequence is determined by its input among NUL-free ones if and only if no row before the last has a newline in its stability and no row after the first has one in its entry |
| `RuntimeFacade.FramedRowIsExact` | scripts/check-runtime-facade-boundary.rs:586-605 | the frame of a row determines the row if and only if no field holds a NUL |
| `RuntimeFacade.DeterminedAmongAll` | scripts/check-runtime-facade-boundary.rs:586-605 | among all sequences, only the empty one and a single NUL-free row are determined by their input |
| `RuntimeFacade.PolicyTextCollides` | scripts/check-runtime-facade-boundary.rs:586-605 | for every row, a NUL moved between owner and classification feeds the same characters |
| `RuntimeFacade.StabilityTextCollides` | scripts/check-runtime-facade-boundary.rs:586-605 | for every two rows, a newline in the first stability reads as a longer second entry |
| `Json.CanonicalFormIsExact` | scripts/check-tool-catalog-manifest.rs:212-224 | two values have one canonical form if and only if they differ in object member order only, at any depth |
| `Json.CanonicalizeIdempotent` | scripts/check-tool-catalog-manifest.rs:212-224 | canonicalising again changes nothing |
| `Json.CanonicalFormKeepsMeaning` | scripts/check-tool-catalog-manifest.rs:212-224 | the canonical form is the value itself up to member order |
| `Json.CanonicalFormIsOrderedTwin` | scripts/check-tool-catalog-manifest.rs:212-224 | the canonical form is the one value with its members in key order, at every depth, that differs from the given one in member order only |
| `Json.AccessorsAreExact` | scripts/check-tool-catalog-manifest.rs:226-252 | each accessor returns what the member of that key holds, if it is of the type asked for and, for required text, not empty |
| `SortedMap.SortedSetExact` | scripts/check-tool-catalog-manifest.rs:226-240 | two string lists have one sorted set if and only if they hold the same strings |
| `SortedMap.SortedSetIsAscending` | scripts/check-tool-catalog-manifest.rs:226-240 | the sorted set is the one ascending list of the same strings |
| `ToolCatalog.NormalizeTool` | scripts/check-tool-catalog-manifest.rs:105-166 | one tool is accepted and normalised as its readable fields say |
| `ToolCatalog.NormalToolIsTakenFromMembers` | scripts/check-tool-catalog-manifest.rs:102-166 | a tool has a normal form if and only if each field of the form is the member of its name, with capabilities ascending and the schema in key order, and the values are ones the policy permits |
| `ToolCatalog.NormalizeTools` | scripts/check-tool-catalog-manifest.rs:102-123 | the loop with its two early exits returns the sorted normal form, or nothing for an invalid tool or a repeated name |
| `ToolCatalog.NormalFormListsTools` | scripts/check-tool-catalog-manifest.rs:102-123 | a list has a normal form if and only if its tools are valid and named apart; the form lists them by name |
| `ToolCatalog.MemberOrderIsRearrangement` | scripts/check-tool-catalog-manifest.rs:125-166 | reordering the members of a tool at any depth is a rearrangement |
| `ToolCatalog.RearrangedNormalizesAlike` | scripts/check-tool-catalog-manifest.rs:109-166 | a rearranged tool is accepted alike and normalises alike |
| `ToolCatalog.NormalFormIgnoresToolOrder` | scripts/check-tool-catalog-manifest.rs:102-123 | acceptance and result do not depend on the order of the tools |
| `ToolCatalog.NormalFormIgnoresArrangement` | scripts/check-tool-catalog-manifest.rs:102-240 | nor on any mix of tool order, capability order or repetition, and member order |
| `ToolCatalog.NormalFormIsExact` | scripts/check-tool-catalog-manifest.rs:102-240 | accepted lists share a normal form if and only if their tools correspond in everything else |
| `CapabilityPacks.MergePacks` | scripts/check-capability-pack-composition.rs:133-150 | the nested loops return the merge, or nothing when any selected pack is refused |
| `CapabilityPacks.MergeIsExact` | scripts/check-capability-pack-composition.rs:133-150 | a merge succeeds if and only if every named pack lists known capabilities and, where it is marked or found dangerous, the policy allows danger and the pack's own approval flag is `true`; it then holds what those packs offer |
| `CapabilityPacks.MergeComposition` | scripts/check-capability-pack-composition.rs:133-150 | a composition with readable policy and names gives exactly the merge, order and refusal included, and nothing otherwise; the result holds exactly the contributed capabilities of the order |
| `CapabilityPacks.MergeIsHomomorphism` | scripts/check-capability-pack-composition.rs:133-150 | a concatenation merges if and only if both parts do, to the ordered union |
| `CapabilityPacks.MergeIgnoresOrderAndRepetition` | scripts/check-capability-pack-composition.rs:133-150 | the set of selected names decides the result |
| `CapabilityPacks.MergeIsMonotone` | scripts/check-capability-pack-composition.rs:133-150 | more packs never remove a capability |
| `CapabilityPacks.MergeFailsClosed` | scripts/check-capability-pack-composition.rs:133-150 | without human approval no merged capability is dangerous, and each comes from a selected pack |
| `CapabilityPacks.CheckPack` | scripts/check-capability-pack-composition.rs:80-94 | one pack is accepted exactly under the declared conditions |
| `CapabilityPacks.CheckIsExact` | scripts/check-capability-pack-composition.rs:80-94 | a pack is accepted under a name if and only if its members declare it well: known capabilities, both flags `true` for a dangerous one and never under a safe name, and an integer priority |
| `CapabilityPacks.ValidatePacks` | scripts/check-capability-pack-composition.rs:77-97 | packs are accepted if and only if each is and no two share a name; the result indexes them by name |
| `CapabilityPacks.MergeOverValidatedPacks` | scripts/check-capability-pack-composition.rs:77-150 | over validated packs a merge fails only for an unknown name or uncovered danger, never for an unlisted capability |
| `UsePaths.PathMatchesIsSuffix` | scripts/check-lego-architecture-boundaries.rs:2412-2418 | the string test holds if and only if the expected segments are the last segments |
| `UsePaths.TextPrefixIsSegmentPrefix` | scripts/check-experimental-sdk-port-budget.rs:301-304 | one joined path equals another or begins with it and a separator if and only if its segments begin with the other's |
| `UsePaths.FlattenUseTree` | scripts/check-embeddable-engine-boundaries.rs:144-167 | the recursive method appends the flattened tree to the imports |
| `UsePaths.FlattenIsLeafPaths` | scripts/check-embeddable-engine-boundaries.rs:144-167 | the flattened texts are the root-to-leaf paths, in order |
| `UsePaths.OnePathPerLeaf` | scripts/check-embeddable-engine-boundaries.rs:144-159 | one path for every leaf of any tree |
| `UsePaths.FindForbidden` | scripts/check-embeddable-engine-boundaries.rs:124-142 | the visitor reports exactly the flagged imports, in order |
| `UsePaths.FlaggedIsForbiddenCrate` | scripts/check-embeddable-engine-boundaries.rs:124-142 | the prefix test fires if and only if the first segment is a forbidden name |
| `UsePaths.ForbiddenTestIsExact` | scripts/check-embeddable-engine-boundaries.rs:23-167 | the flattened imports are the leaf paths, one per leaf, and the k-th is flagged if and only if the k-th leaf starts in a forbidden crate |
| `UsePaths.ForbiddenItemIsReported` | scripts/check-embeddable-engine-boundaries.rs:23-167 | a `use` item has a finding if and only if one of its leaves starts in a forbidden crate |
| `DependencyGraph.WorkspacePackageNames` | scripts/check-lego-architecture-boundaries.rs:326-344 | the names of the member packages, and exactly when the metadata cannot be read |
| `DependencyGraph.NamesAreExact` | scripts/check-lego-architecture-boundaries.rs:326-344 | over the JSON itself: the names are those of the packages whose id is a listed member, and are read if and only if every package has an id and every listed one a name |
| `DependencyGraph.DependencyMap` | scripts/check-lego-architecture-boundaries.rs:346-377 | the internal non-dev dependencies, and exactly when the metadata cannot be read |
| `DependencyGraph.MapIsReadExactly` | scripts/check-lego-architecture-boundaries.rs:346-377 | over the JSON itself: the map is read if and only if every package has a name and every workspace package a list in which all but dev dependencies are named |
| `DependencyGraph.EdgesAreExact` | scripts/check-lego-architecture-boundaries.rs:354-375 | over the JSON itself: the last package of a workspace name has an edge exactly to each other workspace package that it depends on other than for development |
| `DependencyGraph.EdgesComeFromLast` | scripts/check-lego-architecture-boundaries.rs:354-375 | the last package of a name decides its edges |
| `DependencyGraph.MetadataGraphCovers` | scripts/check-lego-architecture-boundaries.rs:326-377 | the map has exactly the workspace packages as keys, only internal edges and no self edge |
| `DependencyGraph.ReverseDependencyMap` | scripts/check-lego-architecture-boundaries.rs:379-393 | the nested loops build the users of every package |
| `DependencyGraph.ReverseTwice` | scripts/check-lego-architecture-boundaries.rs:379-393 | reversing twice restores a graph if and only if its keys are the nodes and its edges stay inside |
| `DependencyGraph.ReverseConservesEdges` | scripts/check-lego-architecture-boundaries.rs:379-393 | the number of edges is the same in both directions |
| `DependencyGraph.MetadataGraphTransposes` | scripts/check-lego-architecture-boundaries.rs:326-393 | for any readable metadata the reverse map is the transpose, without self edges, with as many edges, and reversing again gives the map back |
| `HttpReader.HeaderEndIsStable` | scripts/check-daemon-attach-streaming-abort-dogfood.rs:362-364 | a head end once found stays where it is when bytes arrive |
| `HttpReader.FirstLength` | scripts/check-daemon-attach-streaming-abort-dogfood.rs:366-372 | the first readable content length decides; `LineLengthIsExact` says which lines are readable and as what |
| `HttpReader.LineLengthIsExact` | scripts/check-daemon-attach-streaming-abort-dogfood.rs:366-372 | a head line gives a length if and only if it is `content-length` in any case, a colon, and between white space the decimal digits of that number, perhaps with a plus sign and leading zeros, and the number fits 64 bits |
| `HttpReader.FirstLengthIsExact` | scripts/check-daemon-attach-streaming-abort-dogfood.rs:366-372 | the length of a head is the one its first announcing line says |
| `HttpReader.CompleteIsExact` | scripts/check-daemon-attach-streaming-abort-dogfood.rs:346-372 | a request is complete if and only if its head has ended with the first empty line and as many bytes follow as the first announcing line says, or none is announced |
| `HttpReader.AddChunk` | scripts/check-daemon-attach-streaming-abort-dogfood.rs:346-357 | after each read the remembered head end and length equal a fresh scan, also when the empty line straddles reads, and the reader is done exactly when the request is complete |
| `HttpReader.ReadHttpRequest` | scripts/check-daemon-attach-streaming-abort-dogfood.rs:333-360 | the reader stops right after the first read that makes the request complete in the sense of `CompleteIsExact`, or at the end of input, and fails only when a read fails before that |
| `HttpReader.CompleteFromNeededOn` | scripts/check-daemon-attach-streaming-abort-dogfood.rs:346-358 | a prefix of a stream is complete exactly from the needed length on |
| `HttpReader.FramingIsIndependentOfChunking` | scripts/check-daemon-attach-streaming-abort-dogfood.rs:333-372 | for every way of cutting a stream into reads, completeness depends on the number of bytes alone |
| `ProviderStub.RunKeepsInvariant` | scripts/check-daemon-attach-streaming-abort-dogfood.rs:194-303 | every interleaving keeps the invariant that ties each cell to where its worker stands; `OutcomesDecide` and `MarksAreRecorded` say that nothing due is left out |
| `ProviderStub.StubSafety` | scripts/check-daemon-attach-streaming-abort-dogfood.rs:194-303 | in every run indexes are distinct, each cell is written at most once, completed and closed early exclude each other and either implies started, no later |
| `ProviderStub.CompletionTakesTheSleeps` | scripts/check-daemon-attach-streaming-abort-dogfood.rs:222-274 | in every run the stream completes no sooner than 101 seconds, its sleeps taken together, after it started |
| `ProviderStub.OnlyTheOwnerWrites` | scripts/check-daemon-attach-streaming-abort-dogfood.rs:194-303 | only the first connection writes stream cells and only the second the follow-up cell |
| `ProviderStub.OutcomesDecide` | scripts/check-daemon-attach-streaming-abort-dogfood.rs:194-303 | in every run the outcomes of the reads and writes of a connection decide what it records: an early close exactly when an event write failed, a completion exactly when all events were written, a follow-up start exactly when its request was read |
| `ProviderStub.FinishedStreamHasOneEnd` | scripts/check-daemon-attach-streaming-abort-dogfood.rs:381-395 | a finished stream worker that sent its headers has recorded exactly one of completion and early close, the latter exactly when a write failed |
| `ProviderStub.MarksAreRecorded` | scripts/check-daemon-attach-streaming-abort-dogfood.rs:222-303 | once a write has failed, or a request is read, or the last event is written, two more turns of the worker record it with a time not before that moment, whatever runs in between |
| `ProviderStub.TakenTimeIsSet` | scripts/check-daemon-attach-streaming-abort-dogfood.rs:540-542 | a time that is taken looks unset in one millisecond only, and is the clock itself before |
| `ProviderStub.ReceiptStaysTrue` | scripts/check-daemon-attach-streaming-abort-dogfood.rs:127-141 | a passing receipt with its strict comparison stays true in every continuation once no completion time up to the follow-up can be stored |
| `ProviderStub.StreamCanComplete` | scripts/check-daemon-attach-streaming-abort-dogfood.rs:264-273 | once its last sleep is over the stream worker can complete while the clock stands still |
| `ProviderStub.ReceiptIsFinal` | scripts/check-daemon-attach-streaming-abort-dogfood.rs:127-141 | a passing receipt, follow-up strictly before completion, is final if and only if no taken time up to the follow-up is pending and the stream cannot complete without a sleep in the follow-up's millisecond |
| `ProviderStub.FinalAfterTheTick` | scripts/check-daemon-attach-streaming-abort-dogfood.rs:127-141 | once the clock has passed the follow-up, only an older time already taken can spoil the receipt |
| `ProviderStub.EarlyFollowupIsFinal` | scripts/check-daemon-attach-streaming-abort-dogfood.rs:127-274 | the receipt of a follow-up that started less than 101 seconds after the stream is true in every continuation |
| `ProviderStub.StaleCompletionIsReachable` | scripts/check-daemon-attach-streaming-abort-dogfood.rs:113-274 | a run from the start, with all sleeps and a sent acknowledgement, reaches a passing receipt with an older completion time taken and not stored |
| `ProviderStub.TieIsReachable` | scripts/check-daemon-attach-streaming-abort-dogfood.rs:113-274 | a run from the start, with all sleeps and a sent acknowledgement, reaches a passing receipt in the millisecond in which the stream has only its closing events left |
| `ReleaseEvidence.ScanReceipts` | scripts/check-current-head-release-evidence.rs:156-197 | the scan keeps the running best of each mode and the sorted rejections |
| `ReleaseEvidence.BestIsMaximum` | scripts/check-current-head-release-evidence.rs:173-186 | a mode has a receipt if and only if one was accepted; no accepted one finished later than the kept one, and none of the same time has a greater run id |
| `ReleaseEvidence.RecencyIsTimeThenRun` | scripts/check-current-head-release-evidence.rs:174-181 | receipts compare by the characters of the time first, then by those of the run id |
| `ReleaseEvidence.RejectionsAreOrdered` | scripts/check-current-head-release-evidence.rs:188-197 | rejections are listed by path and those of one path by reason |
| `ReleaseEvidence.BestIgnoresOrder` | scripts/check-current-head-release-evidence.rs:173-186 | every directory order keeps a latest receipt, with the same time and run id |
| `ReleaseEvidence.SelectionIgnoresOrderExactly` | scripts/check-current-head-release-evidence.rs:173-186 | no order changes the kept receipt if and only if only one receipt is the latest |
| `ReleaseEvidence.TieDependsOnListing` | scripts/check-current-head-release-evidence.rs:173-186 | of two different receipts with one time and run id the one listed first is kept |
| `ReleaseEvidence.DistinctHasOneLatest` | scripts/check-current-head-release-evidence.rs:173-186 | distinct times and run ids within a mode leave only one latest receipt |
| `ReleaseEvidence.ScanIgnoresOrder` | scripts/check-current-head-release-evidence.rs:156-197 | with one latest receipt per mode the whole result, rejections included, is the same for every order |
| `ReleaseEvidence.MissingModesAreUnproved` | scripts/check-current-head-release-evidence.rs:118-122 | the missing modes are exactly the required modes without an accepted receipt |
| `RailInventory.CheckRail` | scripts/check-behavioral-lego-rails.rs:172-206 | the findings about one rail are exact |
| `RailInventory.TextsAreExact` | scripts/check-behavioral-lego-rails.rs:123-131 | each text field is the member of its own name, if that is a string and not blank |
| `RailInventory.ItemsAreExact` | scripts/check-behavioral-lego-rails.rs:133-149 | each array field is the member of its own name |
| `RailInventory.ValidateRails` | scripts/check-behavioral-lego-rails.rs:167-218 | reports exactly the true findings, and the class counts count every rail |
| `RailInventory.ScriptsCoverExactly` | scripts/check-behavioral-lego-rails.rs:183-212 | nothing is reported about scripts if and only if the rails name the acceptance scripts one to one |
| `RailInventory.AcceptedRailsAreExactCover` | scripts/check-behavioral-lego-rails.rs:167-218 | accepted rails are a permutation of the acceptance scripts, every class is used and the class counts add up to their number |
| `RailInventory.RecountClasses` | scripts/check-behavioral-lego-rails.rs:359-364 | the receipt counts the class strings as written |
| `RailInventory.ReceiptCountsAgree` | scripts/check-behavioral-lego-rails.rs:359-364 | for accepted rails the receipt reports the very counts that were checked, for exactly the four classes |
| `EngineObject.EmbeddableEngine.constructor` | crates/clankers-engine/src/lib.rs:255-330 | a new engine is idle, in order and has seen nothing |
| `EngineObject.EmbeddableEngine.FromState` | crates/clankers-engine/src/lib.rs:332-334 | any state is taken as the start of a run |
| `EngineObject.EmbeddableEngine.ApplyInput` | crates/clankers-engine/src/lib.rs:352-383 | the object takes the next state and returns the outcome; it always stands where the run of its inputs leads, and the invariant is kept; `EngineConversation` says what each outcome is |
| `EngineObject.EmbeddableEngine.SubmitTurn` | crates/clankers-engine/src/lib.rs:347-349 | a submission starts the turn of a new engine and changes nothing on a busy one or without budget |
| `EngineObject.ObjectStaysInBudget` | crates/clankers-engine/src/lib.rs:319-363 | whatever a new object was given, it is in order, within budget, and has reported the start and end of its turn once |
| `EngineObject.ObjectHoldsTheConversation` | crates/clankers-engine/src/lib.rs:352-383 | whatever a new object was given, its conversation is what the accepted inputs say |
| `EngineConversation.ConversationIsWhatWasSaid` | crates/clankers-engine/src/lib.rs:397-726 | over any run the conversation is the submitted messages, then each accepted output as it came and after each tool phase one message per call, in call order, with the delivered content and error flag |
| `EngineConversation.AcceptanceIsExact` | crates/clankers-engine/src/lib.rs:366-383 | exactly the inputs that fit the phase and its pending work are accepted; any other is refused for its own reason |
| `EngineConversation.ToolUseHandsOutCalls` | crates/clankers-engine/src/lib.rs:452-516 | an accepted tool-use completion emits exactly the tool calls of its output, in order, and waits for them |
| `EngineConversation.EndingIsReported` | crates/clankers-engine/src/lib.rs:728-779 | whatever ends a turn, the host is told that it is free, why, and last that the turn is finished, with the model's own stop reason if the model ended it |
| `EngineConversation.FailureIsRetriedOrEnds` | crates/clankers-engine/src/lib.rs:519-626 | a failed request is retried, after one second and then four, if and only if the failure is retryable and a delay is left; otherwise the turn ends |
| `EngineConversation.ModelIsAsked` | crates/clankers-engine/src/lib.rs:397-714 | an accepted input that leads to waiting for the model sends exactly one request, last, with the whole conversation and the settings of the submission |
| `EngineConversation.RequestsAreNumbered` | crates/clankers-engine/src/lib.rs:851-855 | a new request is named by the next number, and a retry keeps the name of the request it repeats |
| `EngineConversation.NumbersNeverGoBack` | crates/clankers-engine/src/lib.rs:851-855 | from any state the next request number never decreases, not even where it saturates |
| `EngineConversation.EarlyResultIsSilent` | crates/clankers-engine/src/lib.rs:628-660 | a tool result that is not the last one makes the host do nothing |
| `EngineConversation.LastResultAsksOrEnds` | crates/clankers-engine/src/lib.rs:628-714 | the last tool result asks the model again if and only if a slot of the budget is left, and an earlier one keeps waiting |
| `Engine.AppendToolMessages` | crates/clankers-engine/src/lib.rs:679-687 | the results are appended in the order of the calls, or nothing when one is missing |
| `EngineRuns.RejectionChangesNothing` | crates/clankers-engine/src/lib.rs:797-804 | a rejected input leaves the state alone and has no effect |
| `EngineRuns.RunKeepsInvariant` | crates/clankers-engine/src/lib.rs:366-383 | after any inputs each phase has exactly its own pending work |
| `EngineRuns.TurnStaysInBudget` | crates/clankers-engine/src/lib.rs:397-726 | over any run the model is asked at most three times per budgeted slot, the turn becomes busy at most once, and its end is reported exactly when it is finished, exactly once |
| `EngineRuns.FinishedIsFinal` | crates/clankers-engine/src/lib.rs:366-383 | a finished turn accepts nothing |
| `EngineRuns.MessagesOnlyGrow` | crates/clankers-engine/src/lib.rs:452-726 | the conversation so far is a prefix of the conversation later; `ConversationIsWhatWasSaid` says what is added |
| `EngineRuns.TurnBelongsToItsSubmission` | crates/clankers-engine/src/lib.rs:397-714 | over any run a started turn has one accepted submission; its budget is the turn's, and every request, retries and follow-ups included, repeats its settings and begins with its messages |
| `EngineRuns.RequestIdInjective` | crates/clankers-engine/src/lib.rs:851-855 | different sequence numbers give different identifiers |
| `EngineRuns.RequestsAreFreshAndBounded` | crates/clankers-engine/src/lib.rs:571-607 | over any run a request number is sent once and retried at most twice if its slot was used, and never otherwise |
| `EngineTools.ToolOrderIsIrrelevant` | crates/clankers-engine/src/lib.rs:628-714 | tools may finish in any order: same state, same effects, results in the order of the calls |
| `EngineTools.ToolPhaseCanEnd` | crates/clankers-engine/src/lib.rs:628-714 | the tool phase can end without a cancel if and only if the call ids are distinct |
| `EngineTools.RepeatedIdIsReachable` | crates/clankers-engine/src/lib.rs:484-516 | a submission and one output with a repeated call id lead there from the start, and no input but a cancel leads on |

## Left out

- The marker-only rails (most of `scripts/check-*.rs`): lists of substring tests, easy members only.
- `scripts/check-steel-orchestration-pack-mutation.rs` and `scripts/check-steel-repo-evolution-packs.rs`: fixtures around runtime modules.
- Scanning Rust source with `syn` and visiting its tree: a foreign library; scanned items and `use` trees are inputs.
- blake3, JSON encoding and decoding, and the wording and order of error messages.
- Files, processes, tmux, git, cargo, timeouts and directory-read failures; what they yield is a parameter.
- Reading budget groups, facade policies and receipt files from JSON (`parse_groups`, policy fields, `parse_receipt`): flat field checks; the parsed records are inputs.
- Negative fixtures, self-tests and recorded compositions of the checkers: fixed examples of the modelled functions.
- `EngineTurnReceipt` and the engine host: a receipt is a projection of the modelled outcome.
- The other product crates (controller, router, sessions, credentials, terminal): outside these components.
- RuntimeFacade.HashInputInjective: speaks of the characters fed to the hasher; their UTF-8 bytes are not modelled, and UTF-8 is injective.
- HttpReader.ReadHttpRequest: the read size of 8192 bytes is not modelled, since any cut into reads is allowed; lengths are those of a 64-bit target.
- ProviderStub.StubSafety: the texts the handlers send are not modelled, only which writes succeed and that the acknowledgement has been sent before the main thread judges; the daemon and the terminal between them, and giving up on the screen, are not modelled; the ordering of start and end times is stated while the clock is below the unset mark.
- InventoryTable.RenderInventory: the fixed prose above the table is a parameter.
