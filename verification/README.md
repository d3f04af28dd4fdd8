# A verified model of the OKF desktop viewer's algorithms

OKF Studio reads bundles of Markdown concepts, links them, checks what was run against what was
stored, and exports a reviewed part of a bundle to a recipient. This project models the parts of
it that decide something over a graph, a text or a run of steps, and proves what they promise.
`dafny verify dfyconfig.toml` checks everything.

- `SupersessionCycles` (with `Walks`): the search for cycles of `supersedes` edges.
- `ProjectionExport`: the export of a reviewed projection as named file steps, each of which may
  fail; the list of disks it passes through shows what a run leaves that stops in between.
- `CanonicalText`, `Layout`: the normal form of a computation text, and what it forgets.
- `ParameterHoles`, `Templates`, `ReceivedTexts`: the search for a text with holes, for lists of
  segments, and what canonical texts can tell about them.
- `Attestation`, `LineReading`, `ComputationHeading`, `ContractTemplates`: the stored computation,
  the verdict on a run (OKF v0.2, section 10), and what it means for a stored template.
- `ProjectionPlan`: the worklist that closes a selection under links through admissible concepts.
- `SlicePlanning`, `SliceAssembly`: dividing a bundle for delegated runs and putting them together.
- `BundleDetection`, `FederatedInventory`, `RepairSplice`, `EgoNeighbourhood`, `LinkGraph`: bundle
  roots, the capped round-robin, link repairs, neighbourhoods, backlinks.
- `PortableLinks`: percent-encoded paths of a projection's index and the classifier that reads them.
- `TabHistory`, `TabMessages`, `EntryQueue`, `GrantRegistry`, `Debounce`: the state machines of tabs,
  external requests, folder grants and the folder watcher.
- `Base64`: the encoder for image data URLs, against a decoder for section 4 of RFC 4648.
- `StringOrder`, `Options`: ordering, sorting and joining of strings; a value that may be missing.

What the file system, the parser, the clock and other processes answer is an argument or a field
that nothing is assumed about. Where the code and its documentation disagree, the code is followed:

- The parameter-hole check is documented as letting only the holes differ. It also accepts text
  before a first and after a last literal part (`ContractTemplates.DryRunIsSanctioned` is a run that
  passes so), and a declared name can be read as the beginning of another one.
  `ContractTemplates.OnlyHolesDifferIff` gives the exact condition on the template,
  `ContractTemplates.PrefixNameRefusesBindings` a family of refused bindings.
- A placeholder is documented to stand for any single value. A name in two holes may be bound to two
  values (`ContractTemplates.OneValueEachIff`).
- The normal form is documented as letting a rewrite that only reorders or renames pass. It does
  not: only layout may differ (`Layout.SameShapeIffOnlyLayoutDiffers`,
  `Layout.OtherWordsAreNoLayout`).
- The computation heading is documented to scope the fence below it. The scan takes a `#` line
  inside another fence for a heading too, and knows no fences of tildes, which the rest of the
  repository reads (crates/okf-core/src/health.rs:1109). `ComputationHeading.CommentOpensASection` and
  `ComputationHeading.TildesAreNoFence` show bodies where another text is taken for the computation,
  `ComputationHeading.TildesAreNotFound` one that is not found, `ComputationHeading.BlocksAgreeIff`
  the exact condition against fences as in section 4.5 of CommonMark 0.31.
- A repair is documented to leave titles alone. When a title holds `](` and the destination again,
  the title is rewritten (`RepairSplice.TitleIsRewritten`; `RepairSplice.TitleIsRewrittenIff` gives
  the exact condition). With any other later `](` the link is skipped, without an error when another
  link matches (`RepairSplice.TitleHidesTheLink`, `RepairSplice.LinkIsSkippedIff`).
- An export can report an error although the new projection is complete and in place: exactly when
  every step before succeeds and removing the backup fails (`ProjectionExport.Volume.Export`).
- A concept whose id reads like an address (`note:x`) is linked from a projection's index but
  classified as external (`PortableLinks.NoteIsExternal`; `PortableLinks.IndexLinkFindsConcept`
  says exactly when the link works).

## Model

| member | source | states |
|---|---|---|
| SupersessionCycles.ReliabilityFindings | src/shared/reliability.ts:178-224 | Every reported cycle is a simple cycle of `supersedes` edges and no two have the same key. For every arc: it lies on a directed cycle if and only if a simple cycle that it closes has its key reported; for every concept likewise; with no NUL in the ids, a concept lies on a cycle if and only if a finding names it. |
| SupersessionCycles.CycleSearch.Walk | src/shared/reliability.ts:200-220 | The recursive search ends on every graph (each call enters a node or stops), leaves the path as it was, reports the cycle when the node is on the path, and for every node it enters: the targets are entered, and each arc back into the path closes a reported cycle. |
| SupersessionCycles.CycleSearch.ReportCycle | src/shared/reliability.ts:202-214 | A cycle is reported with its nodes and the closed path if and only if no cycle with its key was; nothing else is added, and all reports stay genuine and distinct. |
| SupersessionCycles.CycleSearch.SearchFrom | src/shared/reliability.ts:197-222 | One start from an empty path: every arc into the start that lies on a cycle closes a reported cycle, whatever earlier starts reported. |
| SupersessionCycles.BuildOutgoing | src/shared/reliability.ts:191-195 | The adjacency map holds exactly the arcs of the `supersedes` edges, the targets of each node in the order of the edges; its keys are listed once each, in the order of their first edge. |
| SupersessionCycles.KeyOfNodeSet | src/shared/reliability.ts:204 | Cycles with the same nodes get the same key, however they are rotated. |
| SupersessionCycles.KeyDeterminesNodeSet | src/shared/reliability.ts:204 | Without NUL in the ids, equal keys mean equal node sets. |
| SupersessionCycles.FindingsHaveDistinctNodeSets | src/shared/reliability.ts:204-212 | No two findings of one report have the same node set. |
| SupersessionCycles.NulHidesACycle | src/shared/reliability.ts:204-205 | The limit of the key: with NUL in an id, two different cycles can share one, and on a concrete list of edges some node on a cycle is named by no finding. Ids of the backend are file paths, which hold no NUL. |
| ProjectionExport.Volume.Export | src-tauri/src/bundle_projection.rs:60-189 | On every disk the run passes through, whichever step fails: an earlier projection is at the destination or in the backup slot, or the complete new one is at the destination; nothing at the destination changes before all gates passed. Complete means each included concept as rendered under its id, the index, the log and the marker, and no other file. Every outcome and every error occurs if and only if its own condition on the gates, the confirmation, the destination and the failing steps holds, and it leaves the disk stated for it; an export that fails over a changed source keeps the audit of that. |
| ProjectionExport.Volume.Place | src-tauri/src/bundle_projection.rs:146-189 | Past the gates: a free destination gets the copy, a taken one is left alone without the confirmation, and with it is replaced; each outcome under its exact condition. |
| ProjectionExport.Volume.StageAndAudit | src-tauri/src/bundle_projection.rs:65-145 | The run gets past the gates exactly when the plan is the reviewed one and not empty, the copy could be written and has no validation errors, the source is unchanged and the audit passed; otherwise it ends with the error of the first gate that fails; until then the destination is untouched. |
| ProjectionExport.Volume.ReplaceExistingProjection | src-tauri/src/bundle_projection.rs:348-396 | Replacement succeeds exactly for a marked directory with no failing step, and each failure occurs exactly when the steps before it succeed and its own fails; the guard holds on every disk in between, and each failure leaves the disk stated for it, including the roll-back that fails and the backup that stays. |
| ProjectionExport.Volume.CheckMarked | src-tauri/src/bundle_projection.rs:349-369 | The destination is accepted exactly when it can be inspected, is a real directory and holds an accepted marker. |
| ProjectionExport.Volume.PrepareProjection | src-tauri/src/bundle_projection.rs:209-227 | Writing succeeds exactly when every included concept can be rendered and written, no two files share a name, and index, log and marker can be written; then the temporary directory holds `<id>.md` as rendered for each of them, the index, the log, the marker, and no other file. |
| ProjectionExport.EntriesMakeTheProjection | src-tauri/src/bundle_projection.rs:209-227 | The list of writes the loop goes through makes exactly those files. |
| ProjectionExport.ExportedIsReplaceable | src-tauri/src/bundle_projection.rs:223-226 | What an export leaves at the destination carries the marker that lets the next export replace it. |
| CanonicalText.Canonicalize | crates/okf-core/src/attest.rs:421-436 | The loop's output is the canonical form, the joined lower-cased words. |
| CanonicalText.CanonicalIdempotent | crates/okf-core/src/attest.rs:412-436 | Canonicalising twice is canonicalising once. |
| CanonicalText.SameShapeIffSameWords | crates/okf-core/src/attest.rs:412-436 | Two texts have the same shape if and only if they have the same words after case, comments and spacing are gone. |
| CanonicalText.WordsOfConcatenatedLines | crates/okf-core/src/attest.rs:421-436 | The words of concatenated lines are the concatenated words. |
| CanonicalText.TrailingCommentIgnored | crates/okf-core/src/attest.rs:424-425 | A trailing `--` comment does not change the words of a line, with or without a space before it. |
| CanonicalText.SpaceOnlySeparates | crates/okf-core/src/attest.rs:426-432 | Within a line and outside its comment, any whitespace character only separates words. |
| CanonicalText.CaseIgnored | crates/okf-core/src/attest.rs:426-432 | Lower-casing the text changes nothing. |
| Layout.CommentIgnored | crates/okf-core/src/attest.rs:423-426 | A comment at the end of any line of a text changes nothing in the words of the text. |
| Layout.WhitespaceOnlySeparates | crates/okf-core/src/attest.rs:421-436 | Outside comments a run of whitespace, line breaks included, does nothing but separate the words before it from those behind it. |
| Layout.CanonicalIsLayout | crates/okf-core/src/attest.rs:412-436 | Every text becomes its canonical form by steps that each change case, spacing or one trailing comment. |
| Layout.SameShapeIffOnlyLayoutDiffers | crates/okf-core/src/attest.rs:324-343 | Two texts have the same shape if and only if such steps lead from one to the other: the comparison forgets ASCII case, runs of Unicode white space and trailing comments, and nothing else. |
| Layout.SameUpToCaseIff | crates/okf-core/src/attest.rs:426-432 | Lower-casing makes two texts equal exactly when they differ in the case of ASCII letters only. |
| Layout.OtherWordsAreNoLayout | crates/okf-core/src/attest.rs:412-420 | Two lists of words make the same shape only when they are the same list: reordering and renaming are refused, contrary to the comment. |
| ParameterHoles.FindIsLeftmost | crates/okf-core/src/attest.rs:395-408 | A search finds an occurrence whenever there is one, and none lies before it. |
| ParameterHoles.LeftmostIsEnough | crates/okf-core/src/attest.rs:398-408 | The exchange argument: committing to the leftmost occurrence of a segment never loses a match of the rest. |
| ParameterHoles.InOrder | crates/okf-core/src/attest.rs:395-410 | The greedy search answers true if and only if the segments occur in order without overlap, in any gaps at all. |
| ParameterHoles.SplitAllFills | crates/okf-core/src/attest.rs:382-393 | Splitting loses nothing: the segments with placeholder spellings in the holes are the stored text again. |
| ParameterHoles.AcceptsInstancesOnlyIffOpenEnds | crates/okf-core/src/attest.rs:395-410 | The search accepts exactly the texts that differ in the holes only, if and only if there is a hole at both ends. |
| ParameterHoles.OneForeignBindingDecides | crates/okf-core/src/attest.rs:395-410 | All bindings of a template pass if and only if the one with a character foreign to the segments passes. |
| Attestation.InlineComputation | crates/okf-core/src/attest.rs:143-168 | The text of the first fence that the line scan finds below a computation heading, to its end or the end of the body; none exactly when there is no such fence. Any `#` line counts as a heading. |
| LineReading.LinesIff | crates/okf-core/src/attest.rs:143-144 | The lines the scan goes through are told by the line ends of the body (line feed, or carriage return and line feed), and are the only ones. |
| LineReading.KindIff | crates/okf-core/src/attest.rs:146-154 | What a line is to the scan, by its characters: behind white space a `#` makes a heading, and the computation heading if it then says "computation" in any case; three backticks or tildes make a fence. |
| ComputationHeading.AgreeIff | crates/okf-core/src/attest.rs:138-168 | The line scan opens the fence of the documented reading, which knows fences of backticks and of tildes and skips the others whole, if and only if the computation is in no fence of tildes and no other fence has a line of backticks above which the last `#` line stands in a fence and reads as the computation heading. |
| ComputationHeading.BlocksAgreeIff | crates/okf-core/src/attest.rs:138-168 | It takes the documented lines, opening and end, if and only if moreover no line of backticks that does not end the documented block stands in it. |
| ComputationHeading.ScopedWhenNotMisread | crates/okf-core/src/attest.rs:138-168 | For every such body the computation is the documented one, and none is found exactly when none is documented. |
| ComputationHeading.CommentOpensASection | crates/okf-core/src/attest.rs:146-165 | On one concrete body, where a shell example holds the comment `# Computation`, the text taken is the prose behind the example and not the query. |
| ComputationHeading.TildesAreNoFence | crates/okf-core/src/attest.rs:146-165 | On one concrete body, where the comment stands in a fence of tildes, the example behind that fence is taken and not the query. |
| ComputationHeading.TildesAreNotFound | crates/okf-core/src/attest.rs:152-154 | On one concrete body the computation is stored in a fence of tildes, and none is found. |
| Attestation.ResolveComputation | crates/okf-core/src/attest.rs:105-136 | The text is the one the contract stores: the first inline block, or without one the named file; refused exactly when there is none, with the reason told apart (no contract, no runtime, neither, both, unreadable). |
| Attestation.SpellingsIff | crates/okf-core/src/attest.rs:366-379 | A declared name is written with `@`, `$` or `:` in front, in one or two pairs of braces, or as `${name}`, and no other way. |
| Attestation.PlaceholdersAreSpellings | crates/okf-core/src/attest.rs:363-380 | The placeholders are exactly the canonical declared spellings that occur in the stored text. |
| Attestation.MatchesWithParameterHoles | crates/okf-core/src/attest.rs:363-410 | True if and only if a declared spelling occurs in the stored text and the segments left by splitting occur in the executed text in order without overlap. |
| Attestation.ProvenanceCheck | crates/okf-core/src/attest.rs:324-355 | The executed text is that of the first field whose key is `executed` or ends in `_sql`. The check passes if and only if there is one that is not blank and it differs from the stored text in layout only or binds its holes; unavailable if and only if there is none; failed otherwise. |
| Attestation.ExecutedTextIff | crates/okf-core/src/attest.rs:329-334 | Which field of the receipt is taken for the executed text. |
| Attestation.Attest | crates/okf-core/src/attest.rs:174-240 | The missing fields are exactly the declared ones that the receipt lacks or leaves blank, in declared order; provenance is as above, fidelity unavailable, and full attestation is never claimed. |
| Attestation.MissingHolds | crates/okf-core/src/attest.rs:186-198 | The same of the filter alone, for every list of fields and every receipt. |
| Attestation.AttestRun | crates/okf-core/src/attest.rs:280-316 | The whole report: for an unreadable contract its one reason, under that reason's own condition, and nothing else; otherwise the runtime, the stored text, the missing fields, the provenance and the fidelity of the run against it, and provenance is established exactly when no declared field is missing and the executed text is sanctioned by the stored one. |
| ContractTemplates.StoredIsAnInstance | crates/okf-core/src/attest.rs:363-393 | The stored text is itself its segments with declared spellings in the holes. |
| Templates.AcceptanceDetermines | crates/okf-core/src/attest.rs:395-410 | Two lists of non-empty segments that accept the same texts are the same list. |
| Templates.AcceptsInstancesIff | crates/okf-core/src/attest.rs:395-410 | The search for the segments accepts exactly the instances of a template, among all texts, if and only if the template begins and ends with a hole and the non-empty segments are its non-empty literal parts. |
| ReceivedTexts.ReceivedIff | crates/okf-core/src/attest.rs:421-436 | The canonical texts, which alone the comparison receives, character by character: lower-case, single spaces between words and none at the ends, no `--`. |
| ReceivedTexts.ReceivedDetermines | crates/okf-core/src/attest.rs:395-410 | Canonical texts suffice to tell lists of segments apart: two lists without empty segments that accept the same of them are the same list. |
| ReceivedTexts.ReceivedInstancesIff | crates/okf-core/src/attest.rs:338-349 | Among canonical texts the search accepts exactly the instances of a template, if and only if the template begins and ends with a hole and the non-empty segments are its non-empty literal parts. |
| Templates.SplitAllLeavesLiterals | crates/okf-core/src/attest.rs:382-393 | Splitting at one spelling after the other leaves exactly the literal parts when each hole is taken by the first spelling that reads it. |
| ContractTemplates.SegmentsAreRead | crates/okf-core/src/attest.rs:363-393 | What splitting leaves of a plain template (none of `@`, `$`, `:`, `{` in its names and literal parts), told from its literal parts and the declared names: a hole without a closing brace is taken by the first declared name that it and the text behind it spell. |
| ContractTemplates.OnlyHolesDifferIffOpenEnds | crates/okf-core/src/attest.rs:338-410 | Relative to the segments left by splitting: over all texts a run can report, only what lies between them may differ, if and only if the first and the last of them are empty. |
| ContractTemplates.OnlyHolesDifferIffSegments | crates/okf-core/src/attest.rs:338-410 | For any template: of the texts a run can report, the check accepts exactly its instances, if and only if a declared spelling occurs, the template begins and ends with a hole, and the segments left are its literal parts. |
| ContractTemplates.OnlyHolesDifferIff | crates/okf-core/src/attest.rs:357-410 | For a plain template: the same, with the condition on the literal parts and the declared names alone. |
| ContractTemplates.HolesAtBothEndsDecide | crates/okf-core/src/attest.rs:357-410 | When no hole of a plain template and the text behind it spell another declared name, only the holes may differ if and only if the template begins and ends with a hole. |
| ContractTemplates.EveryBindingPasses | crates/okf-core/src/attest.rs:357-410 | Under the same guard on names every binding of a plain template passes. |
| ContractTemplates.AnythingAroundPasses | crates/okf-core/src/attest.rs:395-410 | So does every binding with any text in front of it and behind it. |
| ContractTemplates.PrefixIsSanctioned | crates/okf-core/src/attest.rs:324-355 | For a stored `verb @name` with any words, a run that reports another word in front passes, although it is no instance of the template. |
| ContractTemplates.DryRunIsSanctioned | crates/okf-core/src/attest.rs:324-355 | One such run: `dry run x` passes for the stored `run @id`. |
| ContractTemplates.OneValueEachIff | crates/okf-core/src/attest.rs:357-358 | Every binding that the check receives and accepts gives each name one value, if and only if no name stands in two holes. |
| ContractTemplates.EveryBindingPassesIff | crates/okf-core/src/attest.rs:357-410 | For any plain template, whatever its names, every binding passes if and only if the segments, as told from the names, lie in order within the literal parts kept apart by a foreign character. |
| ContractTemplates.BindingsPassIffOneDoes | crates/okf-core/src/attest.rs:363-410 | For any template at all, all its bindings pass if and only if the one with a foreign character in every hole does. |
| ContractTemplates.OwnLiteralsBind | crates/okf-core/src/attest.rs:363-410 | When splitting finds the template's own literal parts, every binding passes; `EveryBindingPasses` gives a guard on names that ensures it. |
| ContractTemplates.PrefixNameRefusesBindings | crates/okf-core/src/attest.rs:363-393 | A family of inputs where a proper binding is refused: a declared name that is a prefix of another one declared after it. |
| ProjectionPlan.PlanProjection | src/shared/ipc.ts:4104-4165 | Included: exactly the concepts reachable from the selection with every concept on the way admissible, each once, in order of distance from the selection, with a true reason that names an included concept on a shortest way to it, or explicit exactly when selected. Admissible: a shared audience up to case where both sides name some, a known sensitivity no later than the maximum in public, internal, confidential, restricted, and an unknown one only when asked for. Omitted: all others of the bundle, in its order, each with the first of the refusals whose own condition on concept and input holds, or as not reached. |
| ProjectionPlan.ExceedsByPlace | src/shared/ipc.ts:4140-4143 | One known sensitivity exceeds another exactly when it stands later in that scale. |
| ProjectionPlan.Worklist | src/shared/ipc.ts:4111-4152 | The queue loop ends on every bundle and leaves nothing reachable undecided. |
| ProjectionPlan.IncludedIffReachable | src/shared/ipc.ts:4113-4152 | From the finished worklist's invariant: included if and only if reachable along admissible concepts. |
| ProjectionPlan.FinishedByDistance | src/shared/ipc.ts:4111-4152 | From the layers of the finished queue: every included concept is as far from the selection as it was counted, and the counts rise along the list. |
| ProjectionPlan.LeftIsTheRest | src/shared/ipc.ts:4153-4165 | Included and omitted ids partition the bundle. |
| ProjectionPlan.SelectedIsExplicit | src/shared/ipc.ts:4144-4150 | Every admissible selected concept is in the plan, as an explicit entry. |
| ProjectionPlan.NarrowerDisclosesLess | src/shared/ipc.ts:4122-4143 | A smaller selection, a subset of the audiences (or some where any were allowed), a lower sensitivity limit or leaving out unknown ones never adds a concept. |
| SlicePlanning.PlanSlices | src/shared/ipc.ts:2206-2264 | Kept and dropped keys together are all keys, sorted; the ids of each slice and those cut from it together are exactly the sorted ids that belong under its key; caps cut only when full. The exclusions are, in order: the sorted ids of the concepts without a key, if any; the dropped keys with the width, if any; and for each cut slice its key, the number of ids it lost and the cap. |
| SlicePlanning.GroupConcepts | src/shared/ipc.ts:2208-2231 | The groups hold exactly the ids that belong under each key, each once, for all four ways of dividing; concepts without a key are listed. |
| SlicePlanning.FolderHolds | src/shared/ipc.ts:2217-2219 | A concept lies in the folder before the last slash of its id, at the root without one; `FolderIsUnique` says that this tells the folder. |
| SlicePlanning.FolderIsUnique | src/shared/ipc.ts:2217-2219 | No other folder fits an id. |
| SlicePlanning.NothingDroppedUnnamed | src/shared/ipc.ts:2233-2262 | An id under a key is in the one slice of that key, or was cut by a cap that an exclusion reports with the right count, or its key is reported as dropped, and only one of these. |
| SlicePlanning.EveryConceptIsFiledOrNamed | src/shared/ipc.ts:2215-2240 | Every concept belongs under a key or is named as not sliceable. |
| SliceAssembly.AssembleRuns | src/shared/ipc.ts:2432-2477 | The fingerprint is that of the first run that has one. The runs taken are exactly those completed under it, in order; each other run, in order, gets the exclusion its fingerprint or its result names, and behind them each planned slice that nobody reported; the item count is the running total over the runs taken. Complete if and only if all runs are usable and cover every planned slice and as many slices as were planned. |
| SliceAssembly.RunsAreSplit | src/shared/ipc.ts:2440-2461 | No run is lost and none is counted twice between those taken and those left out. |
| SliceAssembly.CompleteCoversThePlan | src/shared/ipc.ts:2465-2476 | With distinct planned keys, that condition says that exactly the planned slices are covered. |
| SliceAssembly.EveryPlannedSliceIsNamed | src/shared/ipc.ts:2462-2464 | A planned slice is covered by a run that was taken, or an exclusion carries its key. |
| BundleDetection.BundleRootFor | crates/okf-core/src/detect.rs:125-149 | The climb ends for every directory in the folder and returns its owner: the nearest directory at or above it with an `index.md` whose parent in the folder has none, or the folder when no directory on the way has one. |
| BundleDetection.OwnsIff | crates/okf-core/src/detect.rs:120-149 | Every directory has exactly one owner. |
| BundleDetection.OwningRootIsNearest | crates/okf-core/src/detect.rs:120-149 | The owning root is the nearest top of an `index.md` chain at or above the directory, or the folder when no directory on the way has an `index.md`. |
| BundleDetection.CandidateRoots | crates/okf-core/src/detect.rs:110-118 | The candidate roots are exactly the owners of the typed directories. |
| BundleDetection.Scan | crates/okf-core/src/detect.rs:58-104 | Returned roots are pairwise not nested; a confident root is returned exactly when it is an outermost confident directory, a candidate exactly when it is an outermost one that neither holds nor lies in a confident one. |
| BundleDetection.KeepOutermost | crates/okf-core/src/detect.rs:83-98 | Going from shallow to deep keeps exactly the roots with none above them. |
| BundleDetection.CoveredExactly | crates/okf-core/src/detect.rs:58-98 | A typed directory lies under a returned root if and only if a confident directory is at or above it or its owner contains no confident directory. |
| FederatedInventory.Inventory | src-tauri/src/bundle_library.rs:330-397 | The page holds the first `limit` items of the round-robin over all concepts that pass the filters (the lower-cased id goes on from the prefix, the lower-cased type and some lower-cased tag are those asked for), in bundle order for each bundle, and is truncated if and only if there are more; refused exactly for a limit of 0 or above 100. |
| FederatedInventory.Merge | src-tauri/src/bundle_library.rs:372-389 | The early-exit loop yields the first limit+1 items of the round-robin. |
| FederatedInventory.RoundRobinOrder | src-tauri/src/bundle_library.rs:374-389 | The rows one after the other hold every place of every list once: first items first, and of equal index those of the earlier bundle. |
| FederatedInventory.CappedPrefix | src-tauri/src/bundle_library.rs:363-366 | Capping every bundle at n leaves the first n items of the round-robin as they are. |
| FederatedInventory.RoundRobinIsAMerge | src-tauri/src/bundle_library.rs:374-389 | The uncapped round-robin holds every item of every list exactly as often. |
| RepairSplice.ApplyRepairs | crates/okf-core/src/compatibility.rs:199-233 | The result is the simultaneous substitution, in the original body, of exactly the destinations found for inline links whose target is the authored one of a repair, each with the replacement of the first such repair; or the first repair that is invalid, or matches no link whose destination is found, refuses all with its own reason. Ranges of inline links are apart or the same; other links may lie anywhere. |
| RepairSplice.ChosenEdits | crates/okf-core/src/compatibility.rs:226-227 | Sorting from right to left and dropping repeats leaves ascending spans and, for each, the first declared edit. |
| RepairSplice.ChosenAsAsked | crates/okf-core/src/compatibility.rs:207-227 | The chosen edits are exactly those spans, each reading the authored target of the first repair that asks for it. |
| RepairSplice.SpliceAll | crates/okf-core/src/compatibility.rs:228-231 | Replacing ranges in place from right to left is the simultaneous substitution. |
| RepairSplice.SubstituteRewrites | crates/okf-core/src/compatibility.rs:228-232 | The new text place by place: every replacement stands whole at its place, and between two of them stands what stood between their spans. |
| RepairSplice.UndoRestores | crates/okf-core/src/compatibility.rs:228-232 | Substituting the old destinations back gives the original body: every byte outside the spans was kept in order. |
| RepairSplice.DestinationHoldsHref | crates/okf-core/src/compatibility.rs:249-281 | A returned span lies in the link and holds the authored destination. |
| RepairSplice.InlineDestinationSpan | crates/okf-core/src/compatibility.rs:249-281 | The scan for the destination finds the span of the specification, and none when it fails. |
| RepairSplice.FindsTheDestinationIff | crates/okf-core/src/compatibility.rs:254-280 | The destination itself is found if and only if a boundary follows it and no later `](` stands in the link. |
| RepairSplice.FindsInBracketsIff | crates/okf-core/src/compatibility.rs:264-271 | The same for a destination in angle brackets and its closing bracket. |
| RepairSplice.TitleIsRewritten | crates/okf-core/src/compatibility.rs:195-198 | On one concrete link the span found is inside the title. |
| RepairSplice.TitleIsRewrittenIff | crates/okf-core/src/compatibility.rs:249-281 | For a destination in either form: something other than it is rewritten if and only if a later `](` stands in the link and behind the last one the text spells the destination again, with its boundary or in brackets. |
| RepairSplice.LinkIsSkippedIff | crates/okf-core/src/compatibility.rs:254-280 | No span is found if and only if behind the last `](` the text does not spell the destination. |
| RepairSplice.TitleHidesTheLink | crates/okf-core/src/compatibility.rs:254-280 | On one concrete link, whose title ends another link, no span is found. |
| RepairSplice.SkippedLinkStays | crates/okf-core/src/compatibility.rs:199-233 | When the repairs succeed, a link for which no span is found is touched by no edit. |
| EgoNeighbourhood.EgoIds | src/shared/selectors.ts:114-145 | Exactly the ends of walks of at most `depth` steps from a root that has a concept, over links and backlinks of the last concept of each id, dangling ids included; nothing otherwise. |
| EgoNeighbourhood.GrowBall | src/shared/selectors.ts:120-144 | The frontier loop computes the ball of the radius; stopping at an empty frontier loses nothing. |
| EgoNeighbourhood.BallHasShortWalks | src/shared/selectors.ts:107-113 | The ball holds exactly the ends of walks of at most that many steps. |
| EgoNeighbourhood.NeighbourhoodIsSymmetric | src/shared/selectors.ts:107-113 | In a linked bundle, being within n hops is symmetric. |
| LinkGraph.BuildLinkGraph | crates/okf-core/src/graph.rs:12-37 | Every concept gets the strictly sorted list of ids that link to it and the number of its links and backlinks modulo 2^32; ids and links stay. |
| LinkGraph.CitedByIsTheInverse | crates/okf-core/src/graph.rs:20-34 | With distinct ids, `cited_by` is exactly the inverse of `links`. |
| LinkGraph.LinkTwice | crates/okf-core/src/graph.rs:11-37 | A second pass changes nothing. |
| LinkGraph.DegreesSumToTwiceTheLinks | crates/okf-core/src/graph.rs:35 | With resolved links that do not repeat and no degree past 2^32, the degrees sum to twice the number of links. |
| PortableLinks.PortableConceptPath | src-tauri/src/bundle_projection.rs:432-447 | Encoding segment by segment and joining puts out, byte by byte, a letter, a digit, `-`, `_`, `.`, `~` or a slash as it is and `%` with two upper-case digits for any other, and the percent-decoder gives the id back. |
| PortableLinks.PathIsPortable | src-tauri/src/bundle_projection.rs:437-441 | The path holds only unreserved bytes, slashes and escapes. |
| PortableLinks.PercentDecode | crates/okf-core/src/links.rs:165-184 | The decoding loop is the decoding function, malformed escapes kept as they are. |
| PortableLinks.HexValueIff | crates/okf-core/src/links.rs:188-195 | Which digits of either case the decoder takes. |
| PortableLinks.DecodesBack | src-tauri/src/bundle_projection.rs:432-447 | For every id, decoding its path gives the id, whatever text follows. |
| PortableLinks.PushNormalized | crates/okf-core/src/links.rs:197-208 | Fails if and only if some beginning of the path leads out of the root (more `..` than there are segments to leave); otherwise the result is as deep as the path leads. |
| PortableLinks.PushedFailsIff | crates/okf-core/src/links.rs:197-208 | The same for the function behind it, by the depth of every beginning of the path. |
| PortableLinks.PushedCancels | crates/okf-core/src/links.rs:201-204 | Anywhere in a path, a segment and the `..` behind it cancel. |
| PortableLinks.PushedIgnores | crates/okf-core/src/links.rs:200 | Anywhere in a path, an empty segment or `.` changes nothing. |
| PortableLinks.ResolvesIffNormal | crates/okf-core/src/links.rs:142-161 | From the bundle root the decoded link resolves to the id if and only if no segment before the last is empty, `.` or `..`. |
| PortableLinks.IndexLinkFindsConcept | src-tauri/src/bundle_projection.rs:237-241 | The link that a projection's index holds for a concept is classified as a link to that concept if and only if the id is in the bundle, does not read as an external address and has only normal segments before its last. |
| PortableLinks.IsExternalIff | crates/okf-core/src/links.rs:118-127 | A target is external exactly when letters, at least one and nothing else, stand before its first colon. |
| PortableLinks.EndsWithMdIff | crates/okf-core/src/links.rs:129-132 | A target names a Markdown file exactly when it ends in a dot and the letters `md` in either case. |
| PortableLinks.NoteIsExternal | crates/okf-core/src/links.rs:118-127 | The link for the concept id `note:x` is classified as external, whatever the bundle holds. |
| TabHistory.ReachableStatesHold | src/shared/store.tsx:368-427 | In every state any message sequence reaches: at least one tab, distinct ids below the next one, an open active tab, mirrors equal to its fields, and not both side panels open. |
| TabHistory.StepKeeps | src/shared/store.tsx:509-777 | Every modelled message keeps that invariant. |
| TabHistory.WithTabsMirrors | src/shared/store.tsx:482-492 | Any well-formed list of tabs gives exact mirrors and keeps an open active tab. |
| TabHistory.IdsAreNotReused | src/shared/store.tsx:648-675 | A tab that is gone never comes back under its id. |
| TabHistory.BackAndForwardKeepTimelines | src/shared/store.tsx:620-647 | Any run of back and forward leaves every tab's timeline unchanged. |
| TabHistory.ForwardUndoesBackIff | src/shared/store.tsx:620-647 | Forward after back restores the whole state if and only if a concept was shown. |
| TabHistory.TabBackUndoesForwardIff | src/shared/store.tsx:620-647 | Back after forward restores the tab if and only if a concept was shown. |
| TabHistory.SelectCutsForwardOnly | src/shared/store.tsx:600-619 | Selecting keeps the active tab's past and what it showed, cuts only its forward part, and leaves the other tabs alone. |
| TabHistory.MoveIsAReorder | src/shared/store.tsx:687-697 | Moving a tab permutes the tabs, puts it at the clamped place, and keeps the order of the others and everything else. |
| TabMessages.OtherBundle | src/shared/store.tsx:550-588 | Another bundle leaves one new tab without history, on the shown concept where the bundle has it and otherwise on the entry page; no other field changes. |
| TabMessages.SameBundle | src/shared/store.tsx:589-599 | A reload keeps every tab with its history; a concept that is gone gives way to the entry page in the active tab and to nothing in another. |
| TabMessages.ExistsIff | src/shared/selectors.ts:20-33 | There is something to show for an id if and only if a concept has it or it is the home of a folder with a page. |
| TabMessages.OpensAt | src/shared/store.tsx:494-507 | The entry page is that of the root; without one, the first concept that a page lists, in the order of pages and entries; without any, the first concept. |
| TabMessages.Selected | src/shared/store.tsx:600-619 | Selecting what is shown only leaves the landing page; anything else puts what was shown on the back list of the active tab and clears its forward list. |
| TabMessages.WentBack | src/shared/store.tsx:620-633 | Back shows the last page of the back list and puts what was shown in front of the forward list; no other tab changes. |
| TabMessages.WentForward | src/shared/store.tsx:634-647 | Forward likewise. |
| TabMessages.Opened | src/shared/store.tsx:648-661 | A new tab stands right behind the active one and is shown, or in the background the active one stays. |
| TabMessages.Closed | src/shared/store.tsx:662-675 | The last tab stays; of others the one goes, and when it was the active one, the tab to its right is shown, or at the end the one to its left. |
| TabMessages.NothingToClose | src/shared/store.tsx:662-678 | Closing or activating a tab that is not open changes nothing. |
| TabMessages.Activated | src/shared/store.tsx:676-680 | An open tab is shown; the tabs stay. |
| TabMessages.Cycled | src/shared/store.tsx:681-686 | The tab to the right or to the left is shown, round the ends. |
| TabMessages.PanelSet | src/shared/store.tsx:761-777 | The panel is opened, closed or turned over, and opening one of agent and git closes the other; no other panel changes. |
| EntryQueue.ExternalEntryState.Queue | src-tauri/src/external_entry.rs:101-133 | A request is a duplicate if and only if one of the last 32 accepted ones had its digest within 5 seconds, refused as full if and only if it is no duplicate and 16 wait; otherwise it is appended. Always: at most 16 pending, at most 32 recent with distinct digests, and an accepted repeat within the window has at least 32 accepted requests in between. |
| EntryQueue.SeenIffAcceptedLately | src-tauri/src/external_entry.rs:109-114 | What the bounded recent list answers is a statement about all requests ever accepted. |
| EntryQueue.AcceptKeeps | src-tauri/src/external_entry.rs:128-131 | Accepting a digest that is not in the recent list keeps the no-early-repeat property of the whole history. |
| EntryQueue.ExternalEntryState.Remove | src-tauri/src/external_entry.rs:153-163 | Removing leaves exactly the entries with another id, in order, and says whether there was one with it. |
| EntryQueue.ExternalEntryState.Get | src-tauri/src/external_entry.rs:142-151 | An entry is found if and only if its id is waiting. |
| Debounce.DebounceLoop | src-tauri/src/watch.rs:127-162 | For every list of events and quiet times: exactly the bursts that hold a relevant event and close before the shutdown signal are announced, each once and in order; the signal ends the thread exactly when a burst closes at or after it. |
| Debounce.BurstOf | src-tauri/src/watch.rs:136-153 | Every event lies in exactly one burst. |
| Debounce.EveryRelevantEventIsAnnounced | src-tauri/src/watch.rs:135-158 | Without a shutdown, every relevant event is followed by the one emission at the end of its burst and by no quiet time before it. |
| GrantRegistry.BundleGrantState.Grant | src-tauri/src/bundle_grant.rs:72-97 | A known root only changes its kind, a new one is appended; it succeeds exactly for a readable folder when it is known or fewer than 128 are there and the write works; every refusal occurs exactly under its own condition and changes nothing; a failing write is reported after the change; roots stay distinct and every bundle root keeps a grant. |
| GrantRegistry.BundleGrantState.RegisterBundleRoots | src-tauri/src/bundle_grant.rs:173-199 | Succeeds exactly for a granted folder with directories at or below it; then the bundle roots outside the folder stay in order and the given ones follow, each once, where it stands first. Otherwise the first root that is missing or escapes gives the reason and nothing changes. Roots stay distinct and granted. |
| GrantRegistry.BundleGrantState.AuthorizeBundleWithFolders | src-tauri/src/bundle_grant.rs:218-237 | Succeeds exactly for a registered bundle root and returns the granted folders that hold it, in order and at least one: the refusal for want of a folder is never reached. |
| GrantRegistry.BundleGrantState.Revoke | src-tauri/src/bundle_grant.rs:241-267 | Takes out the one grant and exactly the bundle roots that no other grant holds, and keeps the others in order; nothing changes for an unknown root. |
| GrantRegistry.BundleGrantState.AuthorizeFolder | src-tauri/src/bundle_grant.rs:100-116 | Over the whole history of the registry: a folder is authorized if and only if the last change to it granted it, or it was in the grant file and was never revoked. |
| GrantRegistry.StandingAfter | src-tauri/src/bundle_grant.rs:72-116 | How one more grant or revocation changes which folders stand. |
| GrantRegistry.FoldersOfHolds | src-tauri/src/bundle_grant.rs:227-232 | The folders of a bundle are all granted folders that hold it and no others. |
| GrantRegistry.RevokeUndoesGrant | src-tauri/src/bundle_grant.rs:241-252 | Granting a new folder and revoking it leaves the grants as they were. |
| GrantRegistry.ReadGrants | src-tauri/src/bundle_grant.rs:278-316 | The grant file is taken whole exactly when it has at most 128 entries, all absolute, short enough and distinct; otherwise it is refused whole. |
| Base64.Base64Encode | crates/okf-core/src/asset.rs:113-136 | The chunk loop produces the encoding, and the decoder recovers the bytes from it. |
| Base64.EncodeChunk | crates/okf-core/src/asset.rs:118-134 | Joining up to three bytes to one number and cutting it gives the four digits of RFC 4648. |
| Base64.DecodesIffEncoded | crates/okf-core/src/asset.rs:113-136 | A text decodes to given bytes if and only if it is their encoding: round trip in both directions. |
| Base64.EncodedIsPadded | crates/okf-core/src/asset.rs:116-134 | The length is four times the number of bytes divided by three, rounded up, and padding stands exactly in the last zero, one or two places. |

## Left out

- SupersessionCycles.NulFreeNames: one direction of the condition; ids without NUL suffice, but an input with NUL may still name every concept on a cycle, depending on the order of the search. No backend sends one: an edge's source is a concept id (crates/okf-core/src/profile.rs:431), which is a file path, and every node of a cycle is a source. `ReliabilityFindings` gives the exact statement in terms of keys for all inputs.
- SupersessionCycles.ReliabilityFindings: the metadata diagnostics of `assessReliability` and its state priority, field by field checks on dates and lists.
- TabHistory.Reducer: the other view, layout, filter and dialog messages change none of the modelled fields and are one message `Other`; the types that `showOnlyType` hides; local storage, `workspaceFloor` and `agentPanelClamp`.
- BundleDetection.CandidateRoots: the order of the candidate list; the selection does not depend on it. The directory walk with its depth limit and the reading of `index.md` and front matter.
- EgoNeighbourhood.EgoIds: a depth that is NaN or infinite; the depth is a real number.
- RepairSplice.ApplyRepairs: a text is a list of bytes, one character for each, so positions are the code's; the link ranges of the Markdown parser are given, those of inline links pairwise apart or the same. `relative_target`, which proposes replacements, and the report of `analyze`.
- PortableLinks.IndexLinkFindsConcept: the source of the link is at the bundle root, as the index is; decoded bytes are not turned into Unicode text, which changes nothing for the bytes of an id. Labels and Markdown syntax around the link.
- LinkGraph.DegreesSumToTwiceTheLinks: sums where a 32-bit degree wraps.
- EntryQueue.ExternalEntryState.Queue: parsing, digests and request ids; ids are fresh numbers and time never runs backwards.
- GrantRegistry.BundleGrantState.Grant: paths are canonical and compared by their segments, so grant files with two spellings of one path are not modelled; what a failed write leaves in the file is unknown. Each method is one atomic step.
- Debounce.DebounceLoop: real time; a quiet time is an item of the list. Which paths are relevant.
- ProjectionExport.Volume.Export: whether something stands at the destination (src-tauri/src/bundle_projection.rs:146, 161) is an answer that cannot fail; the code reads a failing look as nothing there, and then the platform decides what the move does. Symbolic links, the fingerprint, the rendering of concepts, the terms and findings of the audit and its content; they are answers of the outside world. Writes are whole or fail.
- ProjectionPlan.PlanProjection: the ignored path that the browser's plan adds, redactions, link consequences, and the native planner.
- ContractTemplates.OnlyHolesDifferIff: templates that are not plain, such as one with a `::` in a literal part, where a spelling can begin inside a literal part. `OnlyHolesDifferIffSegments` gives the exact condition for them in terms of the segments left.
- ComputationHeading.BlocksAgreeIff: lines are told apart after trimming, as the scan does, so indentation of a fence or heading, backticks in the text behind a fence, and a `#` without a space behind it play no part in the documented reading.
- ContractTemplates.OneValueEachIff: templates that are not plain, or whose names are not apart.
- Attestation.AttestRun: the dates and signers of a report, stale contracts and file containment; the receipt is in key order.
- StringOrder.Sort: order by code points; JavaScript orders by UTF-16 units and `localeCompare` by locale. No stated property depends on which of these it is.
- SlicePlanning.PlanSlices: the fingerprint of a plan and limits below zero; spaces are those of `trim`.
- SliceAssembly.AssembleRuns: the comparison that sorts the outcomes; the result is stated for the list in the order given.
- Library entries, access states, search, sources and relationships of `bundle_library.rs`, and the resolution of selections.
- The one-slot `compile` cache of `selectors.ts` and the visibility predicates.
- Cross-thread interleavings, windows, dialogs, commands, network download and archives.
