# Verification of the increparse engine and its editor layer

This project models two parts of the repository in Dafny and proves what they are for.

**The incremental fixpoint engine** (`crates/increparse`). A parse tree is an arena of nodes that
grows in rounds: round `r` offers every waiting node of round `r` to pass `r` of a schedule and
merges the outcomes back. An edit of the text moves every span and resets the nodes it may have
changed; the next run matches the children it produces against the old ones and keeps what matches.
The tree is a cache, and the central theorems say what the cache is worth:

- in every reachable state the arena is well formed, and no settled node is stale: what it says is
  what the passes say about its current bytes (`Histories.ReachableIsConsistent`, `ReachableIsSound`);
- edit and re-run equals parsing from nothing, for slice-local passes on a levelled schedule
  (`Histories.EditAndRerunIsScratch`, `EditAndRerunIsFreshRun`), and so does any cancelled history
  once no pass has work left (`LevelledIncrementalIsScratch`, `LevelledIncrementalIsFreshRun`);
  without the level hypothesis it holds if and only if every child started in the round after its
  parent's (`IncrementalIsScratchIffAligned`), reuse is the one step that can lose this and
  `Reuse.MergeIsAlignedIffHomesFit` says exactly when, and `Witness` shows a document that loses it;
- in a run after edits of a quiet tree only touched and new nodes are parsed (`Costs`);
- the fixpoint flag is truthful for all passes exactly on frontiers, and a cancelled run is resumed
  exactly when it had merged nothing (`Necessity.TruthfulForAllPassesIffFront`,
  `Frontier.NextCallResumesIff`);
- the report of a run says exactly what its attempts were and why it stopped (`Reports.ReportIsTheLog`);
- the methods that update the arena in place (`ParseTrees`, `Driver`, `Sessions`) compute exactly the
  specification functions that these theorems are about.

**The editor layer** (`crates/increparse-lsp`). Byte offsets are converted to and from
`(line, character)` positions in UTF-8, UTF-16 and UTF-32; change events become splices of the text
and edits of the tree; failed regions become diagnostics. The theorems are round trips and order for
the conversions, what lines and columns count, said of the text alone (`Coordinates`), the document
invariant over any batches of changes, and an exact description of the nodes offered to the diagnostic
hook and of what becomes of its answers.

## How it is organised

| part | modules |
|---|---|
| spans and edits of text | `Spans` |
| the arena as a value: verdicts, matching, surgery | `Arenas`, `Invariants`, `Edits`, `Detaching`, `Queries`, `Reuse` |
| passes, executors, runs as functions, and their reports | `Engines`, `Executors`, `Runs`, `Batches`, `Reports` |
| classes and loops that update in place | `ParseTrees`, `Driver`, `Sessions`, `Documents`, `Diagnostics` |
| what runs and edits keep | `Freshness`, `Soundness`, `Histories` |
| when the fixpoint flag can be trusted | `Frontier`, `Necessity`, `Witness` |
| what a run does not do again | `Costs` |
| the parser from nothing | `Reference` |
| text, columns, lines | `Strings`, `Encodings`, `LineIndexes`, `Conversions`, `Coordinates` |
| which nodes are reported | `OfferedNodes` |

The classes hold the arena as a sequence that their methods reassign. Their `ensures` equate the new
state with a function of the old one (`EditAll`, `Prune`, `Merge`, `Run`), and the lemmas speak about
those functions.

## What is assumed

- A span has `start <= end` and an edit has `start <= old_end` and `start <= new_end`, as their
  constructors assert. The root span carries the tree's revision, which the constructor of the tree
  takes as a separate argument.
- A pass is a pure total function of text, span and context, as `pass.rs` demands of it. That it
  depends on nothing but the bytes of its span, and answers relative to where the span lies
  (`Engines.SliceLocal`), is a hypothesis wherever it is needed and not built in. So is
  `Soundness.Levelled`: pass `r` expands only contexts of level `r`, into contexts of level `r + 1`.
- Cancellation is arbitrary. The token's polls before each round are any function of the round, and
  an executor is any function that keeps the prefix contract of `executor.rs`.
- `usize` and `u64` are natural numbers; the subtraction in `edit` is proved not to underflow. The
  `as u32` casts are modelled as truncation, and a text is one byte shorter than `2^32` where the
  casts must not lose anything (`LineIndexes.Fits`).
- Text is a sequence of Unicode scalar values, with the UTF-8 form of section 3 of RFC 3629 and the
  UTF-16 unit counts of section 2.1 of RFC 2781. Positions, encodings and change events are those of
  the sections "Position", "PositionEncodingKind" and "DidChangeTextDocument Notification" of the
  Language Server Protocol 3.17.
- In UTF-8 a column may lie inside a character (`Documents.CutInsideACharacter`); the standard
  library's `replace_range` panics there, before it has changed anything. The model says when
  (`SpliceableIff`) and returns no report; the document stays as the events before have left it.
- The diagnostic hook may keep state: it is a function of the calls it has had before.

## Where the code and its documentation differ

The model follows the code.

- `engine.rs:258-260` says that a later call resumes a cancelled run. It does exactly when the run had
  merged nothing (`Frontier.NextCallResumesIff`); otherwise the next call returns the same tree and
  reports a fixpoint. `Witness.CancelledRunIsNotResumed` is such a pair of calls.
- `engine.rs:15` and `engine.rs:29` say that `reached_fixpoint` means that every node is settled. This
  holds for a run started on a frontier (`FixpointIsSound`), and on no other tree does it hold for all
  passes, if siblings differ (`Necessity.TruthfulForAllPassesIffFront`).
  `Witness.UnlevelledScheduleBreaksAgreement` has a run, never cancelled, where it fails.
- `engine.rs:22` calls `rounds_run` the rounds that processed at least one node. A batch of which the
  executor executes nothing is counted as well: `BatchRefused` in `Reports.Stopped`.
- `session.rs:128-132` rests reuse on equal spans and contexts. That is not enough for the tree to be
  what a new parse would give: a kept child may have started in another round. The tree agrees exactly
  when `IncrementalIsScratchIffAligned` says so, and always on levelled schedules.
- `span.rs:68` says that overlapping spans share a byte. An empty span inside another overlaps it and
  has no byte to share; `Spans.OverlapIsASharedByte` gives the exact condition.
- `line_index.rs:80-82` clamps lines past the end to the last line. It keeps their column, so offsets
  do not follow the order of positions there (`Conversions.OrderFailsPastTheLastLine`). They are out
  of order exactly when `OrderFailsIff` says so.
- `session.rs:101-105` and the code call a span touched by an insertion of nothing, and an empty span by
  a replacement around it, though neither changes the bytes: `Spans.TouchesExactly`.
- The protocol also counts `\r` and `\r\n` as line ends. The code, and the model, know only `\n`.

## Model

| member | source | states |
|---|---|---|
| Spans.OverlapIsASharedByte | crates/increparse/src/span.rs:64-71 | two spans overlap and both are non-empty exactly when some byte offset lies in both |
| Spans.UntouchedTextIsKept | crates/increparse/src/session.rs:69-119 | for every edit and every span it does not touch, the remapped span selects in the new text the very bytes the old span selected in the old text; every remapped span ends inside the new text |
| Spans.PositionsKeepTheirSide | crates/increparse/src/session.rs:65-99 | where starts and ends of spans go, said of the texts: up to the edit the text in front stays in front; past it or inside the replaced range the text behind, less what was replaced, stays behind; only at an insertion an end takes in what a start does not |
| Spans.TouchesExactly | crates/increparse/src/session.rs:101-112 | some texts exist for which the edit changes the bytes the span selects exactly when the code calls the span touched and the edit neither inserts nothing nor replaces a range around an empty span |
| Spans.NestingIsKept | crates/increparse/src/session.rs:85-119 | remapping keeps a child inside its parent, and a touched child has a touched parent |
| Spans.UntouchedMovesRigidly | crates/increparse/src/session.rs:69-119 | inside an untouched span all spans move by one common distance and keep their length |
| Spans.WholeTextStaysWhole | crates/increparse/src/session.rs:79-99 | a span over the whole text still covers the whole text after any edit, appending included, and every edit touches it |
| Arenas.FirstFault | crates/increparse/src/tree.rs:352-373 | the rejected child is the first one at fault, with its fault; nothing is rejected exactly when no child is at fault |
| Arenas.LiveIsReachableFromRoot | crates/increparse/src/node.rs:33-35 | in a well-shaped arena the live nodes are exactly those reached from the root through child lists |
| Arenas.SiblingsAreApart | crates/increparse/src/tree.rs:430-436 | the subtrees of two children of one node have no node in common |
| Arenas.KidFault | crates/increparse/src/tree.rs:354-362 | a child is without fault exactly if it has the parent's revision, lies inside the parent and, with shrinking, covers fewer bytes; otherwise the fault is the first of these that it breaks |
| Arenas.Position | crates/increparse/src/tree.rs:385-388 | the first live orphan with the produced span and context, and no live orphan before it has them |
| Arenas.MatchClaims | crates/increparse/src/tree.rs:381-391 | a reused child is an old child with the produced span and context, is claimed once, and every old child is either claimed or an orphan |
| Arenas.MatchIsMaximal | crates/increparse/src/tree.rs:381-391 | the unclaimed old keys are the multiset difference of old and produced keys, so greedy first fit keeps as many old children as the multiset intersection has |
| Arenas.PlaceIsPlaced | crates/increparse/src/tree.rs:396-414 | every produced child is in its slot, as the reused node or as a new unparsed one of the next round, and new ids are contiguous and increasing |
| Invariants.MergeEffect | crates/increparse/src/tree.rs:323-421 | a merge changes only the node, kills only nodes below it, and adds only children the verdict asked for; all else is kept field by field |
| Invariants.MergeGivesTheKids | crates/increparse/src/tree.rs:396-418 | after an accepted expansion the children are the produced ones, in the pass's order, each an old child kept as it was or a new node |
| Invariants.MergeKeepsConsistent | crates/increparse/src/tree.rs:323-421 | every merge on a ready node keeps the arena invariant: shape, nesting, one revision, labels that match the children, and home rounds past the parent's round |
| Invariants.MergeKeepsHomes | crates/increparse/src/tree.rs:442-447 | no merge moves any node's home round or parent, and dead nodes stay as they are |
| Invariants.JudgeIsLegal | crates/increparse/src/tree.rs:352-373 | an expansion the engine accepts is non-empty and none of its children is at fault |
| Edits.EditKeepsConsistent | crates/increparse/src/tree.rs:223-238 | every edit keeps the arena invariant at the next revision, and its subtraction never underflows |
| Edits.EditKeepsHomes | crates/increparse/src/tree.rs:226-237 | a touched live node restarts unparsed at exactly its home round with no attempts; an untouched one keeps status, round and attempts; every live node gets the remapped span; no node's home, parent, context or child list changes; dead nodes are not touched |
| Edits.SpansFollowTheRoot | crates/increparse/src/session.rs:79-99 | every live span lies inside the root's |
| Edits.UntouchedSubtreeIsKept | crates/increparse/src/tree.rs:226-237 | the whole live subtree of an untouched node is untouched and keeps every field but its place, and its distances and lengths |
| Edits.SubtreeLeftAloneIsKept | crates/increparse/src/session.rs:121-132 | the same through any sequence of edits that leaves the node alone |
| Engines.LocalVerdict | crates/increparse/src/tree.rs:334-378 | on equal bytes a slice-local pass gets the same verdict wherever they lie: validation depends on relative position only |
| Freshness.MergeKeepsFresh | crates/increparse/src/tree.rs:334-419 | after merging the verdict of a node's round no live node is stale: the passes from its home to its round failed on its current text, and its status and child list are what the pass of its round produces |
| Freshness.RoundWithoutPassFails | crates/increparse/src/engine.rs:336-344 | a round beyond the last pass fails each of its jobs, one round later with one more attempt |
| Freshness.EditKeepsFresh | crates/increparse/src/tree.rs:223-238 | with slice-local passes an edit leaves no stale node, relative to the new text |
| Freshness.EditKeepsInText | crates/increparse/src/session.rs:79-99 | if the tree lay in the old text it lies in the new text after the edit |
| Executors.FirstCancelled | crates/increparse/src/executor.rs:67-70 | the first poll that finds the token cancelled: every earlier one does not |
| Executors.SerialExecute | crates/increparse/src/executor.rs:66-74 | the serial executor returns exactly the outcomes of the jobs before the first poll that finds the token cancelled, in order |
| Executors.ParallelIsSerial | crates/increparse/src/executor_rayon.rs:64-77 | whatever slots find the token cancelled, the parallel executor returns what the serial one returns under the same polls |
| Executors.ContractMeansSerialCut | crates/increparse/src/executor.rs:14-21 | an executor that keeps the contract behaves on each batch as the serial one cut at the same point |
| Runs.ReadyJobsAreABatch | crates/increparse/src/tree.rs:292-311 | a batch holds only ready nodes of the round, with their span and context, each once, in id order |
| Runs.ReadyJobsMissNone | crates/increparse/src/tree.rs:292-311 | a batch holds every ready node of the round |
| Runs.PendingMembers | crates/increparse/src/tree.rs:264-289 | the pending list holds, in ascending order and once each, exactly the live unparsed nodes and the live failed ones with a round left |
| Runs.TallyRecordsFirstFault | crates/increparse/src/engine.rs:306-319 | a failure is counted exactly when the pass gave up or produced a faulty child, and then the recorded violation is the first faulty child with its fault |
| Runs.RunDependsOnCutsOnly | crates/increparse/src/engine.rs:287-333 | two executors that keep the contract and cut every batch at the same point give the same tree and report |
| Runs.AnyRunIsASerialRun | crates/increparse/src/engine.rs:272-334 | a run with any executor that keeps the contract is a serial run cut at the same points, in tree and report |
| Runs.ParallelRunIsASerialRun | crates/increparse/src/executor_rayon.rs:64-77 | a parallel run is the serial run with the same cancellation pattern |
| Batches.RoundsGrowDownward | crates/increparse/src/tree.rs:379-414 | a live node's home round lies past the round of every proper ancestor, so no two jobs of a round are related |
| Batches.MergeSparesPeers | crates/increparse/src/engine.rs:306-319 | merging a ready node changes no other live node of the same or an earlier round |
| Batches.BatchIsReplay | crates/increparse/src/engine.rs:306-319 | when its turn comes every job finds its node alive with the span, context and status it was made from, so merging any prefix of a batch is a sequence of merges on ready nodes |
| Batches.RunTracks | crates/increparse/src/engine.rs:287-333 | at any point of a run, with any executor and cancellation: the tree is the result of logged merges on ready nodes below the cap, no pass has met a node twice, only earlier rounds have been run, and as many nodes are reported as processed as the log has entries |
| Batches.WholeRunTracks | crates/increparse/src/engine.rs:103-105 | the same for a whole run from any consistent tree, with at most as many rounds as the cap |
| Reports.RunIsBooked | crates/increparse/src/engine.rs:287-333 | the same from any round on; no round is executed once the token is found cancelled |
| Reports.ReportIsTheLog | crates/increparse/src/engine.rs:272-334 | for every run from a consistent tree: the failures are the logged attempts on which the pass gave up or produced an inadmissible child, each on the tree left by those before; the violations are the first faults of the latter, in order; every executed batch is a round; and the flags say which of five ways the run stopped in |
| Batches.ReplayKeepsConsistent | crates/increparse/src/engine.rs:256-260 | merges on ready nodes keep the arena invariant however they are scheduled, so a cancelled run leaves a consistent tree |
| Detaching.DetachedOneMore | crates/increparse/src/tree.rs:423-436 | detaching one more child adds exactly its subtree to what has been removed |
| Detaching.AllBelowDetached | crates/increparse/src/tree.rs:430-436 | detaching all children and marking the node dead removes exactly the node's subtree |
| ParseTrees.ParseTree.constructor | crates/increparse/src/tree.rs:50-56 | a new tree is one live unparsed root of round 0, and satisfies the invariant |
| ParseTrees.ParseTree.NodeAt | crates/increparse/src/tree.rs:78-93 | the loop terminates and answers none exactly outside the root, otherwise the node that `DeepestContains` and `DeepestIsUnique` describe |
| ParseTrees.ParseTree.Edit | crates/increparse/src/tree.rs:223-238 | the loop in place gives exactly the edited arena, one revision later, and keeps the invariant |
| ParseTrees.ParseTree.DetachRecursive | crates/increparse/src/tree.rs:430-436 | terminates, kills exactly the subtree of the node and leaves every other node as it was |
| ParseTrees.ParseTree.DetachChildren | crates/increparse/src/tree.rs:423-428 | kills exactly what lies strictly below the node and empties its list |
| ParseTrees.ParseTree.SetStatus | crates/increparse/src/tree.rs:438-440 | the status of the node changes and nothing else |
| ParseTrees.ParseTree.MarkFailed | crates/increparse/src/tree.rs:442-447 | the node is failed, due one round later, with one more attempt; nothing else changes |
| ParseTrees.ParseTree.ClaimOldChildren | crates/increparse/src/tree.rs:381-391 | the loop computes the greedy matching that `MatchIsMaximal` is about |
| ParseTrees.ParseTree.DetachOrphans | crates/increparse/src/tree.rs:392-394 | exactly the subtrees of the orphans die |
| ParseTrees.ParseTree.PlaceChildren | crates/increparse/src/tree.rs:396-414 | the loop computes the placing that `PlaceIsPlaced` is about, and only appends |
| ParseTrees.ParseTree.ExpandNode | crates/increparse/src/tree.rs:379-418 | matching, detaching orphans and appending in place add up to the merge that `ReexpansionReusesMaximally` is about |
| ParseTrees.ParseTree.FindViolation | crates/increparse/src/tree.rs:352-373 | the loop with its early exit finds the first child at fault |
| ParseTrees.ParseTree.Apply | crates/increparse/src/tree.rs:323-421 | every branch in place is the merge of the judged outcome, reports that verdict, and keeps the invariant |
| ParseTrees.ApplyDecides | crates/increparse/src/tree.rs:334-420 | for every outcome, what `apply` makes of the node and reports: done when the pass accepts or produces nothing; expanded exactly when all produced children have the revision, lie inside and, with shrinking, are shorter; otherwise failed, one round later, naming the first inadmissible child and the first demand it breaks |
| Driver.RunEngine | crates/increparse/src/engine.rs:272-334 | the driver loop computes exactly the specified run, tree and report, for every executor that keeps the contract and every cancellation, and keeps the invariant |
| Driver.MergeExecuted | crates/increparse/src/engine.rs:305-319 | merging the executed jobs in order gives the specified tree and report, and every call of `apply` finds its node ready in this round |
| Queries.DeepestContains | crates/increparse/src/tree.rs:64-93 | the walk ends in a live node that contains the offset and none of whose children does |
| Queries.FirstHit | crates/increparse/src/tree.rs:84-87 | the child the walk goes down to contains the offset, and no child listed before it does |
| Queries.DeepestIsUnique | crates/increparse/src/tree.rs:64-93 | where siblings are disjoint every live node that contains the offset is an ancestor of the node found, or that node |
| Queries.SettledMeansNothingPending | crates/increparse/src/tree.rs:270-282 | a node is settled exactly when no node below it, itself included, is pending |
| Queries.RootSettledMeansPendingEmpty | crates/increparse/src/tree.rs:276-289 | the root is settled exactly when the pending list is empty |
| Reuse.ReexpansionReusesMaximally | crates/increparse/src/tree.rs:379-418 | after re-expansion the children are the produced ones in order; the old children kept are exactly the claimed ones, as many as the multiset intersection; the subtrees of the others die; nothing else changes |
| Reuse.ReusedSubtreeIsKept | crates/increparse/src/tree.rs:318-322 | the whole subtree of a reused child is unchanged field by field |
| Reuse.EditKeepsAligned | crates/increparse/src/tree.rs:226-237 | an edit never leaves an expanded node with a child of the wrong home round |
| Reuse.MergeIsAlignedIffHomesFit | crates/increparse/src/tree.rs:334-419 | a merge keeps the rounds aligned unless it is an expansion, and then exactly when every old child it keeps started in the round its new children would start in |
| Costs.AttemptsFindWork | crates/increparse/src/engine.rs:114-121 | every attempt is on a node that had work from the start or has been created since |
| Costs.OnlyTouchedIsReparsed | crates/increparse/src/session.rs:127-132 | in a run after an edit of a quiet tree every attempt is on a live node that the edit touched, or on a node that the run itself has created |
| Costs.LeftAloneIsNotReparsed | crates/increparse/src/session.rs:127-132 | after any sequence of edits of a quiet tree the run attempts nothing in the subtree of a node that all of them left alone |
| Soundness.MergeKeepsBounded | crates/increparse/src/engine.rs:103-110 | no merge below the cap takes a live node past the cap |
| Soundness.ReplayKeepsSound | crates/increparse/src/engine.rs:287-333 | merges on ready nodes, however scheduled, keep a tree consistent, in the text, free of stale nodes and under the cap |
| Soundness.EditKeepsSound | crates/increparse/src/tree.rs:223-238 | with slice-local passes so does an edit, relative to the new text |
| Soundness.ReplayKeepsLevels | crates/increparse/src/tree.rs:379-414 | under a levelled schedule every live node's home round stays the level of its context |
| Soundness.EditKeepsShrunk | crates/increparse/src/tree.rs:223-238 | after any edit the children of nodes that are still expanded are still strictly shorter |
| Soundness.ReplayKeepsShrunk | crates/increparse/src/tree.rs:358-359 | with shrinking enforced, merges keep the children of expanded nodes strictly shorter |
| Soundness.PathsAreShort | crates/increparse/src/engine.rs:96-101 | with nothing unparsed, a root path of such a tree has at most root-length + 1 nodes |
| Reference.QuietTreeIsParsed | crates/increparse/src/engine.rs:112-125 | below every live node of a sound, quiet and aligned tree the tree is, in spans, contexts, statuses, rounds and ordered children, what the recursive parser gives for the node's region from its home round |
| Reference.AgreesWithScratchIffAligned | crates/increparse/src/session.rs:121-132 | a sound and quiet tree agrees with parsing its text from nothing exactly when every child of an expanded node started in the round after its parent's |
| Reference.LevelledIsAligned | crates/increparse/src/tree.rs:379-414 | a levelled schedule always gives that alignment |
| Reference.ReplayKeepsAligned | crates/increparse/src/tree.rs:396-414 | without leftover children to reuse, merges keep the alignment, whatever the schedule |
| Frontier.RoundMovesFront | crates/increparse/src/engine.rs:287-329 | a round that is not cut short moves the whole frontier of pending nodes to the next round |
| Frontier.EmptyRoundIsQuiet | crates/increparse/src/engine.rs:294-299 | an empty round on a frontier means that nothing is pending anywhere |
| Frontier.RunReports | crates/increparse/src/engine.rs:287-333 | from any round on: a run started on a frontier and not cut short works everything off, and its flag says exactly whether anything is pending |
| Frontier.FixpointIsSound | crates/increparse/src/engine.rs:272-334 | started where every pending node is of round 0 or has an unparsed parent one round shallower, a run that reports a fixpoint leaves nothing pending, and a run that is not cancelled reports one exactly when nothing is pending |
| Frontier.RunWorksEverythingOff | crates/increparse/src/engine.rs:287-333 | started on a frontier of the workable nodes, a run that is not cancelled leaves no pass below the cap any work |
| Frontier.CompleteIsNotCancelled | crates/increparse/src/engine.rs:288-292 | a run with a complete executor and a token that never fires is never reported as cancelled |
| Frontier.EditedSettledTreeIsFront | crates/increparse/src/tree.rs:223-238 | a tree with nothing pending, whose children's homes are one past their parents', is a frontier again after any edit |
| Frontier.EditKeepsReset | crates/increparse/src/tree.rs:226-237 | an edit resets a node only together with its parent |
| Frontier.RoundZeroIsTheRoot | crates/increparse/src/engine.rs:294-299 | round 0 has a job exactly when the root is unparsed |
| Frontier.ParsedRootStopsTheRun | crates/increparse/src/engine.rs:294-299 | with a root that is not unparsed a call returns the same tree and reports a fixpoint, pending nodes or not |
| Frontier.RunTakesUpWorkIffRootUnparsed | crates/increparse/src/engine.rs:253-299 | a call that is not cancelled processes a node exactly when the root is unparsed |
| Frontier.FirstJobIsTheRoot | crates/increparse/src/engine.rs:294-303 | the first attempt of every run is on the root |
| Frontier.RunLeavesRootUnparsedIff | crates/increparse/src/engine.rs:287-333 | a run, cut short or not, leaves the root unparsed exactly when it found it so and processed nothing |
| Frontier.NextCallResumesIff | crates/increparse/src/engine.rs:256-260 | of two calls on a tree with an unparsed root, the second, with any engine and not cancelled, takes up work exactly when the first did none; a run cancelled after it merged anything is not resumed: the next call returns the same tree and reports a fixpoint |
| Frontier.FlagIsTruthfulIffFront | crates/increparse/src/engine.rs:294-299 | for a root that is not unparsed that report is true exactly on a frontier |
| Necessity.TruthfulForAllPassesIffFront | crates/increparse/src/engine.rs:29-29 | on a tree whose siblings differ in span or context, the fixpoint flag is truthful for all passes, texts, executors and cancellations exactly when the tree is a frontier, or there are no rounds |
| Necessity.OffTheFrontTheFlagLies | crates/increparse/src/engine.rs:294-299 | for every pending node off the frontier there are passes whose uncancelled run reports a fixpoint with a node pending |
| Histories.EventKeepsConsistent | crates/increparse/src/session.rs:215-237 | every edit and every run of any engine keeps the invariant and a root over the whole text, and only edits bump the revision, by one |
| Histories.AnyRootStaysConsistent | crates/increparse/src/session.rs:180-238 | the arena invariant holds in every state reachable from a new tree with any root span by edits and possibly cancelled runs of any engines |
| Histories.ReachableIsConsistent | crates/increparse/src/session.rs:193-238 | if the root was opened over the whole text it also covers the whole current text in all these states |
| Histories.ReachableIsSound | crates/increparse/src/session.rs:180-238 | with slice-local passes no state reachable under one engine has a stale node |
| Histories.ReachableIsLevelled | crates/increparse/src/session.rs:180-238 | under a levelled schedule, in every reachable state, each node's home is its context's level and one past its parent's home |
| Histories.IncrementalIsScratchIffAligned | crates/increparse/src/session.rs:121-132 | after any history of edits and possibly cancelled runs, once no pass below the cap has work, the live tree is the parse from nothing of the current text if and only if it is aligned |
| Histories.LevelledIncrementalIsScratch | crates/increparse/src/session.rs:121-132 | for a levelled schedule it then always is |
| Histories.EditAndRerunIsScratch | crates/increparse/src/session.rs:121-132 | for a levelled schedule, after any history of edits and runs that are not cut short, whenever the last event is a run, the tree is the parse of the current text |
| Histories.FreshRunIsScratch | crates/increparse/src/engine.rs:272-334 | one run on a new document computes the recursive parse, for any passes and any schedule, and its flag says whether anything is pending |
| Histories.HopelessTextIsTriedByAll | crates/increparse/src/engine.rs:248-251 | a text that every pass gives up on is tried in as many rounds as the cap says or, without a cap, as there are passes |
| Histories.IncrementalIsFreshRunIffAligned | crates/increparse/src/session.rs:121-132 | after any history of edits and possibly cancelled runs of one engine, for any schedule, once no pass below the cap has work, the tree is the one that a fresh run on the current text leaves if and only if it is aligned |
| Histories.LevelledIncrementalIsFreshRun | crates/increparse/src/session.rs:121-132 | for a levelled schedule, after any history of edits and possibly cancelled runs, once no pass below the cap has work, the tree is the one that a fresh run on the current text leaves |
| Histories.EditAndRerunIsFreshRun | crates/increparse/src/session.rs:121-132 | after any history of edits and runs that are not cut short, whenever the last event is a run, the tree is the one that a fresh run on the current text leaves |
| Histories.ReachableIsShrunk | crates/increparse/src/engine.rs:96-106 | if all runs enforce shrinking, whatever their engines, children of expanded nodes are strictly shorter in every reachable state |
| Histories.ReachablePathsAreShort | crates/increparse/src/engine.rs:96-106 | in such a state with nothing unparsed no node has more proper ancestors than the text has bytes |
| Sessions.Session.constructor | crates/increparse/src/session.rs:187-191 | a new session owns a new tree of one unparsed root |
| Sessions.Session.Edit | crates/increparse/src/session.rs:215-219 | the session's tree becomes the edited tree of the next revision |
| Sessions.Session.Run | crates/increparse/src/session.rs:221-237 | the session's tree and the report are those of the specified run, and the revision stays |
| Strings.FloorIndex | crates/increparse-lsp/src/line_index.rs:110-113 | the number of characters that end at or before a byte offset |
| Strings.FloorIsLargestBoundary | crates/increparse-lsp/src/line_index.rs:110-113 | rounding down gives a character boundary not above the offset, and no boundary lies between |
| Strings.CharBoundaryIsBoundary | crates/increparse-lsp/src/line_index.rs:111-111 | the byte-level boundary test holds exactly at the offsets where characters of the text begin or end |
| Strings.NewlineIsAChar | crates/increparse-lsp/src/line_index.rs:41-45 | a newline byte is never part of another character, so counting bytes finds exactly the line ends |
| Strings.DecodeBytes | crates/increparse-lsp/src/document.rs:216-216 | reading the bytes handed to the passes as UTF-8 (RFC 3629, section 3: leading byte, payload bits) gives the document's text again, so the bytes determine the text |
| Strings.OnlyBytesDecode | crates/increparse-lsp/src/document.rs:216-216 | and no other bytes are read as that text |
| Strings.ReplaceRangeSplices | crates/increparse-lsp/src/document.rs:208-210 | replacing characters between two boundaries is, on the bytes, the splice that the edit announces |
| Encodings.UnitsAreAtMostBytes | crates/increparse-lsp/src/encoding.rs:56-62 | no encoding needs more code units than there are bytes, and UTF-8 needs as many |
| Encodings.UnitsCountCodeUnits | crates/increparse-lsp/src/encoding.rs:55-62 | in every encoding the units of a text are the number of its code units |
| Encodings.DecodeUtf16Units | crates/increparse-lsp/src/encoding.rs:13-19 | the UTF-16 code units so counted, surrogate pairs included, are read back (RFC 2781, section 2.2) as the text |
| Encodings.PlainUnits | crates/increparse-lsp/src/encoding.rs:13-19 | the UTF-32 units are the characters, the UTF-8 units the bytes |
| Encodings.CharAtUnits | crates/increparse-lsp/src/encoding.rs:75-85 | the first character in front of which at least the wanted units lie: fewer lie in front of every earlier one |
| Encodings.FindOffsetOfUnits | crates/increparse-lsp/src/encoding.rs:71-87 | the loop finds the offset that `OffsetCounts` describes, and its 32-bit sum never wraps |
| Encodings.OffsetOfUnitsInverts | crates/increparse-lsp/src/encoding.rs:56-87 | counting the units of a prefix and finding their offset gives the prefix's length again, in every encoding |
| Encodings.OffsetOfUnitsIsMonotone | crates/increparse-lsp/src/encoding.rs:71-87 | more units never mean a smaller offset, and no offset passes the end |
| Encodings.OffsetOfUnitsGrowsIffSeparated | crates/increparse-lsp/src/encoding.rs:71-87 | two columns mean different offsets exactly when a character begins at or after the one and before the other; in UTF-8 a byte of the text is enough |
| Encodings.OffsetOfUnitsIsBoundary | crates/increparse-lsp/src/encoding.rs:64-87 | in UTF-16 and UTF-32 the offset is a character boundary |
| LineIndexes.NewIndex | crates/increparse-lsp/src/line_index.rs:39-50 | the loop builds the table that `StartsAreLineStarts` describes |
| LineIndexes.StartsAreLineStarts | crates/increparse-lsp/src/line_index.rs:39-50 | the table begins at 0, is strictly increasing, and otherwise lists exactly the offsets just past a newline |
| LineIndexes.LineBounds | crates/increparse-lsp/src/line_index.rs:57-76 | every line lies in the text between character boundaries; the next line starts one newline later, and the last line ends at the end of the text |
| LineIndexes.PartitionPoint | crates/increparse-lsp/src/line_index.rs:105-108 | it splits the starts: the one before it is at or before the offset, the one at it is past it |
| LineIndexes.Offset | crates/increparse-lsp/src/line_index.rs:83-96 | the conversion always has an answer, namely the offset that `OffsetCounts` describes |
| LineIndexes.LineOfIsALine | crates/increparse-lsp/src/line_index.rs:104-113 | the line found for an offset exists, starts at or before it, and does not end before it |
| LineIndexes.FindPosition | crates/increparse-lsp/src/line_index.rs:103-119 | the loop backs up exactly to the boundary before the offset and gives the position that `PositionCounts` and `RoundTrip` are about |
| Coordinates.StartsCountNewlines | crates/increparse-lsp/src/line_index.rs:39-50 | a text has one line more than newlines, and the last one begins behind the last of them |
| Coordinates.LineIsBetweenNewlines | crates/increparse-lsp/src/line_index.rs:57-92 | the line of a position has as many newlines in front of it as the position says, or as there are, none in it, and a newline or an end of the text on either side |
| Coordinates.PositionCounts | crates/increparse-lsp/src/line_index.rs:98-119 | said of the text alone: the line of an offset is the number of newlines in front of the boundary at or below it, its column the number of code units since the last of them |
| Coordinates.OffsetCounts | crates/increparse-lsp/src/line_index.rs:78-96 | said of the text alone: a position means, in UTF-8, as many bytes into its line as the column says, or the line's end; otherwise the first character of the line in front of which as many code units lie, or the line's end |
| Conversions.RoundTrip | crates/increparse-lsp/src/line_index.rs:83-119 | for every text, encoding and offset, going to a position and back gives the largest character boundary not above the offset, clamped to the text |
| Conversions.PositionIgnoresRounding | crates/increparse-lsp/src/line_index.rs:100-113 | rounding an offset down to a boundary first does not change its position |
| Conversions.SecondRoundTripIsIdentity | crates/increparse-lsp/src/line_index.rs:83-119 | a position that came from an offset survives the trip to an offset and back |
| Conversions.OffsetStaysInLine | crates/increparse-lsp/src/line_index.rs:78-96 | every position means an offset within its clamped line, at the column counted in that line's text |
| Conversions.OffsetIsBoundary | crates/increparse-lsp/src/line_index.rs:83-96 | in UTF-16 and UTF-32 every position means a character boundary |
| Conversions.OffsetIsBoundaryIff | crates/increparse-lsp/src/encoding.rs:71-87 | in any encoding a position means a character boundary exactly when its column does not cut a character of its line, which only a UTF-8 column can |
| Conversions.ColumnRoundsUp | crates/increparse-lsp/src/encoding.rs:64-87 | in UTF-16 and UTF-32 the offset is the least boundary of the line whose prefix has at least the wanted units, or the line's end |
| Conversions.OffsetsFollowPositions | crates/increparse-lsp/src/line_index.rs:89-95 | once lines are clamped, offsets follow the lexicographic order of positions, in every encoding |
| Conversions.OrderFailsIff | crates/increparse-lsp/src/line_index.rs:89-95 | the offsets of two positions in lexicographic order are out of order exactly when both lines are clamped to the same one and a character of its text begins between the two columns, in every encoding |
| Conversions.OrderFailsPastTheLastLine | crates/increparse-lsp/src/line_index.rs:89-95 | a text of one line and two positions in order whose offsets are out of order |
| Documents.TargetIsInText | crates/increparse-lsp/src/document.rs:199-208 | the range a change replaces is in order and inside the text |
| Documents.WideChangesAreSpliceable | crates/increparse-lsp/src/document.rs:205-209 | in UTF-16 and UTF-32 both ends of every change are character boundaries |
| Documents.SpliceableIff | crates/increparse-lsp/src/document.rs:205-209 | a change can be applied exactly when it has no range, or its start cuts no character and neither does its end, unless that means an offset at or before the start |
| Documents.CutInsideACharacter | crates/increparse-lsp/src/document.rs:206-209 | a text of one two-byte character and a UTF-8 column in the middle of it, where the replacement panics |
| Documents.FirstStuck | crates/increparse-lsp/src/document.rs:198-214 | the first event of a batch that cannot be applied to the text left by those before it; all before it can |
| Documents.WideBatchesGoThrough | crates/increparse-lsp/src/document.rs:198-214 | in UTF-16 and UTF-32 every batch goes through |
| Documents.WholeChangeReplacesAll | crates/increparse-lsp/src/document.rs:200-203 | an event without a range leaves exactly its own text |
| Documents.RangeIsReplaced | crates/increparse-lsp/src/document.rs:205-210 | after an event with a range the bytes are those in front of its start, the new ones, and those behind its end, or behind its start if the end comes first |
| Documents.ChangeIsASplice | crates/increparse-lsp/src/document.rs:198-212 | the edit given to the tree describes exactly what happened to the bytes of the text |
| Documents.Document.Open | crates/increparse-lsp/src/document.rs:83-102 | a new document has the index of its text and a root over all of it, at revision 0 |
| Documents.Document.OffsetAt | crates/increparse-lsp/src/document.rs:170-174 | the clamped offset of the position; the fallback is never taken |
| Documents.Document.RangeOf | crates/increparse-lsp/src/document.rs:160-166 | both ends of the span as positions of the current text |
| Documents.Document.ApplyChange | crates/increparse-lsp/src/document.rs:198-214 | one event is applied exactly if it cuts no character: then the text is spliced, the tree edited by the matching edit, the index rebuilt, the history one edit longer, and the root covers exactly the text again; otherwise nothing has changed |
| Documents.Document.ApplyInOrder | crates/increparse-lsp/src/document.rs:198-214 | the loop over the events: the text is the fold of the splices up to the first event that cuts a character, or of all, and the revision has grown by one per applied event |
| Documents.Document.RunOnce | crates/increparse-lsp/src/document.rs:216-216 | the one run at the end is the specified run on the current text, and is the only thing added to the history |
| Documents.Document.ApplyChanges | crates/increparse-lsp/src/document.rs:187-217 | the text is the fold of the splices and the revision has grown by one per event; if no event cuts a character the version is the given one and the report that of one run on the edited tree; otherwise the batch ends before the first that does, without run, version or report |
| Documents.DocumentTreeIsScratch | crates/increparse-lsp/src/document.rs:176-217 | for slice-local passes on a levelled schedule and runs that are not cut short, after any batches the tree is the parse of the current text |
| Documents.DocumentSpansAreInText | crates/increparse-lsp/src/document.rs:160-166 | every live span lies in the document's text and carries its revision |
| Diagnostics.BuildDiagnostics | crates/increparse-lsp/src/diagnostics.rs:93-106 | the hook is asked about the offered nodes, in order, with their context, status and span; the result keeps every answer, in order and with its message; a range of the hook's own is kept, and the zero range is replaced by the span's two positions, which convert back to the boundaries at or below its ends |
| Diagnostics.PublishedAnswers | crates/increparse-lsp/src/diagnostics.rs:131-136 | whatever nodes the hook is asked about, each published diagnostic is the answer to one of them, in order, and no answer is lost |
| Diagnostics.Walk | crates/increparse-lsp/src/diagnostics.rs:108-143 | the recursion offers the hook exactly the nodes that `DefaultOffersTopmost` and `CascadesOfferAllFailures` describe, and only appends |
| Diagnostics.Consult | crates/increparse-lsp/src/diagnostics.rs:123-136 | the hook is called once, on this node, and its answer is published with a range |
| Diagnostics.PublishedAppend | crates/increparse-lsp/src/diagnostics.rs:123-142 | publishing two stretches of calls one after the other, with the hook's state carried over, is publishing them together |
| OfferedNodes.PreOrderHolds | crates/increparse-lsp/src/diagnostics.rs:139-142 | pre-order from a node visits exactly the live nodes below it |
| OfferedNodes.PreOrderIsDistinct | crates/increparse-lsp/src/diagnostics.rs:139-142 | and none of them twice |
| OfferedNodes.CascadesOfferAllFailures | crates/increparse-lsp/src/diagnostics.rs:25-29 | with cascades the walk offers exactly the failing nodes, in pre-order |
| OfferedNodes.DefaultOffersTopmost | crates/increparse-lsp/src/diagnostics.rs:25-29 | by default it offers exactly the failing nodes with no failing proper ancestor, in pre-order |
| OfferedNodes.OfferedIsDistinct | crates/increparse-lsp/src/diagnostics.rs:25-29 | with cascades or without, no node is offered twice |
| OfferedNodes.NothingOfferedIffAllFine | crates/increparse-lsp/src/diagnostics.rs:119-123 | with cascades or without, nothing is offered exactly when every live node is done or expanded |
| OfferedNodes.FailureIsReported | crates/increparse-lsp/src/diagnostics.rs:25-29 | every live failing node has an offered ancestor, or is offered itself |
| OfferedNodes.FailureIsReportedOnce | crates/increparse-lsp/src/diagnostics.rs:25-29 | and only one |
| Witness.UnlevelledScheduleBreaksAgreement | crates/increparse/src/engine.rs:294-299 | slice-local passes, one edit, no cancellation: the last run reports a fixpoint with a node pending, and the tree, though quiet, is not the parse from nothing |
| Witness.CancelledRunIsNotResumed | crates/increparse/src/engine.rs:256-260 | a concrete run, cancelled before its second round, that leaves a pending node; the next call leaves it pending and reports a fixpoint |

## Left out

- `server.rs`, `simple.rs`, the `serve` loop and the example servers: JSON-RPC and hook dispatch.
- `crates/increparse-lua`: values and calls of a foreign interpreter. Contexts are compared with structural equality here.
- The nom and chumsky adapters, and the concrete MiniLang and INI passes: passes are arbitrary functions here.
- Threads, the rayon pool and the atomic cancellation token: replaced by an arbitrary answer to each poll.
- The pass trait's tuple macros and builders, `Display`, encoding negotiation, status counts, document URIs and language ids: presentational.
- Overflow of `usize` and `u64`; text of `2^32 - 1` bytes or more, for the members that require `Fits`.
- Reports carry no pass names, and diagnostics only a range and a message.
- The arena is a sequence that methods reassign, one node at a time, instead of a vector updated in place.
- Frontier.FixpointIsSound: one direction only, for any one engine; the passes decide what happens off the frontier. `Necessity.TruthfulForAllPassesIffFront` is exact for all passes together.
- Frontier.FlagIsTruthfulIffFront: only for a root that is not unparsed, where the passes play no part.
- Necessity.TruthfulForAllPassesIffFront: needs siblings that differ in span or context, since a pass cannot keep one of two equal children; and it speaks of all pure passes, not of slice-local ones alone.
- Histories.LevelledIncrementalIsScratch: for levelled schedules; `IncrementalIsScratchIffAligned` is exact for all.
- Histories.LevelledIncrementalIsFreshRun: for levelled schedules; `IncrementalIsFreshRunIffAligned` is exact for all.
- Histories.EditAndRerunIsScratch: for levelled schedules and runs that are not cut short; on other schedules a run may end with work left, as `Witness` shows.
- Histories.EditAndRerunIsFreshRun: the same.
- Histories.ReachableIsSound: for histories driven by one engine; another schedule may leave nodes that this one would have parsed otherwise.
- Documents.DocumentTreeIsScratch: for levelled schedules, one engine and runs that are not cut short, like the theorem it lifts.
- Documents.ChangeIsASplice: for changes that can be applied; there is no new text otherwise.
- Queries.DeepestIsUnique: needs disjoint siblings. An insertion at a shared boundary makes siblings overlap, and the first of them wins.
- Documents.Document.ApplyChanges: the version is any integer, not a 32-bit one, and no text of the batch may outgrow `Fits`.
