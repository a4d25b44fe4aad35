# Norte: the comparison engine and four protocols, modelled and proved

Norte is a two-pane file manager with a daemon. This project models its directory comparison
engine (`norte-compare`) and four small stateful components around it, and proves what they
promise for every input, every run and every interleaving.

The engine takes two directory trees, each behind a provider, and produces a stream of verdict
rows. One visit lists both sides of a directory pair, indexes the names by a folding key, sets
the collisions apart, merge-joins what is left, hydrates the pairs twelve at a time, emits the
rows in key order under consecutive ids, and pushes the directories to descend into on an
explicit stack. A cancellation token may end it between any two steps.

How the files build on each other:

- `Proto`, `Vfs`, `ByteOrder`: paths, entries, rows; providers and the token; the order of keys.
- `Key`: what pairs, what collides and why. `Cascade`: the decision ladder. `Hash`: the digest loop.
- `Pair`, `PairTheorems`, `Published`: one paired match, its hydration on demand, its verdict, and its row as a client reads it.
- `Listing`, `Visit`, `Join`, `Descent`: one directory. `Visit` says as values what a visit means;
  `Join` holds the merge-join and the concurrent hydration; `Descent` says exactly where it descends.
- `Traversal`, `Frames`: walks over any tree, stack against recursion, which frames are visited and how the walk came to
  them, with no mention of directories.
- `Walk`: the stateful walk, proved against `Visit` and `Traversal`.
- `Bounds`, `Classification`, `ListingOrder`, `Containment`, `Mirror`, `MirrorRuns`, `Extension`, `Directories`, `Orphans`,
  `OrphanRuns`, `Truth`, `PublishedRuns`, `Endless`: the theorems over every directory and over whole runs.
- `LogRing`, `Rpc`, `LineStream`, `LineTheorems`, `LineExact`, `Sigint`: the other components.

A provider is a bundle of functions of the path about which nothing is assumed: it may fail, lie
about paths, list without end. The token fires by an arbitrary schedule over the engine's looks at it, which the engine
cannot influence. Name folding, SHA-256, UTF-8 validity and the line parser are
parameters about which nothing is assumed either.

Three statements turn out not to hold as written; the model follows the code, and each has a
failing input and its exact condition:

- "The only known asymmetry is order" (walk.rs:91-94). A pair of files neither of which can be read,
  or a failed `stat` while the other side would have learned something, also depends on the direction
  (`PairTheorems.SymmetryFailsWhenBothAreUnreadable`, `PairTheorems.SymmetryFailsWhenOneStatFails`).
  `PairTheorems.PairRowMirrors` says exactly when one pair mirrors; up to order a whole run mirrors if
  and only if every visited pair does (`Mirror.SymmetryUpToOrder`), and in order if and only if, besides,
  no visited directory fails or collides on both sides (`Mirror.SymmetryInOrder`).
- The rows `descend_orphans` adds need not all lie strictly under a directory the run announces as an orphan: an
  unreadable orphan found in a directory both sides have is reported by a row that names itself
  (`OrphanRuns.LoneUnlistableOrphan`). They all do if and only if every such topmost orphan could be listed; an
  unreadable orphan nested in another still lies under that one (`OrphanRuns.AddedRowsLieUnderIff`).
- `max_depth` limits the descent, except that `u32::MAX` limits nothing, because the depth saturates: on
  two endless trees the limit is exceeded if and only if it is `u32::MAX` (`Endless.LimitIsExceeded`).

## Model

| member | source | states |
|---|---|---|
| Key.NoSilentPairing | crates/norte-compare/src/key.rs:252-285 | a pairing mark is present exactly when two byte-different names pair under some sides; the singleton mark has priority, then the weakest fold that pairs the names is the one named; the mark has no favourite side |
| Key.FoldIsSymmetric | crates/norte-compare/src/key.rs:127-133 | the stronger of the two modes does not depend on which side is which |
| Key.FoldIsTheStronger | crates/norte-compare/src/key.rs:127-133 | the mode of a pair is one of its sides' and at least as strong as either |
| Key.DeclaredFold | crates/norte-compare/src/key.rs:71-103 | two declared locations fold fully exactly when either does, and not at all exactly when both keep case |
| Key.GroupByKey | crates/norte-compare/src/key.rs:356-363 | the grouping loop files every position under its key, in listing order, and nothing else |
| Key.AllReasons | crates/norte-compare/src/key.rs:365-391 | the reason loop gives every entry the reason it would get by looking at the whole listing, in whatever order groups are taken |
| Key.GroupReasons | crates/norte-compare/src/key.rs:365-391 | inside one colliding group: normalization if another entry of the group has the same unfolded key, case fold otherwise; entries outside the group untouched |
| Key.IndexSide | crates/norte-compare/src/key.rs:356-398 | the two loops together compute the reference index of a listing |
| Key.CollidesIffHeldTwice | crates/norte-compare/src/key.rs:365-391 | an entry shares its key with another exactly when the key has two holders or more |
| Key.UniqueSpec | crates/norte-compare/src/key.rs:424-429 | the pairable entries are exactly those whose key the listing holds once, in strictly ascending key order |
| Key.GetSpec | crates/norte-compare/src/key.rs:434-439 | a lookup answers an entry exactly when that entry is the only holder of the key |
| Key.CollisionsInOrder | crates/norte-compare/src/key.rs:444-449 | the collisions are one item for each position whose key the listing holds twice or more and for no other, in listing order, each with its own reason |
| Key.CollidedKeys | crates/norte-compare/src/walk.rs:1391-1398 | the loop keeps exactly the keys of the collisions, each with the reason of the first collision that has it |
| Key.CollidedKeysSpec | crates/norte-compare/src/walk.rs:1391-1398 | a key is a collided key exactly when the listing holds it twice or more |
| ByteOrder.SortedKeys | crates/norte-compare/src/key.rs:321-330 | iterating the index visits each key once, in ascending byte order |
| ByteOrder.LessIsLexicographic | crates/norte-compare/src/key.rs:321-330 | the order of keys is the byte order: at the first position where two keys part, the smaller byte, or the end, comes first |
| Cascade.MtimeTestIsExact | crates/norte-compare/src/cascade.rs:399-464 | the saturating date test is the test over the integers, for all 64-bit dates and all tolerances |
| Cascade.DecideMirrors | crates/norte-compare/src/cascade.rs:301-332 | swapping the two entries and their facts changes the decision only in which side is newer |
| Cascade.ConfidenceIsEarned | crates/norte-compare/src/cascade.rs:301-464 | certainty about two files comes exactly from two known different sizes or a hash, `Probable` exactly from two known dates, certainty about links exactly from two known targets; a newer side is named exactly when the date decided, and truthfully |
| Cascade.VerdictIsExact | crates/norte-compare/src/cascade.rs:301-464 | type mismatch exactly for two kinds; two files differ exactly by size, by date or by hash; a hash is asked for exactly when neither cheap rung told them apart; links differ exactly by two known targets |
| Hash.FoldDigest | crates/norte-compare/src/hash.rs:70-83 | unless the token fired, the digest is that of the concatenated content, or a broken read if any chunk broke |
| Hash.Sha256Of | crates/norte-compare/src/hash.rs:50-68 | the same from the path on, including a file that does not open |
| Hash.ChunkingIsInvisible | crates/norte-compare/src/hash.rs:70-83 | splitting a chunk anywhere changes no content, so no digest |
| Hash.ConcatAppends | crates/norte-compare/src/hash.rs:70-83 | the content of a run of chunks is that of its two parts one after the other, and a break in either breaks it |
| Hash.ChunkInPlace | crates/norte-compare/src/hash.rs:70-83 | each chunk's bytes stand in the content whole, after exactly the bytes of the chunks before it |
| Hash.ContentIsExact | crates/norte-compare/src/hash.rs:50-83 | a file has a content if and only if it opens and no chunk breaks |
| Pair.Fresh.HydrateNow | crates/norte-compare/src/walk.rs:407-431 | one stat at most is ever spent on a side; it replaces size and date and keeps path, kind and attributes |
| Pair.AskBothNow | crates/norte-compare/src/walk.rs:1011-1031 | one rung asks the left, then the right, each only for a field it lacks; a failure on the left leaves the right unasked |
| Pair.HydrateRungs | crates/norte-compare/src/walk.rs:999-1065 | the two rungs in order compute the reference hydration; no stat is spent unless both entries are files |
| Pair.HashPairNow | crates/norte-compare/src/walk.rs:1114-1126 | the left is read first and blamed first; equal digests and only they mean equal |
| Pair.PairOutcome | crates/norte-compare/src/walk.rs:915-966 | the pair's row is the reference row; there is none only if the token fired |
| PairTheorems.PairRowKeepsEntries | crates/norte-compare/src/walk.rs:915-966 | a pair's row shows both listed entries, changed at most in size and date |
| PairTheorems.DemandDrivenStatsAreExact | crates/norte-compare/src/walk.rs:999-1065 | if stats succeed and contradict nothing the listing brought, the verdict is the one of the fully statted pair |
| PairTheorems.OnlyFilesAreStatted | crates/norte-compare/src/walk.rs:999-1065 | a pair's row is the same whatever the providers' stats would answer if and only if no rung that runs lacks a field; so never for a pair that is not two files |
| PairTheorems.PublishedConfidenceIsTruthful | crates/norte-compare/src/walk.rs:1069-1126 | of one pair, as decided: with true sizes and contents, certain difference means different bytes, equality by hash means equal digests of the whole contents, certain equality is always by hash |
| PairTheorems.PairRowIsFinal | crates/norte-compare/src/walk.rs:1089-1105 | no row is published on a decision that still asks for a hash |
| PairTheorems.RowOfMirrors | crates/norte-compare/src/walk.rs:513-531 | mirroring a row before or after it gets its id is the same, pairing mark included |
| PairTheorems.RowOfInjective | crates/norte-compare/src/walk.rs:513-531 | two final rows published alike under one id are the same row |
| PairTheorems.HydrateMirrors | crates/norte-compare/src/walk.rs:999-1065 | hydrating the swapped pair gives the mirrored hydration if and only if no rung must ask both sides while one fails and the other would learn something |
| PairTheorems.RowForMirrors | crates/norte-compare/src/walk.rs:1069-1126 | judging the swapped hydrated pair gives the mirrored row if and only if the hash rung does not find both files unreadable |
| PairTheorems.PairRowMirrors | crates/norte-compare/src/walk.rs:160-165 | one pair has no favourite side if and only if both of the above conditions hold |
| PairTheorems.NoFailureMirrors | crates/norte-compare/src/walk.rs:160-165 | two files that both stat and of which one reads always mirror, and so does every other pair of kinds |
| PairTheorems.SymmetryFailsWhenBothAreUnreadable | crates/norte-compare/src/walk.rs:1114-1126 | a pair neither of whose files opens: each direction blames its own left |
| PairTheorems.SymmetryFailsWhenOneStatFails | crates/norte-compare/src/walk.rs:1011-1031 | two files without a size of which only one can be statted: one direction shows the size it learned, the other never asked |
| Published.TransformIsMark | crates/norte-compare/src/key.rs:252-285 | which mark two names get, by whether their keys agree unfolded, simply folded or fully folded, and by singletons |
| Published.HydrateIsExact | crates/norte-compare/src/walk.rs:999-1065 | which stat is the first to fail, if any, and otherwise which side was asked and what its stat replaced, said of the listed entries and the providers' answers |
| Published.RowForSays | crates/norte-compare/src/walk.rs:1069-1126 | verdict, criterion, confidence and newer side of the published row of two entries, read off their fields, link targets and contents |
| Published.PairIsPublished | crates/norte-compare/src/walk.rs:915-966 | the published row of every pair is exactly the first failed stat, or what the two entries, asked what had to be, make it |
| Listing.IsDirectChild | crates/norte-compare/src/walk.rs:1369-1383 | walking the two segment lists together decides exactly "same scheme and authority, one segment more, same beginning" |
| Listing.ListAllNow | crates/norte-compare/src/walk.rs:1313-1358 | the loop ends within the cap even on an endless listing, and computes the reference listing: entries that are direct children, or why it does not count |
| Listing.ListVisibleNow | crates/norte-compare/src/walk.rs:594-604 | the same minus everything under an excluded subtree; a missing side lists nothing |
| Listing.ListAllIsExact | crates/norte-compare/src/walk.rs:1313-1358 | a listing counts as these entries if and only if the stream is exactly them, all direct children, within the cap, and then ends; too large exactly when one direct child more than the cap comes; unreadable in every other case |
| Listing.VisibleIsExact | crates/norte-compare/src/walk.rs:594-604 | a visit sees exactly the listed entries that no excluded path covers, segment by segment, in listing order, and fails as the listing fails |
| Visit.MergeKeepsBothSides | crates/norte-compare/src/walk.rs:776-858 | the merge-join loses and invents nothing: each side comes out whole and in order |
| Visit.MergePlaces | crates/norte-compare/src/walk.rs:776-858 | an item pairs only keys both sides hold, and is one-sided only for keys the other side's pairable entries lack |
| Visit.NoFrameWithoutRow | crates/norte-compare/src/walk.rs:776-858 | a visit that descends has at least as many rows to deliver |
| Descent.ItemsAscend | crates/norte-compare/src/walk.rs:82-89 | after the collisions, the rows of a directory come in strictly ascending key order |
| Descent.ItemsAreExact | crates/norte-compare/src/walk.rs:776-858 | the merge-join yields an item if and only if the two listings hold its key as the item says |
| Descent.DescendsExactly | crates/norte-compare/src/walk.rs:1134-1180 | a visit descends into a frame if and only if both listings succeeded, the depth limit allows it, and it is two directories whose key each side holds once or a directory of the named side whose key the other side does not hold |
| Join.MergeJoin | crates/norte-compare/src/walk.rs:776-858 | the two-pointer loop computes the reference merge, its pairs and its frames, and gives up only if the token fired |
| Join.JoinedSpec | crates/norte-compare/src/walk.rs:534-548 | each step stands for its item: a ready row, or an index that names exactly that item's pair; no slot is named twice |
| Join.HydrateAll | crates/norte-compare/src/walk.rs:705-743 | for every completion order a twelve-wide window allows, each slot ends up with its own pair's row unless the token fired |
| Walk.Walk.Emit | crates/norte-compare/src/walk.rs:745-754 | rows come out in merge order under consecutive ids; each slot is emptied when taken, and none taken is empty |
| Walk.Walk.PushFrames | crates/norte-compare/src/walk.rs:756-760 | frames go on the stack in reverse |
| Walk.Walk.VisitPaired | crates/norte-compare/src/walk.rs:676-760 | unless the token cut it short, indexing, joining, hydrating and emitting add exactly the directory's reference rows and frames |
| Walk.Walk.Visit | crates/norte-compare/src/walk.rs:626-761 | the same of a whole visit, including its error rows; a visit cut short leaves the rest of the stack as it was |
| Walk.Walk.Step | crates/norte-compare/src/walk.rs:553-578 | every poll returns: the next row, one `Cancelled`, or the end; a stream that has not ended answers `Cancelled` if and only if the token has fired, whatever rows are waiting; after the end only the end |
| Walk.VisitMade | crates/norte-compare/src/walk.rs:553-578 | a completed visit advances agenda and numbered rows by exactly one visit |
| Walk.Compare | crates/norte-compare/src/walk.rs:153-220 | an excluded root yields nothing; otherwise, over any two trees, the items are rows 1, 2, 3, ... of the walk and at most one `Cancelled`, last and only if the token fired; a token fired beforehand leaves `Cancelled` alone, one fired meanwhile ends the stream; on finite trees, asked often enough, the items are all rows of the recursive walk, or a prefix and `Cancelled`, and then the end |
| Walk.Poll | crates/norte-compare/src/walk.rs:553-578 | the same from any root frame, for any number of polls; fewer items than polls means the stream has ended, with nothing left to walk unless the token fired |
| Walk.RowsReachPreorder | crates/norte-compare/src/walk.rs:553-578 | what the stack has emitted is always a prefix of the recursive walk's rows, and all of them when it is empty |
| Walk.VisitsAreBounded | crates/norte-compare/src/walk.rs:1176-1180 | a walk under a depth limit, in any reachable state, has made at most the sum of cap^i, i up to the limit, visits |
| Traversal.StackRefinesRecursion | crates/norte-compare/src/walk.rs:553-578 | on every finite tree the stack is empty after exactly as many visits as there are directories, having emitted the pre-order rows |
| Traversal.MatchesEverywhere | crates/norte-compare/src/walk.rs:82-94 | two walks of the same shape match row by row if and only if they match in every directory visited |
| Bounds.LimitIsKept | crates/norte-compare/src/walk.rs:1176-1180 | the guard of the descent keeps a limit at every depth if and only if the limit is below `u32::MAX` |
| Endless.OneLevelPerVisit | crates/norte-compare/src/walk.rs:553-578 | on two endless trees an unlimited walk is exactly one level deeper after each visit |
| Endless.LimitIsExceeded | crates/norte-compare/src/walk.rs:1176-1180 | on two endless trees some run reaches a directory deeper than the limit if and only if the limit is `u32::MAX` |
| Bounds.FanOut | crates/norte-compare/src/walk.rs:842-851 | a visit descends into no more directories than one capped listing holds |
| Bounds.DepthLimitBoundsTheWalk | crates/norte-compare/src/walk.rs:1134-1180 | under a limit the walk ends whatever the providers answer, within the sum of cap^i visits, having emitted the recursive walk |
| Classification.EveryEntryInExactlyOneRow | crates/norte-compare/src/walk.rs:676-703 | as multisets, the entries shown by a directory's rows are exactly its visible entries, on each side |
| Classification.EveryRowIsClassified | crates/norte-compare/src/walk.rs:860-905 | every row is about one key and pairs, is left only, right only or ambiguous exactly as the number of holders on each side says |
| Classification.VisitConservesEntries | crates/norte-compare/src/walk.rs:626-761 | conservation for a visit whose listings both succeed |
| Directories.NoDirectoryTwice | crates/norte-compare/src/walk.rs:553-578 | over a whole run no two visits are of directories with the same path on one side, whatever the providers answer |
| Directories.RunShowsListed | crates/norte-compare/src/walk.rs:626-761 | as multisets, the paths a run shows on one side are exactly those its visited directories list, failed listings aside |
| Directories.ShownAsOftenAsListed | crates/norte-compare/src/walk.rs:626-761 | over a whole run a path is shown exactly as often as the one directory that holds it lists it |
| Directories.NoPathShownTwice | crates/norte-compare/src/walk.rs:626-761 | no path is shown twice on one side, failed listings aside, if and only if no visited directory lists a path twice |
| Classification.NoSilentPairingInRows | crates/norte-compare/src/cascade.rs:221-240 | a published pair carries a mark exactly when its two names differ in bytes; a one-sided row never does |
| ListingOrder.CollisionsPermute | crates/norte-compare/src/key.rs:365-391 | permuting a listing permutes its collisions, reasons included: a reason depends only on how often the key, folded and unfolded, occurs |
| ListingOrder.ListingOrderIsInvisible | crates/norte-compare/src/walk.rs:676-703 | permuting the listings changes neither items nor frames, and permutes the directory's rows, collision rows included, but for the reason on a collision's counterpart |
| Containment.KidsInside | crates/norte-compare/src/walk.rs:594-604 | a frame exactly `depth` segments below its roots leads only to frames one deeper, outside every excluded subtree and within the limit |
| Containment.RowsInside | crates/norte-compare/src/walk.rs:1369-1383 | its rows name only entries at its level or one below, outside every excluded subtree |
| Containment.EveryRunStaysInside | crates/norte-compare/src/walk.rs:184-199 | both hold after any number of visits, whatever the providers answer |
| Containment.WalkStaysInside | crates/norte-compare/src/walk.rs:448-475 | both hold of the delivered rows, the queued rows and the whole stack of the walk in every reachable state, cancelled or not |
| Mirror.MergeMirrors | crates/norte-compare/src/walk.rs:776-858 | merging the other way round gives the mirrored items in the same order |
| Mirror.VisitFramesMirror | crates/norte-compare/src/walk.rs:160-165 | a visit the other way round, with the orphan side swapped too, descends into exactly the swapped frames |
| Mirror.VisitRowsMirror | crates/norte-compare/src/walk.rs:82-94 | its rows are the mirrored ones in order if and only if the directory fails on at most one side, collides on at most one side and its pairs mirror; up to order, if and only if its pairs mirror |
| Mirror.OnePairPerPaths | crates/norte-compare/src/walk.rs:626-703 | whichever frames show a pair of two given paths, it is the same two entries |
| Mirror.MirrorImageAppears | crates/norte-compare/src/walk.rs:160-165 | the mirror image of a pair's row appears anywhere in the other direction only if that pair mirrors |
| Mirror.RowsAreFinal | crates/norte-compare/src/walk.rs:1089-1105 | no row of any walk is provisional |
| Mirror.SymmetryInOrder | crates/norte-compare/src/walk.rs:82-94 | the published rows of the swapped comparison are the mirrored rows with the same ids if and only if every visited directory mirrors |
| Mirror.SymmetryUpToOrder | crates/norte-compare/src/walk.rs:91-94 | up to order and ids, the rows of a run mirror if and only if every visited pair does |
| Mirror.SymmetryWithoutFailures | crates/norte-compare/src/walk.rs:160-165 | so they do if, in the directories visited, no stat of a paired file fails and no two paired files are both unreadable |
| MirrorRuns.SymmetryOfRuns | crates/norte-compare/src/walk.rs:82-94 | after any number of visits, on endless trees too, the published rows so far mirror with the same ids if and only if every directory visited so far does |
| MirrorRuns.SymmetryOfRunsUpToOrder | crates/norte-compare/src/walk.rs:91-94 | the same up to order and ids, if and only if every pair of the directories visited so far mirrors |
| Extension.OnlyAdds | crates/norte-compare/src/walk.rs:811-833 | a walk that descends into more frames, deleted of their rows, is the smaller walk in its own order |
| Orphans.DescendOrphansOnlyAdds | crates/norte-compare/src/walk.rs:1128-1173 | deleting the marked rows of the walk with `descend_orphans` gives the walk without it, in order |
| Orphans.AddedRowsLieUnderOrphans | crates/norte-compare/src/walk.rs:1128-1173 | each marked row belongs to a directory some row of the same walk announces as existing on the named side only, shows nothing of the other side, and lies strictly under that directory if and only if it could be listed |
| Orphans.OrphanRows | crates/norte-compare/src/walk.rs:1292-1301 | an orphan's rows lie strictly under it if and only if it could be listed; otherwise the row is the orphan's own error |
| Orphans.UnreadableOrphanNamesItself | crates/norte-compare/src/walk.rs:650-662 | the concrete case: an orphan that cannot be listed yields one row, naming itself |
| OrphanRuns.NoOrphanAbove | crates/norte-compare/src/walk.rs:776-858 | nothing above an orphan found in a directory both sides have is announced as an orphan by any row of the run |
| OrphanRuns.AddedRowsLieUnderIff | crates/norte-compare/src/walk.rs:1128-1173 | every added row of a run lies strictly under a directory the same run announces on the named side, if and only if every visited orphan found in a directory both sides have could be listed |
| OrphanRuns.LoneUnlistableOrphan | crates/norte-compare/src/walk.rs:650-662 | a run where it fails: a root holding one directory that cannot be listed |
| Truth.EveryRunIsTruthful | crates/norte-compare/src/walk.rs:1069-1126 | truthfulness and finality of every row decided in any run, endless ones included; `PublishedRuns.EveryPublishedRowIsTrue` says it of the rows as published |
| Truth.EveryRowIsWellFormed | crates/norte-proto/src/methods.rs:5878-5917 | every row of every run meets the wire's rules on sides and reasons and shows at least one entry |
| PublishedRuns.ModeIsFold | crates/norte-compare/src/walk.rs:615-624 | how names fold in a directory, by what its two locations declare or, if one does not, what the caller said |
| PublishedRuns.CollidedReason | crates/norte-compare/src/walk.rs:1385-1398 | the reason kept for a collided key is that of the first listed entry with it |
| PublishedRuns.VisitFits | crates/norte-compare/src/walk.rs:626-761 | every published row of a visit, field by field, by how many listed names have its key on each side: a pair, only here, ambiguous here, ambiguous there, or a failed listing |
| PublishedRuns.RowsAreInOrder | crates/norte-compare/src/walk.rs:82-89 | the left's colliding entries in listing order, then the right's, then strictly ascending byte order of keys |
| PublishedRuns.FailedRowsInOrder | crates/norte-compare/src/walk.rs:640-662 | one row per side that failed, the left's first |
| PublishedRuns.EveryPublishedRowFits | crates/norte-compare/src/walk.rs:553-578 | over any number of visits the i-th published row has id i + 1 and is exactly what some directory's entries make it |
| PublishedRuns.DeliveredRowsFit | crates/norte-compare/src/walk.rs:553-578 | the same of the rows a walk has delivered, in every reachable state |
| PublishedRuns.EveryPublishedRowIsTrue | crates/norte-compare/src/cascade.rs:221-240 | with true sizes and contents: a published certain difference means different bytes, equality by hash equal digests, a newer side a date later by more than the tolerance, and two known different sizes are published as different |
| LogRing.TailOf | crates/norte-config/src/logring.rs:354-384 | the lines up to `next`, at most `max` of them and fewer only if that is all; lost is exactly what fell off between the cursor and the ring; a cursor from the future gets nothing and loses nothing |
| LogRing.LogRing.Push | crates/norte-config/src/logring.rs:401-413 | the history grows by the line, and one line is dropped exactly when the ring was full |
| LogRing.LogRing.Since | crates/norte-config/src/logring.rs:354-384 | the ring answers what the whole unbounded history would |
| LogRing.LogRing.Snapshot | crates/norte-config/src/logring.rs:307-310 | the copy is the last lines of the history, as many as the cap allows |
| LogRing.LogRing.Length | crates/norte-config/src/logring.rs:192-209 | the ring holds exactly `pushed - dropped` lines, the end of the history, as many as the cap allows |
| LogRing.RingRefinesHistory | crates/norte-config/src/logring.rs:354-413 | over every interleaving of pushes and polls the delivered lines are an in-order, duplicate-free part of the history, and delivered plus lost is the cursor's advance |
| LogRing.LostOnlyIfDropped | crates/norte-config/src/logring.rs:354-384 | a poll loses lines exactly when the cursor had fallen behind what the ring still holds |
| LogRing.CatchesUp | crates/norte-config/src/logring.rs:354-384 | a poll brings the cursor to the end if and only if it asks for at least the lines still there for it |
| LogRing.KeepsUp | crates/norte-config/src/logring.rs:354-384 | a client that polls in time and asks for enough is delivered exactly the lines pushed since, and loses none |
| LogRing.Drive | crates/norte-config/src/logring.rs:354-413 | a session over the real ring is the session over its history |
| Rpc.ActionKeeps | crates/norte-client/src/rpc.rs:178-215 | every atomic action of callers and reader keeps the invariant: the table is sound, nobody waiting is forgotten, nobody registers late, answers match ids |
| Rpc.EveryRunKeepsInv | crates/norte-client/src/rpc.rs:325-357 | it holds after every interleaving |
| Rpc.NoCallerHangs | crates/norte-client/src/rpc.rs:207-215 | once the flag is set and the table cleared, no call past its check is registered, every waiting call can be woken, every unfinished call can move by itself |
| Rpc.FourMovesAtMost | crates/norte-client/src/rpc.rs:325-357 | over every run, a call's own moves and those it has left never exceed four |
| Rpc.ClosedMeansClosed | crates/norte-client/src/rpc.rs:341-347 | over every run, a call that looks at the flag after the reader set it is leaving, or done with the connection closed |
| Rpc.NeverPastTheCheck | crates/norte-client/src/rpc.rs:339-356 | at every moment of the run after that look: it has neither sent nor waits |
| Rpc.ResponsesMatchIds | crates/norte-client/src/rpc.rs:184-192 | whatever answered a call was read from the wire under its id |
| Rpc.IdsAreUnique | crates/norte-client/src/rpc.rs:325-326 | among at most 2^64 calls no two share an id |
| Rpc.ResolvedAtMostOnce | crates/norte-client/src/rpc.rs:184-192 | a settled channel never changes, and one response settles at most the one call registered under its id |
| Rpc.ResponseReachesItsCall | crates/norte-client/src/rpc.rs:184-192 | over every run, whoever is registered under a response's id when the reader takes it is sent exactly that message and is registered no more, and nobody else notices |
| Rpc.UnknownIdIsIgnored | crates/norte-client/src/rpc.rs:184-192 | a response under an id nobody is registered with resolves nobody |
| Rpc.ReceivesWhatWasSent | crates/norte-client/src/rpc.rs:356-357 | however much later the call receives, it is answered with the message it was sent |
| Rpc.CallIsAnswered | crates/norte-client/src/rpc.rs:325-357 | over every run, a call that starts while the connection is up, is sent and is responded to ends answered with that response and leaves the table |
| Rpc.OtherEnds | crates/norte-client/src/rpc.rs:341-357 | dropped by its caller, not encodable, its sender dropped, or its frame refused: what the call ends with and what becomes of its entry |
| Rpc.EncodeErrorLeavesItsEntry | crates/norte-client/src/rpc.rs:335-348 | a run after which a finished call is still in the table |
| Rpc.Client.Register | crates/norte-client/src/rpc.rs:335-338 | the insert section refines the action and keeps the invariant |
| Rpc.Client.LookAtFlag | crates/norte-client/src/rpc.rs:339-341 | the flag check refines the action and keeps the invariant |
| Rpc.Client.TakeItselfOut | crates/norte-client/src/rpc.rs:342-347 | the call that saw the connection dead removes itself |
| Rpc.Client.MatchResponse | crates/norte-client/src/rpc.rs:184-192 | the reader takes out exactly the waiter of the response's id |
| Rpc.Client.RaiseFlag | crates/norte-client/src/rpc.rs:207-210 | the flag comes first |
| Rpc.Client.ClearTable | crates/norte-client/src/rpc.rs:211-214 | then every sender in the table is dropped |
| Rpc.Client.HandOver | crates/norte-client/src/rpc.rs:349-355 | handing the frame over refines the action, whether or not the writer is gone |
| Rpc.Client.WakeUp | crates/norte-client/src/rpc.rs:356-357 | the wait ends with the message sent, or as closed when the sender was dropped |
| Rpc.Client.SendToWaiter | crates/norte-client/src/rpc.rs:189-191 | the response goes to the waiter that was taken out |
| Rpc.Drive | crates/norte-client/src/rpc.rs:178-215 | any interleaving, run on the shared fields, ends in the state it denotes, so all of the above holds of them |
| LineStream.IntoLine | crates/norte-ai/src/http.rs:193-198 | all trailing CRs are trimmed, and the line is refused exactly when the rest is not UTF-8 |
| LineStream.DrainLines | crates/norte-ai/src/http.rs:178-188 | one chunk's complete lines in order and its remainder, or nothing at all if one line is bad, or an error if the remainder outgrows the cap |
| LineStream.LineState.Next | crates/norte-ai/src/http.rs:122-172 | each poll takes the first item off the sequence of items still to come, and ends exactly when there is none |
| LineTheorems.SplitAppend | crates/norte-ai/src/http.rs:178-188 | splitting a longer buffer is splitting its front, then the remainder with what follows |
| LineTheorems.ChunkInvariance | crates/norte-ai/src/http.rs:110-172 | for every split of a body whose lines are valid and within the cap, the stream is what the whole body means, tail included |
| LineTheorems.ErrorIsLast | crates/norte-ai/src/http.rs:105-109 | over every body and every split, only the last item can be an error |
| LineTheorems.SafeMeansInsensitive | crates/norte-ai/src/http.rs:178-198 | no complete line, or all good, or the first one bad but within the cap: no split can be seen |
| LineTheorems.UnsafeMeansSensitive | crates/norte-ai/src/http.rs:178-198 | in every other case some split is visible |
| LineTheorems.InsensitiveIffCutSafely | crates/norte-ai/src/http.rs:178-198 | exactly which bodies come out the same however they are cut |
| LineExact.TrimIsExact | crates/norte-ai/src/http.rs:193-198 | trimming cuts exactly the trailing CRs |
| LineExact.SplitIsExact | crates/norte-ai/src/http.rs:178-188 | the complete lines and the remainder are the one way to write the buffer as LF-free lines, each ended by LF, and an LF-free rest |
| LineExact.FeedIsExact | crates/norte-ai/src/http.rs:122-136 | lines go to the parser in order until one stops it or fails; each delta before that comes out once, in order, nothing of a skipped line, the failure last |
| LineExact.StreamShowsTheLines | crates/norte-ai/src/http.rs:110-172 | for every split of a good body the stream is what feeding the parser its trimmed lines gives, a last line without LF included; a last line that is not UTF-8 is an error after the rest |
| LineExact.BadLineEndsIt | crates/norte-ai/src/http.rs:178-198 | a chunk with a complete line that is not UTF-8 once trimmed yields that error and none of its lines |
| LineExact.LongRemainderEndsIt | crates/norte-ai/src/http.rs:184-187 | otherwise a remainder beyond the cap yields the length error |
| LineExact.BrokenTransport | crates/norte-ai/src/http.rs:157-160 | a transport that breaks yields what the complete lines before it give, then its error, then nothing |
| Sigint.SigintState.OnSignal | crates/norte-cli/src/task.rs:94-105 | cancels the live task and forgets it, else parks for the one being born, else exits |
| Sigint.SigintState.PointAtTask | crates/norte-cli/src/task.rs:113-121 | hands the canceller back when a signal was parked, keeps it otherwise |
| Sigint.SigintState.ReleaseTask | crates/norte-cli/src/task.rs:123-127 | back to idle |
| Sigint.PendingImpliesArming | crates/norte-cli/src/task.rs:91-128 | in every run a parked signal means a task is being born |
| Sigint.ArmingMeansBeingBorn | crates/norte-cli/src/task.rs:107-109 | the flag is up exactly when an arming was not followed by a birth or a release |
| Sigint.PendingMeansParked | crates/norte-cli/src/task.rs:91-128 | the flag is up exactly when a signal was deferred and its task is still to come |
| Sigint.NoExitWhileBeingBorn | crates/norte-cli/src/task.rs:94-105 | a signal exits exactly when no task is being born and none is alive |
| Sigint.ParkedSignalCancels | crates/norte-cli/src/task.rs:113-121 | a new task is cancelled on the spot if and only if a signal was parked for it and not released |
| Sigint.HandedOutAtMostOnce | crates/norte-cli/src/task.rs:91-128 | over every run a canceller is handed out at most as often as it was introduced, and one still held has not been |
| Sigint.TargetMeansAimed | crates/norte-cli/src/task.rs:91-128 | the target is exactly the last canceller pointed at and neither handed out nor released since |
| Sigint.SignalHandsOutTheTarget | crates/norte-cli/src/task.rs:94-105 | a signal hands out exactly that canceller, and says `Cancel` exactly when there is one |
| Sigint.Drive | crates/norte-cli/src/task.rs:91-128 | any run played on the gate ends in the state, and gives the answers, the run denotes |

## Left out

- Provider answers that change over time: each call is a fixed function of the path, so a tree edited while it is walked is not modelled; reads of a file are finite.
- The interleaving inside one hydration future and between the two listings of a frame: they share nothing but the token, and each may see it fire at any of its checks.
- The width of row ids and of the `pushed` and `dropped` counters (64 bits, never decreasing) is unbounded here; request ids do wrap.
- The reason shown on the counterpart of a collision depends on the listing order and is not claimed to be stable.
- `norte_encoding` (folding, normalisation, singletons), SHA-256 and UTF-8 decoding: parameters.
- `follow_symlinks`, which the engine ignores, and the contents of entry attributes, which it only carries.
- Endless HTTP bodies, the HTTP status check and the wire formats of the AI providers.
- Fairness of the scheduler: `Rpc.NoCallerHangs` says every unfinished call can move, and `Rpc.FourMovesAtMost` how often, not that it is scheduled.
- The frame decoder, the notifications, the handshake, `Incoming::outcome` and the decoding of results of the RPC client.
- The log filter, its levels, `raise_to`, and line flattening.
- `doctor`, `help`, paths, themes, profiles, configuration merging and the command line: only easy members.
