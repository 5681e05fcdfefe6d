# Virtual context: a verified model

A Dafny model of the parts of the virtual-context engine where a wrong step is hard to see: who a
conversation id stands for, where compaction has got to after a restart, what a turn is, who may
still write, and two selection algorithms of the benchmarks.

`dafny verify dfyconfig.toml` checks the whole project.

## What is modelled

**Alias graph** (`IdOrder`, `AliasGraph`, `ReverseDependents`, `PerParent`, `FanOut`,
`AliasEviction`, `EvictionGaps`, `AliasStore`, `AliasCache`). An alias table gives each id at most one outgoing edge. A bounded walk
follows edges to a terminal id; a bounded breadth-first search over incoming edges lists what to evict
when one edge changes. The walk is classified completely, the search is proved to be the ball around
its target, and the two are joined: the list covers every walk whose outcome changes. Where the fan-out
cap cuts a search short, and where that leaves a changed walk unlisted, is read off the table. On top
of that, a worker that caches resolutions and evicts what late events name is outdated only while an event is on
its way, and exact again once all have arrived.

**Restart and watermark recovery** (`OrderedKeys`, `CanonicalRows`, `TurnGrouping`, `Watermark`,
`TurnTagIndexing`, `RestoreSpec`, `EngineRestore`, `Recovery`, `RestoredTexts`, `RestoredState`,
`HistoryWindow`). Canonical rows are
grouped into turns; the longest compacted prefix is the watermark; three restore paths replace cached
markers by derived ones; the watermark becomes an offset into a trimmed history.
`EngineRestore.Engine` follows the engine's methods field by field and each method is proved equal to a
function in `RestoreSpec`; `Recovery` proves what these functions promise, `RestoredTexts` and
`RestoredState` say it of the rows and the cached values alone: which text comes back in which role, and
what becomes of each marker.

**Workers sharing a conversation** (`TurnNumbers`, `RowChanges`, `Renumbering`,
`CompactionProtocol`, `WatermarkFalls`). Everything that other workers do to the rows: committing a
compaction, taking back that of a dead operation, putting rows in, renumbering, merging conversations,
saving rows back, removing rows. For each kind of step there is an exact condition for when it lowers
the watermark. Over every interleaving, with no condition at all, a worker is ahead of the rows only if the
watermark has been lowered since it last restarted or refreshed; and while the conditions hold, never.

**Turn identity and order** (`TurnIdentity`, `SortKeys`). Normalisation comes to "the words, joined by
single spaces", written as an independent definition. Framing is injective. Fractional sort keys stay
in order, with the exact rate at which gaps shrink, and batches divide a gap evenly, with the exact condition for when they fit.

**Generation fencing** (`Fencing`, `FencingRace`). Views of a conversation write only while they hold
its current generation, over every interleaving of opening, deleting, refreshing and writing; and what
remains of that when check and write are separate steps.

**Algorithms** (`Alignment`, `RoundRobin`, `RoundOrder`, `Backfill`). Greedy alignment is stable, maximal and at least
half of any rival alignment, and there are texts on which it is exactly half; round-robin selection is
balanced and goes round by round; backfill is complete and its rerun idle.

Where the code keeps state in loops or fields the model has methods with loops and classes; each such
method is proved equal to a specification function, or states its meaning outright, and the properties
are lemmas about that function. `Options` and `Collections` hold what several modules share.

## Where the code and its documentation differ

The model follows the code in each case.

- `compute_reverse_dependents` sorts and caps per parent, not per level as its docstring says
  (`ReverseDependents.DependentsAreOrdered`, `ReverseDependents.DependentsAreCapped`): a level need not be
  ascending (`PerParent.SecondLevelIsNotAscending`; exactly when it is: `PerParent.LevelIsAscendingIff`), and
  may be longer than the cap (`PerParent.LevelExceedsTheCap`; exactly how long it is: `FanOut.LevelCount`).
- Because of the cap, an eviction list can miss a walk that changed (`EvictionGaps.CapLeavesGap`; exactly
  when: `EvictionGaps.EvictionMissesIff`).
- A chain of exactly `max_hops` edges already raises `max_hops`; the docstring says only longer chains do
  (`AliasGraph.ExactlyMaxHopsFails`).
- Saving an alias whose target does not resolve stores the alias and then raises, so that a change goes
  out without an event (exactly when: `AliasStore.UnannouncedChangeIff`; one case:
  `AliasStore.UnannouncedChange`).
- `history_offset` skips uncompacted messages of a trimmed window longer than a positive watermark
  (`HistoryWindow.LongWindowSkipsUncompacted`; the exact condition is in `HistoryWindow.WindowIsExactIff`).
- The minimal step of `_allocate_sort_keys` can carry a batch past its right neighbour
  (exactly when: `SortKeys.BatchFitsIff`, `SortKeys.BatchKeepsOrder`; one run: `SortKeys.BatchOvertakes`).
- Hydration fixes two progress markers independently, so the indexed one may overtake the completed one
  (`Recovery.HydrationKeepsOrderIff`, `Recovery.HydrationOvertakes`).
- The watermark can fall: when a partly committed operation is taken back, when an uncompacted row takes a
  covered turn, when a merge brings in low numbers. The exact conditions are in `RowChanges`, `Renumbering`
  and `CompactionProtocol.StepLowersIff`. A worker that was up to date is then ahead of the rows
  (`CompactionProtocol.StrandsIff`), and after the pipeline's own refresh its flush marker may still be
  (`CompactionProtocol.RefreshHealsIff`); `WatermarkFalls.TakeoverLeavesWorkerAhead` is one such run.
- Renumbering gives blank rows turns of their own, which inference passes over
  (`Renumbering.RenumberingIsInferenceIff`).
- A write can land after its conversation was deleted and created again (`FencingRace.StaleWriteLands`),
  exactly when the deletion comes between its check and the write (`FencingRace.StaysCurrentIff`).

## Modelling assumptions

- The inverse alias lookup is exact, and reads see one alias table.
- SHA-256 is an arbitrary function of its payload, collision-free where a lemma says so; texts are
  sequences of code points, on which UTF-8 is injective.
- The similarity ratio, the text cleaning, the message hash, the compactor and the grouping of an in-memory
  history are parameters.
- Sort keys, scores and times are exact reals.
- `Fencing` takes a guarded write as one step; `FencingRace` takes check and write as two.
- The canonical id of a row is a key, as in the table's schema, where a lemma says so.
- Rows are read once per restart; hydration in the code reads them up to three times.
- Renumbering is one step. In the code it updates row by row; a row renumbered on its own is a
  `Resave` step of `CompactionProtocol`.

## Model

| member | source | states |
|---|---|---|
| AliasGraph.WalkClassified | virtual_context/core/alias_resolution.py:81-94 | A walk resolves to t if and only if t is terminal fewer than `max_hops` hops away; raises `cycle` iff an id repeats within `max_hops` hops; raises `max_hops` iff that many different hops exist |
| AliasGraph.FailedWalkReportsItsPath | virtual_context/core/alias_resolution.py:82-94 | The chain a failed walk reports is the path actually followed, without repeats up to its last id; for `max_hops` it has `max_hops + 1` ids, for `cycle` its last id already stands in it |
| AliasGraph.ExactlyMaxHopsFails | virtual_context/core/alias_resolution.py:84-94 | A straight chain of exactly `max_hops` edges fails although it ends, and resolves with one more hop |
| AliasGraph.OutcomesExclude | virtual_context/core/alias_resolution.py:84-94 | Terminal, cycle and exhaustion exclude each other, and the terminal is unique |
| AliasGraph.WalkIgnoresUnvisited | virtual_context/core/alias_resolution.py:84-94 | A walk reads only the edges out of the ids it passes: changing any other edge changes nothing, reported chain included |
| AliasGraph.DistanceIsFirstArrival | virtual_context/core/alias_resolution.py:84-92 | Recursive distance is the number of hops at which an id is first reached |
| ReverseDependents.DependentsAreTheBall | virtual_context/core/alias_resolution.py:133-162 | The list is duplicate-free, excludes the target, holds only ids at distance 1 to `max_hops`, and, not cut short, all of them |
| ReverseDependents.DependentsAreByDistance | virtual_context/core/alias_resolution.py:133-162 | Distances to the target never decrease along the list, cut short or not |
| ReverseDependents.DependentsAreOrdered | virtual_context/core/alias_resolution.py:141-161 | Parents come in list order and siblings ascending: the sort is per parent, where the docstring says per level |
| ReverseDependents.DependentsAreCapped | virtual_context/core/alias_resolution.py:26-26 | However the search is cut short, at most 256 children of any one parent are listed |
| ReverseDependents.FewIncomingNeverTruncates | virtual_context/core/alias_resolution.py:141-161 | If no id has more than 256 incoming aliases, no search from any target is cut short |
| PerParent.LevelIsAscendingIff | virtual_context/core/alias_resolution.py:111-112 | A level is ascending if and only if all its children of an earlier frontier node are below those of a later one |
| PerParent.SecondLevelIsNotAscending | virtual_context/core/alias_resolution.py:141-161 | Tables on which the second level of the search is not ascending |
| PerParent.LevelExceedsTheCap | virtual_context/core/alias_resolution.py:107-109 | Tables on which nothing is cut short and yet a level has more ids than the cap |
| FanOut.ChildrenCount | virtual_context/core/alias_resolution.py:144-160 | One node gives as many ids as it has unseen aliases, up to 256, and its list is cut short iff it has more |
| FanOut.LevelCount | virtual_context/core/alias_resolution.py:142-161 | A level is as long as the unseen aliases of its frontier, each node counted up to 256; so it is within the cap iff that sum is. It is cut short iff one node has more than 256 |
| FanOut.TruncatedIff | virtual_context/core/alias_resolution.py:133-162 | A search is cut short if and only if some node at a distance below `max_hops` has more than 256 aliases, the target not counted |
| AliasEviction.DependentsIgnoreOwnEdge | virtual_context/types.py:1362-1366 | Adding, retargeting or deleting the edge out of x leaves the list for x identical, order and truncation included |
| AliasEviction.ChangedWalkPasses | virtual_context/types.py:1343-1350 | Only a walk that reaches x within its bound can change when the edge out of x changes |
| AliasEviction.EvictionIsComplete | virtual_context/types.py:1343-1350 | Not cut short, the list for x together with x covers every id whose walk outcome changes with the edge out of x |
| AliasEviction.DeletionChangesExactlyThePassing | virtual_context/types.py:1359-1366 | Deleting a followed edge out of x changes exactly the walks that reach x in time: eviction is tight |
| AliasEviction.ListedIffReaches | virtual_context/core/alias_resolution.py:97-131 | For any table: the uncut list for x is exactly the other ids that reach x in at most `max_hops` followed hops, and those whose stored path to x meets the empty id, which no walk follows |
| AliasEviction.ResolvedIsListed | virtual_context/core/alias_resolution.py:103-110 | Every id that resolves to another id is on that id's uncut list |
| EvictionGaps.UnlistedHasCrowded | virtual_context/core/alias_resolution.py:133-162 | An id in reach that is not listed has a node with more than 256 aliases on its way to the target |
| EvictionGaps.EvictionMissesIff | virtual_context/types.py:1343-1366 | Deleting a followed edge out of x leaves some changed id unlisted if and only if a node with more than 256 aliases other than x is within `max_hops` - 2 followed hops of x |
| EvictionGaps.CapLeavesGap | virtual_context/core/alias_resolution.py:26-26 | Tables on which one alias more than the cap leaves a changed walk unlisted |
| AliasStore.Store.WalkConversationAliasChain | virtual_context/core/alias_resolution.py:45-94 | The loop with its seen-set and chain computes the walk that the lemmas classify |
| AliasStore.Store.ComputeReverseDependents | virtual_context/core/alias_resolution.py:133-162 | The level loop computes the list of the lemmas, and warns exactly when some list was cut short |
| AliasStore.Store.ExpandLevel | virtual_context/core/alias_resolution.py:143-161 | The node loop computes one level |
| AliasStore.Store.KeepChildren | virtual_context/core/alias_resolution.py:144-160 | One node contributes its unseen sources, ascending, up to the cap |
| AliasStore.Store.KeepUnseen | virtual_context/core/alias_resolution.py:145-160 | The source loop with its kept counter, and when it stops early |
| AliasStore.Store.ListConversationAliasesByTarget | virtual_context/storage/sqlite.py:5404-5420 | The listing is ascending and holds exactly the ids whose one-hop lookup gives the target |
| AliasStore.Store.SaveConversationAlias | virtual_context/storage/sqlite.py:5324-5359 | The alias is stored in every case; with a callback an event follows iff the new target resolves; uncut, the event covers every changed resolution; without an event, resolutions changed iff the edge is really new and not out of the empty id |
| AliasStore.Store.DeleteConversationAlias | virtual_context/storage/sqlite.py:5369-5402 | With a callback, the event computed before the delete equals the one computed after it, and uncut covers every changed resolution; without one there is no event |
| AliasStore.CoveredByDependents | virtual_context/storage/sqlite.py:5251-5290 | With the default bounds the list is the same before and after the write and, uncut, covers all changes |
| AliasStore.UnannouncedChangeIff | virtual_context/storage/sqlite.py:5355-5359 | A save changes some resolution without an event if and only if its target fails to resolve in the new table, its alias is not the empty id, and the old table did not hold that edge |
| AliasStore.UnannouncedChange | virtual_context/storage/sqlite.py:5355-5359 | One such save |
| AliasCache.ActionKeepsFresh | virtual_context/types.py:1323-1366 | A save, a delete, a load, or the arrival of any event on its way keeps each cached resolution up to date or named by an event on its way |
| AliasCache.RunKeepsFresh | virtual_context/types.py:1323-1366 | Over any run in which events go out uncut, arriving late and in any order, an outdated resolution is cached only while an event evicting it is on its way |
| AliasCache.LoadIsCurrent | virtual_context/types.py:1323-1366 | A load caches the present resolution of its id, nothing else, and sends or loses no event |
| AliasCache.CacheSettles | virtual_context/types.py:1323-1366 | When all events on their way have arrived, the cache holds exactly the resolutions no event named, each up to date |
| Alignment.ScoreIsBounded | benchmarks/beam/judge.py:205-219 | Scores lie in 0 to 1 when the sequence ratio does |
| Alignment.ScoreInNumbers | benchmarks/beam/judge.py:196-219 | For token sets of m <= n tokens with k in common, in either argument order, the score is 0.5 k/m + 0.3 k/(m+n-k) + 0.2 times the ratio |
| Alignment.ScoreWithoutTokens | benchmarks/beam/judge.py:202-216 | Without tokens on a side only the ratio counts; a text that cleans to nothing scores 0 |
| Alignment.ContainedScore | benchmarks/beam/judge.py:211-219 | If the non-empty tokens of one text are all in the other, in either order, the score is 0.5 + 0.3 |A|/|B| + 0.2 times the ratio |
| Alignment.EqualSizeScore | benchmarks/beam/judge.py:211-219 | For two sets of n tokens with k in common the score is 0.5 k/n + 0.3 k/(2n-k) + 0.2 times the ratio |
| Alignment.ContainedIsEligible | benchmarks/beam/judge.py:216-241 | A text whose tokens are contained in the other scores at least 0.5, so the pair is eligible at any threshold up to that |
| Alignment.SortSorts | benchmarks/beam/judge.py:240-240 | The reverse tuple sort gives strictly descending distinct pairs with the same contents |
| Alignment.ScorePairs | benchmarks/beam/judge.py:233-238 | The double loop collects every pair at or above the threshold, once |
| Alignment.SelectGreedily | benchmarks/beam/judge.py:242-259 | The loop with used-sets and replacement dictionary makes the greedy choice |
| Alignment.ReplaceItems | benchmarks/beam/judge.py:261-264 | Each replaced system item becomes its reference item; the others stay |
| Alignment.AlignWithoutLlm | benchmarks/beam/judge.py:222-266 | The result is one-to-one, eligible and descending; every rejected eligible pair clashes with a chosen one no worse; the total is at least half that of any one-to-one rival; the output items are exactly the replaced ones |
| Alignment.GreedyPaysForRival | benchmarks/beam/judge.py:247-252 | Any one-to-one rival set weighs at most twice the greedy choice, from any used-sets |
| Alignment.GreedyIsStable | benchmarks/beam/judge.py:247-249 | A pair is left out only for an end taken from the start or by a chosen pair before it |
| Alignment.GreedyIsGood | benchmarks/beam/judge.py:240-252 | Greedy choice over any descending listing of the eligible pairs has all promised properties |
| Alignment.HalfIsAttained | benchmarks/beam/judge.py:196-252 | The factor one half cannot be improved: two reference and two system texts whose eligible pairs, at the default threshold, attain it |
| CanonicalRows.GroupCanonicalRowsIntoPairs | virtual_context/engine.py:1073-1117 | Explicit numbers are used iff every row has one; otherwise rows are paired |
| CanonicalRows.GroupByNumber | virtual_context/engine.py:1074-1085 | The dictionary loop and sort by number |
| CanonicalRows.GroupByPairing | virtual_context/engine.py:1086-1117 | The pairing loop with its pending rows and final flush |
| CanonicalRows.PairRow | virtual_context/engine.py:1096-1115 | What one row does to finished and pending rows: a row with both texts, a user row, an assistant row, a blank row |
| TurnGrouping.InferenceKeepsEverything | virtual_context/engine.py:1086-1117 | Inferred turns are numbered 0 to n-1, have one of the four shapes, and put end to end are the non-blank rows in order |
| TurnGrouping.InferenceSplitsNoPair | virtual_context/engine.py:1086-1117 | Without blank rows, a lone user turn is never followed by a lone assistant turn |
| TurnGrouping.DivisionIsUnique | virtual_context/engine.py:1086-1117 | Shapes, contents and unsplit pairs determine the division into turns |
| TurnGrouping.ExplicitIsStablePartition | virtual_context/engine.py:1074-1085 | One group per number, numbers strictly increasing, each group the rows with that number in row order |
| TurnGrouping.StrictlyNumberedIsUnique | virtual_context/engine.py:1074-1085 | That description determines the list of groups |
| TurnGrouping.RegroupingNumbered | virtual_context/engine.py:1074-1085 | Numbered groups laid end to end and grouped again come back unchanged |
| Watermark.CanonicalPrefixWatermark | virtual_context/engine.py:1119-1129 | The prefix loop computes the watermark of the lemmas |
| Watermark.GroupsAreWellNumbered | virtual_context/engine.py:1073-1117 | Either branch gives non-empty groups with strictly increasing non-negative numbers |
| Watermark.WatermarkIsMaximalPrefix | virtual_context/engine.py:1119-1129 | The mark is even, and a turn lies below it if and only if it and every earlier turn is compacted in all rows |
| Watermark.GroupingAdvanced | virtual_context/engine.py:1073-1117 | Grouping never looks at compaction times |
| Watermark.CommitNeverLowers | virtual_context/engine.py:1134-1139 | Setting compaction times on any further rows never lowers the watermark |
| Watermark.ExplicitWatermarkByRows | virtual_context/engine.py:1074-1129 | For numbered rows the last covered turn is the highest number up to which all rows are compacted |
| Watermark.ExplicitAppendLowersIff | virtual_context/engine.py:1074-1129 | Appending a numbered row lowers the watermark iff the row is uncompacted and numbered at or below the last covered turn |
| Watermark.InferAppend | virtual_context/engine.py:1086-1117 | What one more row does to inferred turns: it joins the last one, starts one, or changes nothing |
| Watermark.InferredAppendLowersIff | virtual_context/engine.py:1086-1129 | For rows grouped as if by inference, numbered or not, an append that leaves them not all numbered lowers the watermark iff everything was compacted and the row is the uncompacted answer to the waiting user row |
| TurnNumbers.WatermarkByRows | virtual_context/engine.py:1073-1129 | However rows are grouped, the last covered turn is the highest one with no uncompacted row in it or before it |
| TurnNumbers.InferredMark | virtual_context/engine.py:1086-1129 | The same for inference, turn by turn, whether or not the rows are numbered |
| RowChanges.RestampLowersIff | virtual_context/engine.py:1119-1129 | A change of stamps lowers the watermark iff it leaves a row of a covered turn uncompacted |
| RowChanges.CommitMarksWholeTurns | virtual_context/storage/sqlite.py:5814-5926 | A commit stamps exactly the rows of each numbered turn it is given one id of, and unnumbered rows by their own id; a guarded one writes its operation, and nothing else of any row changes |
| RowChanges.AbandonLowersIff | virtual_context/storage/sqlite.py:4199-4207 | Undoing a dead operation lowers the watermark iff a row it has claimed is in a covered turn |
| RowChanges.AbandonUndoesCommit | virtual_context/storage/sqlite.py:4199-4207 | Abandoning an operation takes back exactly what its commit did to rows that nobody had claimed or compacted |
| RowChanges.RetagLowersIff | virtual_context/core/tagging_pipeline.py:522-546 | Saving a row back with nothing new but a tag time and the compaction time read earlier lowers the watermark iff this uncompacts a row of a covered turn |
| RowChanges.ResaveLowersIff | virtual_context/storage/sqlite.py:5503-5531 | Saving a numbered row over a numbered row, with any contents, stamps and number, lowers the watermark iff the new row is uncompacted at or below the last covered number, or no row has that number any more and the next turn, if any, is not compacted |
| RowChanges.RemoveLowersIff | virtual_context/storage/sqlite.py:5950-5966 | Removing numbered rows lowers the watermark iff none with the last covered number is kept and the next kept turn, if any, is not compacted |
| RowChanges.InsertNumberedLowersIff | virtual_context/storage/sqlite.py:5503-5531 | Putting a numbered row back lowers the watermark iff it is uncompacted in a covered turn |
| RowChanges.NumberedLowersIff | virtual_context/engine.py:1074-1129 | For any change that leaves the rows all numbered: an uncompacted row at or below the last covered number, or that number gone and the next turn not compacted |
| RowChanges.InsertingAddsTurns | virtual_context/engine.py:1086-1117 | One more row never makes for fewer turns |
| RowChanges.RowsBehindInsert | virtual_context/engine.py:1086-1117 | Rows behind an inserted row stay in turns no lower than before |
| RowChanges.InsertLowersIff | virtual_context/core/ingest_reconciler.py:344-431 | Inserting an unnumbered row anywhere, into rows grouped as if by inference, lowers the watermark iff the row is neither blank nor compacted and the turn it takes is covered |
| RowChanges.InferenceLowersIff | virtual_context/engine.py:1086-1129 | For any rows: a change that leaves them not all numbered lowers the watermark iff too few turns are left or an uncompacted row is in one of the formerly covered numbers |
| RowChanges.MergeLowersIff | virtual_context/storage/sqlite.py:3666-3680 | Merging in numbered rows, wherever their sort keys put them, lowers the watermark iff one has a number up to the last covered turn |
| Renumbering.RecomputeCanonicalTurnGroups | virtual_context/storage/sqlite.py:5562-5614 | The pass with its current and pending group gives each row the number of the lemmas |
| Renumbering.AssignGroup | virtual_context/storage/sqlite.py:5576-5600 | What one row does to the current and the pending group |
| Renumbering.RenumberedHasTurnsTo | virtual_context/storage/sqlite.py:5562-5614 | The numbers given have no gaps |
| Renumbering.RenumberingIsInferenceIff | virtual_context/storage/sqlite.py:5576-5600 | Renumbered rows are grouped into the inferred turns, and as if by inference, if and only if there is no blank row |
| Renumbering.RenumberingIsIdempotent | virtual_context/storage/sqlite.py:5562-5614 | Renumbering renumbered rows changes nothing |
| Renumbering.RenumberLowersIff | virtual_context/storage/sqlite.py:5562-5614 | Renumbering lowers the watermark iff an uncompacted row gets the number of a covered turn or there are no longer that many numbers |
| Renumbering.RenumberAfterInsertLowersIff | virtual_context/core/ingest_reconciler.py:433-447 | From rows not all numbered it does so iff an uncompacted blank row gets the number of a covered turn |
| Renumbering.RenumberingKeepsWatermark | virtual_context/core/ingest_reconciler.py:433-447 | From rows not all numbered and without blanks it leaves the watermark where it is |
| Renumbering.IngestLowersIff | virtual_context/core/ingest_reconciler.py:433-447 | Inserting one row and renumbering, in a conversation without blank rows that is grouped as if by inference, lowers the watermark iff the row is uncompacted and takes a covered turn, and leaves the conversation so again |
| TurnTagIndexing.TurnTagIndex.Append | virtual_context/core/turn_tag_index.py:24-46 | An entry is added unless its turn or canonical id already has one; the lookups stay in step with the list |
| TurnTagIndexing.TurnTagIndex.AppendAll | virtual_context/core/turn_tag_index.py:24-46 | A sequence of appends |
| TurnTagIndexing.TurnTagIndex.GetTagsForLogicalTurn | virtual_context/core/turn_tag_index.py:59-60 | The dictionary finds exactly the entry of a turn in the list, if any |
| TurnTagIndexing.AllKeptIff | virtual_context/core/turn_tag_index.py:24-46 | Every entry of a sequence is kept if and only if no two clash |
| TurnTagIndexing.ReappendingIsIdentity | virtual_context/core/turn_tag_index.py:24-46 | What an index accepted once, a new index accepts in full and in order |
| EngineRestore.Engine.PairPayloadFromRows | virtual_context/engine.py:1151-1165 | First user text and first assistant text, each with the raw form of the same row |
| EngineRestore.Engine.BuildEntry | virtual_context/engine.py:1195-1236 | One pass collects an entry: first non-empty ids, last meaningful primary tag, distinct tags with a fallback |
| EngineRestore.Engine.IndexTurns | virtual_context/engine.py:1188-1240 | The rebuilt index holds what an index accepts of the tagged turns |
| EngineRestore.Engine.DeriveCompactedPrefixMessages | virtual_context/engine.py:1131-1150 | The watermark of the rows, or nothing when they cannot be read |
| EngineRestore.Engine.DeriveProgress | virtual_context/engine.py:1683-1691 | The loop maxima are the last number and the last fully tagged number |
| EngineRestore.Engine.RestoreFromCanonicalRows | virtual_context/engine.py:1167-1283 | Without rows nothing changes; with rows the index, markers, history and pending turns are what the rows say |
| EngineRestore.Engine.RestoreFromGroups | virtual_context/engine.py:1185-1283 | The same, from grouped rows |
| EngineRestore.Engine.UpdateCheckpointMarkers | virtual_context/engine.py:2091-2117 | Markers raised to what index, history and caller show |
| EngineRestore.Engine.LoadPersistedState | virtual_context/engine.py:1285-1349 | Restart from a store checkpoint, with unreadable, empty and non-empty rows |
| EngineRestore.Engine.ApplyCachedState | virtual_context/engine.py:1351-1467 | Restart from a Redis snapshot whose watermark the rows override |
| EngineRestore.Engine.HydrateFromSessionState | virtual_context/engine.py:1510-1747 | Restart from a session state, with the flush, sentinel and empty-index rules |
| EngineRestore.Engine.LoadWorkingSet | virtual_context/engine.py:1585-1596 | A list of entries becomes a dictionary by tag |
| EngineRestore.Engine.RecoverProgress | virtual_context/engine.py:1681-1713 | Markers at their sentinel give way to derived ones |
| Recovery.RestoreSplitsTurns | virtual_context/engine.py:1172-1283 | Every turn is in exactly one of three piles, each in turn order: pending, live, tagged and compacted |
| Recovery.RestoredMarkersAgree | virtual_context/engine.py:1247-1262 | compacted = 2 * (last_compacted + 1), last_compacted <= last_completed, flushed <= compacted, and last_indexed <= last_completed if it held before |
| Recovery.RestoredProgressIsLeast | virtual_context/engine.py:1252-1262 | The completed and indexed markers are the least not below the old ones nor below any turn, or tagged turn, of the rows; a flush marker within the watermark is kept |
| Recovery.RestoreIsIdempotent | virtual_context/engine.py:1247-1262 | Restoring twice from the same rows leaves the markers as restoring once; index, history and pending turns depend on the rows alone |
| Recovery.OneEntryPerTaggedTurn | virtual_context/engine.py:1188-1240 | With row ids as the primary key they are, the rebuilt index has exactly the entries of the tagged turns, in turn order, tags non-empty and distinct |
| Recovery.OneEntryPerTaggedTurnIff | virtual_context/engine.py:1188-1240 | For rows with any ids at all: one entry per tagged turn if and only if no two start with the same id |
| Recovery.CheckpointLandsOnWatermark | virtual_context/engine.py:1285-1339 | Whatever the checkpoint claimed, with non-empty rows the markers equal the watermark and flushed <= compacted; flushed is non-negative iff the saved one was |
| Recovery.SnapshotLandsOnWatermark | virtual_context/engine.py:1453-1467 | The same for a Redis snapshot, for any readable rows |
| Recovery.SessionLandsOnWatermark | virtual_context/engine.py:1643-1679 | The same for a session state, for any readable rows |
| Recovery.CheckpointKeepsMarkIff | virtual_context/engine.py:1337-1339 | With unreadable or empty rows a checkpoint restart keeps the saved watermark; readable rows decide it iff there are any or it was 0 |
| Recovery.HealedMarkersAreStable | virtual_context/engine.py:1658-1713 | Healed markers, with or without the index rebuild, are fixed points of healing |
| Recovery.HydrationHealsInOneStep | virtual_context/engine.py:1510-1812 | For any session state and fixed rows, hydrate, extract, hydrate equals hydrate: markers, index and working set |
| Recovery.RehydrationFollowsRows | virtual_context/engine.py:1643-1679 | A session extracted under old rows and hydrated under newer ones stands on the newer watermark, never lower |
| Recovery.HydrationKeepsOrderIff | virtual_context/engine.py:1681-1747 | From last_indexed <= last_completed, hydration keeps that order if and only if it rebuilds the index or no unset indexed marker is recovered beyond a set completed one |
| Recovery.HydrationOvertakes | virtual_context/engine.py:1697-1713 | Sessions in order that hydration leaves out of order |
| Recovery.ExtractionRoundTrips | virtual_context/engine.py:1749-1812 | Extracting and hydrating without rows gives markers, index and working set back |
| Recovery.CheckpointMarkersAreLeast | virtual_context/engine.py:2091-2117 | The updated markers are the least not below the old ones nor below what index, history and caller show; indexed <= completed whatever held before; a second update changes nothing |
| RestoredTexts.HistoryHoldsTexts | virtual_context/engine.py:1263-1266 | Restored turn i has the number of live turn i, as user text the userContent of its first row with user text, as assistant text the assistantContent of its first row with assistant text, or the empty string if no row has any |
| RestoredTexts.PendingHoldsTexts | virtual_context/engine.py:1267-1273 | The turns still to be tagged hold the same, with the raw forms of those very rows |
| RestoredTexts.TextsAreUnique | virtual_context/engine.py:1153-1165 | That description determines both texts and both raw forms |
| RestoredTexts.EntryHoldsFields | virtual_context/engine.py:1188-1235 | A rebuilt entry has the first non-empty id, sender and session date, the last primary tag that is neither empty nor general, and the digest of user text, space, assistant text |
| RestoredTexts.EntryHoldsLists | virtual_context/engine.py:1188-1235 | Its fact signals and code references are those of all rows in row order; its tags the tags of all rows once each by first occurrence, or the primary tag alone |
| RestoredState.HydratedFlushIff | virtual_context/engine.py:1658-1679 | Hydration keeps the stored flush marker (a missing one counts as the stored compaction marker) if and only if it is within the watermark of the rows and not 0 under a positive one; otherwise it becomes the watermark |
| RestoredState.LoadedFlushIff | virtual_context/engine.py:1247-1339 | A checkpoint restart keeps it if and only if there are no rows or it is within their watermark; otherwise it becomes the watermark |
| RestoredState.AppliedFlushIff | virtual_context/engine.py:1351-1467 | A snapshot restart keeps it if and only if it is within the watermark of the rows; otherwise it becomes the watermark |
| RestoredState.LoadedProgressIsLeast | virtual_context/engine.py:1285-1339 | After a checkpoint restart both progress markers are the least not below the saved ones, the entries of the index, and the turns or tagged turns of the rows |
| RestoredState.AppliedProgressIsLeast | virtual_context/engine.py:1365-1385 | After a snapshot restart the markers are the least not below what is stored and indexed, a missing progress marker counting as one less than the number of entries |
| RestoredState.HydratedProgressIs | virtual_context/engine.py:1681-1747 | Hydration believes a set progress marker; an unset one, or any when the index is rebuilt, becomes the least not below itself and the turns, or tagged turns, of the rows |
| RestoredState.RestoresCarryOver | virtual_context/engine.py:1285-1467 | All three paths carry the rest of the state over; a checkpoint restart takes the higher of cached and own generation; restored rows give version 4 at least |
| RestoredState.WorkingSetIs | virtual_context/engine.py:1585-1596 | A loaded working set holds of each tag the last entry, in the order in which the tags first occur |
| HistoryWindow.WindowIsExactIff | virtual_context/types.py:328-374 | With or without a watermark override: slicing at the offset leaves exactly the messages neither trimmed nor below the watermark in force, if and only if it is at least the window length, or the window is untrimmed, or the watermark is 0 |
| HistoryWindow.LongWindowSkipsUncompacted | virtual_context/types.py:350-352 | Outside that condition, with or without an override: how many uncompacted messages are skipped |
| HistoryWindow.UncoveredWindowIsExactIff | virtual_context/types.py:354-356 | Without index coverage, for any tail and watermark: the slice is exact iff, for a history longer than the watermark, nothing was trimmed or compacted, and otherwise the whole history is uncompacted |
| CompactionProtocol.StepLowersIff | virtual_context/engine.py:1073-1129 | For any rows and each kind of step, the watermark falls if and only if the guard of that step fails |
| CompactionProtocol.RestoreLandsOnWatermarkIff | virtual_context/engine.py:1134-1139 | A restart from any of the three caches stands on the watermark of the rows, unless there are no rows and a checkpoint claims anything |
| CompactionProtocol.StepKeepsCurrent | virtual_context/engine.py:1134-1139 | Every step keeps those workers at or behind the watermark that are not marked as possibly ahead |
| CompactionProtocol.RunKeepsCurrent | virtual_context/engine.py:1134-1139 | Over every interleaving, without any guard: a worker that restarted, or refreshed both markers, since the watermark was last lowered has flushed <= compacted <= the current watermark |
| CompactionProtocol.StepKeepsSafe | virtual_context/engine.py:1134-1139 | While the guard holds a step keeps all workers safe and does not lower the watermark |
| CompactionProtocol.RunKeepsSafe | virtual_context/engine.py:1134-1139 | While all guards hold, every worker stays at or behind the watermark, the watermark only rises, and no watermark ever restored or refreshed exceeds the current one |
| CompactionProtocol.StrandsIff | virtual_context/engine.py:1134-1139 | A worker that is up to date is ahead of the rows after a step if and only if the guard of the step fails |
| CompactionProtocol.RefreshHealsIff | virtual_context/core/compaction_pipeline.py:107-162 | A refresh puts the compaction marker on the watermark whatever happened before; the flush marker is safe after it iff the refresh clamps or it was not ahead of the rows |
| CompactionProtocol.RefreshesAreHydrationIff | virtual_context/proxy/state.py:3080-3101 | Both refreshes together, in either order, leave the watermark markers as hydration would if and only if the flush marker is not 0 under a positive watermark; the worker is then on the watermark |
| CompactionProtocol.FlushCatchesUp | virtual_context/proxy/server.py:1240-1250 | A flush raises the flush marker to the compaction marker, never lowers it, and changes nothing else; unless it was ahead, both then cut the same window |
| CompactionProtocol.StepsAreLocal | virtual_context/engine.py:1134-1139 | A worker step leaves the rows and all other workers alone, a row step all workers; exactly restarts and refreshes record a watermark, the one they end on |
| CompactionProtocol.RunKeepsNonNegative | virtual_context/engine.py:79-88 | Whatever happens to the rows, a negative flush marker can only come out of a cache |
| CompactionProtocol.SkippedMessagesAreCompacted | virtual_context/types.py:350-374 | Each window message that a worker with safe markers skips, at its compaction marker or an override no higher, belongs to a turn with no uncompacted row in it or before it |
| WatermarkFalls.TakeoverLeavesWorkerAhead | virtual_context/storage/sqlite.py:4197-4207 | A run from an empty conversation: the worker is up to date at 2 messages, the operation is taken back, the watermark is 0, and the worker stays at 2; after the pipeline refresh its flush marker is still 2, after the proxy refresh both markers are 0 |
| SortKeys.DefaultIsMidpointAtEnd | virtual_context/core/canonical_turns.py:71-84 | On sorted rows the default key equals the midpoint key after the last row |
| SortKeys.InsertedKeyStandsAt | virtual_context/core/canonical_turns.py:71-84 | One insert puts its key 1000 from a single neighbour, exactly halfway between two, and at 1000 on its own |
| SortKeys.InsertKeepsSpaced | virtual_context/core/canonical_turns.py:77-84 | One insert keeps all gaps; only an in-between insert may halve the least gap |
| SortKeys.RunsStayOrdered | virtual_context/core/canonical_turns.py:71-84 | Over any run of appends, prepends and in-between inserts, keys are strictly increasing and gaps are at least 1000/2^m |
| SortKeys.GapIsAttained | virtual_context/core/canonical_turns.py:77-84 | For every m there is a run whose least gap is exactly 1000/2^m |
| SortKeys.AllocatedAreIncreasing | virtual_context/core/ingest_reconciler.py:773-793 | A batch of keys is strictly increasing and above its left neighbour |
| SortKeys.BatchFitsIff | virtual_context/core/ingest_reconciler.py:790-793 | A batch stays below its right neighbour if and only if the gap exceeds count minimal steps, or a side is open |
| SortKeys.BatchKeepsOrder | virtual_context/core/ingest_reconciler.py:773-793 | Splicing a batch keeps the whole list in order under exactly that condition |
| SortKeys.BatchIsEven | virtual_context/core/ingest_reconciler.py:781-793 | Between neighbours more than count + 1 minimal steps apart all count + 1 gaps of left, batch and right are equal; between closer ones each key is one minimal step on; with a side open all gaps are 1000 |
| SortKeys.BatchLeastGap | virtual_context/core/ingest_reconciler.py:788-793 | So a batch in a wide gap leaves as least gap of the whole list the lesser of the old one and that gap divided by count + 1 |
| SortKeys.BatchOfOneIsMidpointIff | virtual_context/core/ingest_reconciler.py:773-793 | A batch of one row is the midpoint key if and only if a side is open or the neighbours are at least two minimal steps apart |
| SortKeys.BatchOvertakes | virtual_context/core/ingest_reconciler.py:790-793 | A run of twenty in-between inserts after which a batch of one row no longer fits |
| TurnIdentity.NormalizedIsItsWords | virtual_context/core/canonical_turns.py:27-30 | The line and white-space passes come to the words of the text joined by single spaces |
| TurnIdentity.NormalizedIsNormal | virtual_context/core/canonical_turns.py:27-30 | No newline is left, spaces are the only white space, and normalising again changes nothing |
| TurnIdentity.FramingIsInjective | virtual_context/core/canonical_turns.py:33-35 | The payload determines both texts and the version, once user texts have no newline |
| TurnIdentity.HashesAgreeIff | virtual_context/core/canonical_turns.py:38-45 | Under a collision-free hash two turns hash the same iff their words are the same |
| TurnIdentity.RawFramingIsAmbiguous | virtual_context/core/canonical_turns.py:33-35 | Without normalisation two different turns have the same payload |
| TurnIdentity.FramedIsInjective | virtual_context/core/canonical_turns.py:48-54 | NUL-terminated hashes frame injectively, for windows of any lengths |
| TurnIdentity.FramedConcat | virtual_context/core/canonical_turns.py:48-54 | Hashes are framed one after the other in order, each followed by one NUL |
| TurnIdentity.ComputeAnchorHash | virtual_context/core/canonical_turns.py:48-54 | The digest loop hashes the framed window, clamped at the end of the rows |
| TurnIdentity.BuildAnchorIndex | virtual_context/core/canonical_turns.py:57-64 | Every valid start is listed once, increasing, under the hash of its window and nowhere else; no index for bad sizes |
| TurnIdentity.SameBucketIffSameWindow | virtual_context/core/canonical_turns.py:57-64 | With a collision-free hash, two starts share a bucket iff their windows of turn hashes are equal |
| TurnIdentity.NulMergesWindows | virtual_context/core/canonical_turns.py:48-54 | A NUL inside a turn hash would merge different windows |
| Fencing.LifecycleStore.ActivateConversation | virtual_context/storage/sqlite.py:2557-2581 | Activation keeps the generation, clears the deletion mark, and starts at 0 |
| Fencing.LifecycleStore.BeginConversationDeletion | virtual_context/storage/sqlite.py:2583-2601 | Deletion raises the generation, to 1 where there was none, and marks it deleted |
| Fencing.ActivationMakesCurrent | virtual_context/storage/sqlite.py:2557-2626 | After an activation exactly the generation it returned is current |
| Fencing.DeletionUnseatsAll | virtual_context/storage/sqlite.py:2583-2626 | From the beginning of a deletion no generation is current until the next activation, and none from before it afterwards; other conversations are not affected |
| Fencing.ConversationStoreView.RefreshGeneration | virtual_context/core/conversation_store.py:56-60 | A refresh activates the conversation and takes its generation |
| Fencing.ConversationStoreView.GuardedWrite | virtual_context/core/conversation_store.py:84-103 | A write lands iff the view is current |
| Fencing.StepKeepsSound | virtual_context/core/conversation_store.py:84-103 | No step puts a view or a landed write ahead of its conversation |
| Fencing.RunKeepsSound | virtual_context/core/conversation_store.py:84-103 | The same over any interleaving |
| Fencing.LogIsInGenerationOrder | virtual_context/core/conversation_store.py:84-103 | From an empty store, over any interleaving, a write of an older generation never lands after one of a newer |
| Fencing.StaleNeverLands | virtual_context/core/conversation_store.py:84-93 | A stale view never lands a write until it is refreshed |
| Fencing.DeletionFencesOldViews | virtual_context/core/conversation_store.py:56-103 | After a deletion begins, views opened before it never land a write, whatever else happens, until refreshed themselves |
| Fencing.DeletedIsQuiet | virtual_context/storage/sqlite.py:2583-2626 | While a conversation stays deleted no view at all writes into it |
| Fencing.WriteLandsIff | virtual_context/core/conversation_store.py:84-103 | A write lands if and only if its view is neither outdated nor of a deleted conversation, and then under the present generation |
| Fencing.RefreshedCanWrite | virtual_context/core/conversation_store.py:56-60 | A view can write at once after it is opened or refreshed, whatever happened before, and no other view is touched |
| FencingRace.EveryWriteWasChecked | virtual_context/core/conversation_store.py:84-103 | With check and write as separate steps, over any interleaving, every write was current at its check |
| FencingRace.EveryAdmittedLandsOnce | virtual_context/core/conversation_store.py:84-103 | Over any interleaving, pending and landed writes together are exactly the writes that passed their check, with multiplicity |
| FencingRace.TurnsStaleIff | virtual_context/core/conversation_store.py:84-103 | One move makes a current write stale iff it is the deletion of its own conversation |
| FencingRace.StaysCurrentIff | virtual_context/core/conversation_store.py:84-103 | Over any stretch of moves from check to landing, a write is current at the end if and only if its conversation was not deleted in between |
| FencingRace.StaleWriteLands | virtual_context/core/conversation_store.py:84-103 | An interleaving in which a write of an old generation lands in the conversation created again |
| RoundRobin.SelectQuestions | benchmarks/mrcr/dataset.py:225-253 | Sort, group, and rounds over iterators compute the selection of the lemmas |
| RoundRobin.OneRound | benchmarks/mrcr/dataset.py:239-253 | One pass over the groups: feeds one question each, stops at the count, deletes exhausted groups, and makes progress |
| RoundRobin.SelectionIsPrefix | benchmarks/mrcr/dataset.py:237-253 | With unique ids the selection is a prefix of the rounds |
| RoundRobin.SelectionIsBalanced | benchmarks/mrcr/dataset.py:225-253 | Exactly min(count, available) questions; a shortest-first prefix of each needle group; no group more than one ahead of a group with questions left |
| RoundRobin.RoundsAreFair | benchmarks/mrcr/dataset.py:239-253 | Fairness at every moment of the rounds |
| RoundRobin.RoundsTakePrefixes | benchmarks/mrcr/dataset.py:239-253 | At every moment each group has given a prefix |
| RoundOrder.SortIsStable | benchmarks/mrcr/dataset.py:225-226 | The sort by size keeps questions of equal size in dataset order |
| RoundOrder.SelectionIsInRounds | benchmarks/mrcr/dataset.py:229-253 | With unique ids the selection lists round after round, and within a round needle counts increase |
| RoundOrder.SelectionIsSound | benchmarks/mrcr/dataset.py:229-253 | With any ids: only candidates, no id twice, at most the count, and fewer only if every id is selected |
| Backfill.DeriveCoverTags | virtual_context/engine.py:2455-2463 | Cover tags are the tags of any segment, neither empty nor general |
| Backfill.CoversOne | virtual_context/engine.py:2455-2463 | A segment counts for its primary tag even if its tag list is empty, and for all tags of its list, none of them empty or general |
| Backfill.CoversConcat | virtual_context/engine.py:2455-2463 | More segments cover what either part covers |
| Backfill.InvertedIndex | virtual_context/engine.py:2507-2515 | Each cover tag that occurs is mapped to exactly the items carrying it, in order |
| Backfill.PostItem | virtual_context/engine.py:2513-2514 | One item is appended to the posting list of each of its cover tags, and to no other |
| Backfill.PostingsOfOne | virtual_context/engine.py:2507-2515 | Of one item a posting list has its value iff its primary tag or its list names the tag |
| Backfill.PostingsConcat | virtual_context/engine.py:2507-2515 | Posting lists keep item order and multiplicity |
| Backfill.RowPostingsOfOne | virtual_context/engine.py:2534-2560 | Of one row the lists of a tag it names have its turn number, and its canonical id unless that is empty |
| Backfill.RowPostingsConcat | virtual_context/engine.py:2534-2560 | The same in row order for any number of rows |
| Backfill.SummaryStore.ChooseTags | virtual_context/engine.py:2463-2500 | Forced, all cover tags; unforced, those without a summary; ascending |
| Backfill.SummaryStore.Prune | virtual_context/engine.py:2516-2530 | Pruning removes nothing |
| Backfill.SummaryStore.PrepareRequest | virtual_context/engine.py:2502-2567 | The compactor is asked for exactly the wanted tags, with their posting lists |
| Backfill.SummaryStore.HighestTurn | virtual_context/engine.py:2538-2546 | The least bound of 0 and all turn numbers |
| Backfill.SummaryStore.SaveAll | virtual_context/engine.py:2601-2630 | Answers are saved one by one and counted |
| Backfill.SavedIsLatest | virtual_context/engine.py:2601-2630 | For each tag the last answer is stored, over an older summary as well |
| Backfill.SummaryStore.BackfillTagSummaries | virtual_context/engine.py:2379-2640 | One run: unforced it changes no existing summary; answered in full, every cover tag has one afterwards; nothing wanted, nothing written |
| Backfill.PruningRemovesNothing | virtual_context/engine.py:2516-2530 | Every wanted tag has a segment to be summarised from |
| Backfill.RerunIsIdleIff | virtual_context/engine.py:2476-2500 | An unforced run asks for nothing if and only if every cover tag has a summary |
| Backfill.CompleteRunThenIdle | virtual_context/engine.py:2476-2500 | After a run answered in full, forced or not, an unforced run asks for nothing |
| IdOrder.AscendingIsUnique | virtual_context/core/alias_resolution.py:145-145 | The sorted listing of a set of ids is determined by the set |

## Left out

- CompactionProtocol.RunKeepsCurrent: restarts that cannot read the rows are not steps, because there every path keeps its cached marker.
- CompactionProtocol.StepLowersIff: whether an operation is still allowed to commit is not modelled; any commit is a step.
- AliasStore.Store.SaveConversationAlias: does not model alias epochs, nor deferring the event inside a merge transaction.
- AliasStore.Store.DeleteConversationAlias: does not model deferring the event inside a merge transaction.
- AliasCache.RunKeepsFresh: resolving an id and caching the result is one step; saves whose event is cut short or never built are excluded.
- EngineRestore.Engine.LoadPersistedState: does not model telemetry, request captures and a checkpoint that fails to load.
- EngineRestore.Engine.HydrateFromSessionState: the state is held by value, so that sharing it with the engine's delegates is not captured; telemetry is not modelled.
- EngineRestore.Engine.ApplyCachedState: does not model the snapshot's own history, telemetry, request captures, field defaults and generation fallback.
- EngineRestore.Engine.BuildEntry: does not model entry time stamps, which fall back to the clock.
- Recovery.RestoreIsIdempotent: speaks of the markers; index, history and pending turns are functions of the rows in the methods' contracts.
- TurnTagIndexing.TurnTagIndex.Append: does not model the lookups by message hash and of all tags, nor later binding of canonical ids.
- TurnIdentity.NormalizedIsItsWords: starts after the substitution of session and media markers, whose regular expressions are not modelled.
- TurnIdentity.NormalizedIsNormal: the same; with markers, removing one can make another.
- TurnIdentity.HashesAgreeIff: the same; texts are taken after the substitution.
- Alignment.AlignWithoutLlm: alignment records carry the unrounded score, and indices instead of item texts.
- RoundRobin.SelectQuestions: only the branch without explicit ids, needle counts or bins.
- Backfill.SummaryStore.BackfillTagSummaries: does not model embeddings, a missing compactor or a failing store.
- Fencing.ConversationStoreView.GuardedWrite: which method names are guarded is not modelled, nor the defaults of stores without lifecycle support.
- Stores that lack the alias lookups, for which both algorithms return trivially.
- Chat flattening and token F1 of the benchmarks: they would add only easy members.
- Storage backends, Redis, providers, embeddings, telemetry, threads, command line, daemon and configuration.
