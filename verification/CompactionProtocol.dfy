/**
 * Several workers share the rows of one conversation. They commit compactions, undo those of dead
 * workers, insert, renumber, merge, save back and remove rows, and restart from whatever stale cache
 * they find. Over every interleaving a worker that is ahead of the rows has seen the
 * watermark lowered since it last looked; and no step but those with an exact guard lowers it.
 */
module CompactionProtocol {
  import opened Options
  import opened CanonicalRows
  import opened TurnGrouping
  import opened Watermark
  import opened TurnTagIndexing
  import opened RestoreSpec
  import opened Recovery
  import opened HistoryWindow
  import opened TurnNumbers
  import opened RowChanges
  import opened Renumbering

  /** The cache a restart reads, with any contents. */
  datatype Cache =
    | FromCheckpoint(saved: Checkpoint, generation: int)
    | FromSnapshot(cached: RedisSnapshot)
    | FromSession(session: SessionState)

  datatype Step =
    | Commit(ids: set<string>, stamp: string, operation: string)
    | Abandon(operation: string)
    | Insert(position: nat, row: Row)
    | Recompute
    | Merge(moved: seq<Row>, merged: seq<Row>)
    | Resave(position: nat, row: Row)
    | Remove(kept: seq<Row>)
    | Restore(worker: nat, cache: Cache)
    | Refresh(worker: nat, clamps: bool)
    | Flush(worker: nat)

  /** The shared rows, each worker's markers, and every watermark restored or refreshed so far. */
  datatype System = System(rows: seq<Row>, workers: seq<EngineState>, restored: seq<int>)

  function FlushedIn(cache: Cache): int {
    match cache
    case FromCheckpoint(saved, _) => SavedFlushed(saved)
    case FromSnapshot(cached) => CachedFlushed(cached)
    case FromSession(session) => SavedFlushed(session)
  }

  /** The markers after a restart of an engine with a fresh index. */
  ghost function RestoredBy(cache: Cache, rows: seq<Row>): EngineState {
    match cache
    case FromCheckpoint(saved, generation) => LoadedState(saved, generation, [], Some(rows))
    case FromSnapshot(cached) => AppliedState(cached, [], Some(rows))
    case FromSession(session) => HydratedState(session, Some(rows))
  }

  /**
   * Steps the code can take. A commit has a time and an operation has a name. A row put in may be a new
   * one without a number, or one that was removed and is saved back late; a row saved back over the
   * present one may differ from it in anything.
   */
  ghost predicate Possible(system: System, step: Step) {
    match step
    case Commit(_, stamp, _) => stamp != ""
    case Abandon(operation) => operation != ""
    case Insert(p, _) => p <= |system.rows|
    case Recompute => true
    case Merge(moved, merged) => MergesInto(system.rows, moved, merged)
    case Resave(p, _) => p < |system.rows|
    case Remove(kept) => multiset(kept) <= multiset(system.rows)
    case Restore(w, _) => w < |system.workers|
    case Refresh(w, _) => w < |system.workers|
    case Flush(w) => w < |system.workers|
  }

  ghost function RowsAfter(system: System, step: Step): seq<Row>
    requires Possible(system, step)
  {
    var rows := system.rows;
    match step
    case Commit(ids, stamp, operation) => Committed(rows, ids, stamp, operation)
    case Abandon(operation) => Abandoned(rows, operation)
    case Insert(p, row) => Inserted(rows, p, row)
    case Recompute => Renumbered(rows)
    case Merge(_, merged) => merged
    case Resave(p, row) => rows[p := row]
    case Remove(kept) => kept
    case _ => rows
  }

  /**
   * A look at the rows without a restart: the proxy's clamps the flush marker, the compaction
   * pipeline's sets the last compacted turn instead.
   */
  ghost function Refreshed(markers: EngineState, mark: Mark, clamps: bool): EngineState {
    if clamps then
      markers.(compactedPrefixMessages := mark.messages, flushedPrefixMessages := Min(markers.flushedPrefixMessages, mark.messages))
    else
      markers.(compactedPrefixMessages := mark.messages, lastCompactedTurn := mark.lastTurn)
  }

  /** A worker step changes the markers of one worker, and not the rows. */
  predicate IsWorkerStep(step: Step) {
    step.Restore? || step.Refresh? || step.Flush?
  }

  ghost function MarkersAfter(system: System, step: Step): EngineState
    requires IsWorkerStep(step) && Possible(system, step)
  {
    var markers := system.workers[step.worker];
    if step.Restore? then RestoredBy(step.cache, system.rows)
    else if step.Refresh? then Refreshed(markers, Derived(system.rows), step.clamps)
    else markers.(flushedPrefixMessages := Max(markers.flushedPrefixMessages, markers.compactedPrefixMessages))
  }

  ghost function Next(system: System, step: Step): System
    requires Possible(system, step)
  {
    if IsWorkerStep(step) then
      var markers := MarkersAfter(system, step);
      system.(workers := system.workers[step.worker := markers],
              restored := system.restored + if step.Flush? then [] else [markers.compactedPrefixMessages])
    else system.(rows := RowsAfter(system, step))
  }

  // ---------------------------------------------------------------------------------------
  // Which steps lower the watermark
  // ---------------------------------------------------------------------------------------

  /** In gapless inferred turns: those up to `last` are still there, without an uncompacted row. */
  ghost predicate StillInferred(rows: seq<Row>, last: int) {
    last == -1 || (last < TurnCount(rows) && !OpenUpTo(rows, last))
  }

  /** Among numbered rows: none up to `last` is uncompacted, and `last` or the next turn is there. */
  ghost predicate StillNumbered(rows: seq<Row>, last: int) {
    last == -1 || (RowsCompactedUpTo(rows, last) && StillThere(rows, last))
  }

  /** Some row is numbered `last`, or the turn that comes next is compacted. */
  ghost predicate StillThere(rows: seq<Row>, last: int) {
    last == -1 || last in Numbers(rows) || NextIsCompacted(rows, last)
  }

  ghost predicate SavedBackKeeps(rows: seq<Row>, p: nat, row: Row, last: int)
    requires p < |rows|
  {
    if !IsExplicit(rows[p := row]) then StillInferred(rows[p := row], last)
    else if !IsExplicit(rows) then StillNumbered(rows[p := row], last)
    else (row.IsCompacted() || row.turnGroupNumber > last) && StillThere(rows[p := row], last)
  }

  ghost predicate RemovalKeeps(rows: seq<Row>, kept: seq<Row>, last: int) {
    if IsExplicit(rows) then StillThere(kept, last)
    else if IsExplicit(kept) then StillNumbered(kept, last)
    else StillInferred(kept, last)
  }

  /** What keeps the watermark from falling, step by step. */
  ghost predicate Keeps(rows: seq<Row>, step: Step) {
    var last := Derived(rows).lastTurn;
    match step
    case Abandon(operation) =>
      forall i :: 0 <= i < |rows| && InTurn(rows, i) && TurnOf(rows, i) <= last ==> rows[i].operation != operation
    case Insert(p, row) =>
      p <= |rows| &&
      (if IsExplicit(Inserted(rows, p, row)) then row.IsCompacted() || row.turnGroupNumber > last
       else StillInferred(Inserted(rows, p, row), last))
    case Recompute => !OpenRowGets(rows, last) && last < NumberCount(rows)
    case Merge(moved, merged) =>
      if IsExplicit(merged) then forall row :: row in moved ==> row.turnGroupNumber > last
      else StillInferred(merged, last)
    case Resave(p, row) => p < |rows| && SavedBackKeeps(rows, p, row, last)
    case Remove(kept) => RemovalKeeps(rows, kept, last)
    case _ => true
  }

  /** The guards are exact: a step lowers the watermark if and only if its guard fails. */
  lemma StepLowersIff(system: System, step: Step)
    requires Possible(system, step)
    ensures Lowers(system.rows, RowsAfter(system, step)) <==> !Keeps(system.rows, step)
  {
    var rows := system.rows;
    WatermarkByRows(rows);
    match step {
      case Commit(ids, stamp, operation) => CommitNeverLowers(rows, Committed(rows, ids, stamp, operation));
      case Abandon(operation) => AbandonLowersIff(rows, operation);
      case Insert(p, row) =>
        if IsExplicit(Inserted(rows, p, row)) {
          InsertNumberedLowersIff(rows, p, row);
        } else {
          InferenceLowersIff(rows, Inserted(rows, p, row));
        }
      case Recompute => RenumberLowersIff(rows);
      case Merge(moved, merged) =>
        if IsExplicit(merged) { MergeLowersIff(rows, moved, merged); } else { InferenceLowersIff(rows, merged); }
      case Resave(p, row) => SavedBackLowersIff(rows, p, row);
      case Remove(kept) => RemovalLowersIff(rows, kept);
      case _ =>
    }
  }

  lemma SavedBackLowersIff(rows: seq<Row>, p: nat, row: Row)
    requires p < |rows|
    ensures Lowers(rows, rows[p := row]) <==> !SavedBackKeeps(rows, p, row, Derived(rows).lastTurn)
  {
    var after := rows[p := row];
    WatermarkByRows(rows);
    if !IsExplicit(after) {
      InferenceLowersIff(rows, after);
    } else if !IsExplicit(rows) {
      NumberedLowersIff(rows, after);
    } else {
      assert after[p] == row && row in after;
      ResaveLowersIff(rows, p, row);
    }
  }

  lemma RemovalLowersIff(rows: seq<Row>, kept: seq<Row>)
    requires multiset(kept) <= multiset(rows)
    ensures Lowers(rows, kept) <==> !RemovalKeeps(rows, kept, Derived(rows).lastTurn)
  {
    WatermarkByRows(rows);
    if IsExplicit(rows) {
      forall row | row in kept ensures row in rows {
        assert row in multiset(kept);
      }
      RemoveLowersIff(rows, kept);
    } else if IsExplicit(kept) {
      NumberedLowersIff(rows, kept);
    } else {
      InferenceLowersIff(rows, kept);
    }
  }

  lemma MessagesFallIff(system: System, step: Step)
    requires Possible(system, step)
    ensures Derived(RowsAfter(system, step)).messages < Derived(system.rows).messages <==> !Keeps(system.rows, step)
  {
    StepLowersIff(system, step);
  }

  // ---------------------------------------------------------------------------------------
  // Any interleaving
  // ---------------------------------------------------------------------------------------

  ghost predicate MarkersSafe(markers: EngineState, rows: seq<Row>) {
    && markers.flushedPrefixMessages <= markers.compactedPrefixMessages <= Derived(rows).messages
    && 0 <= markers.compactedPrefixMessages && markers.compactedPrefixMessages % 2 == 0
  }

  /** Only a checkpoint, and only when there are no rows at all, can override the rows. */
  predicate Overridden(cache: Cache, rows: seq<Row>) {
    rows == [] && cache.FromCheckpoint? ==>
      && cache.saved.markers.compactedPrefixMessages == 0
      && cache.saved.markers.lastCompactedTurn <= -1
      && SavedFlushed(cache.saved) <= 0
  }

  /** A restart stands on the watermark of the rows, whatever its cache claims, unless the cache prevails. */
  lemma RestoreLandsOnWatermarkIff(cache: Cache, rows: seq<Row>)
    ensures OnWatermark(RestoredBy(cache, rows), rows) <==> Overridden(cache, rows)
    ensures Overridden(cache, rows) ==> (RestoredBy(cache, rows).flushedPrefixMessages >= 0 <==> FlushedIn(cache) >= 0)
  {
    match cache
    case FromCheckpoint(saved, generation) =>
      if rows != [] {
        CheckpointLandsOnWatermark(saved, generation, [], rows);
      } else {
        CheckpointWithoutRows(saved, generation);
      }
    case FromSnapshot(cached) => SnapshotLandsOnWatermark(cached, [], rows);
    case FromSession(session) => SessionLandsOnWatermark(session, rows);
  }

  lemma OnWatermarkIsSafe(markers: EngineState, rows: seq<Row>)
    requires OnWatermark(markers, rows)
    ensures MarkersSafe(markers, rows)
  {
  }

  lemma CheckpointWithoutRows(saved: Checkpoint, generation: int)
    ensures var after := LoadedState(saved, generation, [], Some([]));
            && (OnWatermark(after, []) <==> Overridden(FromCheckpoint(saved, generation), []))
            && after.flushedPrefixMessages == SavedFlushed(saved)
            && after.compactedPrefixMessages == saved.markers.compactedPrefixMessages
            && Derived([]) == Mark(0, -1)
  {
    assert InferredGroups([]) == [];
  }

  function Everyone(count: nat): (workers: set<nat>)
    ensures forall w :: w in workers <==> 0 <= w < count
  {
    if count == 0 then {} else Everyone(count - 1) + {count - 1}
  }

  /**
   * The workers that may be ahead of the rows: all of them once the watermark has been lowered, and
   * each until it restarts or refreshes both its markers.
   */
  ghost function StaleNext(system: System, step: Step, stale: set<nat>): set<nat>
    requires Possible(system, step)
  {
    if step.Restore? then if Overridden(step.cache, system.rows) then stale - {step.worker} else stale + {step.worker}
    else if step.Refresh? && step.clamps then stale - {step.worker}
    else if IsWorkerStep(step) || Keeps(system.rows, step) then stale
    else Everyone(|system.workers|)
  }

  ghost predicate CurrentBut(system: System, stale: set<nat>) {
    forall w :: 0 <= w < |system.workers| && w !in stale ==> MarkersSafe(system.workers[w], system.rows)
  }

  lemma StepKeepsCurrent(system: System, step: Step, stale: set<nat>)
    requires CurrentBut(system, stale) && Possible(system, step)
    ensures CurrentBut(Next(system, step), StaleNext(system, step, stale))
  {
    if step.Restore? {
      RestoreKeepsCurrent(system, step.worker, step.cache, stale);
    } else if step.Refresh? {
      RefreshKeepsCurrent(system, step.worker, step.clamps, stale);
    } else if !step.Flush? {
      RowStepKeepsCurrent(system, step, stale);
    }
  }

  lemma RestoreKeepsCurrent(system: System, w: nat, cache: Cache, stale: set<nat>)
    requires CurrentBut(system, stale) && w < |system.workers|
    ensures CurrentBut(Next(system, Restore(w, cache)), StaleNext(system, Restore(w, cache), stale))
  {
    RestoreLandsOnWatermarkIff(cache, system.rows);
    if Overridden(cache, system.rows) {
      OnWatermarkIsSafe(RestoredBy(cache, system.rows), system.rows);
    }
  }

  lemma RefreshKeepsCurrent(system: System, w: nat, clamps: bool, stale: set<nat>)
    requires CurrentBut(system, stale) && w < |system.workers|
    ensures CurrentBut(Next(system, Refresh(w, clamps)), StaleNext(system, Refresh(w, clamps), stale))
  {
  }

  lemma RowStepKeepsCurrent(system: System, step: Step, stale: set<nat>)
    requires CurrentBut(system, stale) && Possible(system, step) && !IsWorkerStep(step)
    ensures CurrentBut(Next(system, step), StaleNext(system, step, stale))
  {
    MessagesFallIff(system, step);
  }

  ghost predicate AllPossible(system: System, steps: seq<Step>)
    decreases |steps|
  {
    steps == [] || (Possible(system, steps[0]) && AllPossible(Next(system, steps[0]), steps[1..]))
  }

  ghost function Run(system: System, steps: seq<Step>): System
    requires AllPossible(system, steps)
    decreases |steps|
  {
    if steps == [] then system else Run(Next(system, steps[0]), steps[1..])
  }

  ghost function StaleAfter(system: System, steps: seq<Step>, stale: set<nat>): set<nat>
    requires AllPossible(system, steps)
    decreases |steps|
  {
    if steps == [] then stale else StaleAfter(Next(system, steps[0]), steps[1..], StaleNext(system, steps[0], stale))
  }

  /**
   * Safety of every run, without any guard: whatever the steps, a worker that has restarted or
   * refreshed both its markers since the watermark was last lowered has flushed <= compacted <= the
   * current watermark, and compacted is even.
   */
  lemma {:induction false} RunKeepsCurrent(system: System, steps: seq<Step>, stale: set<nat>)
    requires CurrentBut(system, stale) && AllPossible(system, steps)
    ensures CurrentBut(Run(system, steps), StaleAfter(system, steps, stale))
    decreases |steps|
  {
    if steps != [] {
      StepKeepsCurrent(system, steps[0], stale);
      RunKeepsCurrent(Next(system, steps[0]), steps[1..], StaleNext(system, steps[0], stale));
    }
  }

  // ---------------------------------------------------------------------------------------
  // Runs in which every guard holds
  // ---------------------------------------------------------------------------------------

  ghost predicate Guarded(system: System, step: Step) {
    Possible(system, step) && Keeps(system.rows, step) && (step.Restore? ==> Overridden(step.cache, system.rows))
  }

  ghost predicate AllGuarded(system: System, steps: seq<Step>)
    decreases |steps|
  {
    steps == [] || (Guarded(system, steps[0]) && AllGuarded(Next(system, steps[0]), steps[1..]))
  }

  lemma {:induction false} GuardedIsPossible(system: System, steps: seq<Step>)
    requires AllGuarded(system, steps)
    ensures AllPossible(system, steps)
    decreases |steps|
  {
    if steps != [] {
      GuardedIsPossible(Next(system, steps[0]), steps[1..]);
    }
  }

  ghost predicate Safe(system: System) {
    && CurrentBut(system, {})
    && forall i :: 0 <= i < |system.restored| ==> system.restored[i] <= Derived(system.rows).messages
  }

  lemma StepKeepsSafe(system: System, step: Step)
    requires Safe(system) && Guarded(system, step)
    ensures Safe(Next(system, step))
    ensures Derived(system.rows).messages <= Derived(Next(system, step).rows).messages
  {
    StepKeepsCurrent(system, step, {});
    if step.Restore? {
      RestoreLandsOnWatermarkIff(step.cache, system.rows);
    } else if !IsWorkerStep(step) {
      MessagesFallIff(system, step);
    }
  }

  /**
   * While every guard holds, every worker stays at or behind the watermark without ever looking
   * again, the watermark only rises, and no watermark that was ever restored exceeds the current one.
   */
  lemma {:induction false} RunKeepsSafe(system: System, steps: seq<Step>)
    requires Safe(system) && AllGuarded(system, steps)
    ensures AllPossible(system, steps)
    ensures Safe(Run(system, steps))
    ensures Derived(system.rows).messages <= Derived(Run(system, steps).rows).messages
    decreases |steps|
  {
    GuardedIsPossible(system, steps);
    if steps != [] {
      StepKeepsSafe(system, steps[0]);
      RunKeepsSafe(Next(system, steps[0]), steps[1..]);
    }
  }

  /** A worker that is up to date is ahead of the rows after a step exactly when its guard fails. */
  lemma StrandsIff(system: System, step: Step, w: nat)
    requires w < |system.workers| && OnWatermark(system.workers[w], system.rows)
    requires Possible(system, step) && !IsWorkerStep(step)
    ensures MarkersSafe(Next(system, step).workers[w], Next(system, step).rows) <==> Keeps(system.rows, step)
  {
    MessagesFallIff(system, step);
    SafeAgainIff(system.workers[w], system.rows, RowsAfter(system, step));
    assert Next(system, step) == system.(rows := RowsAfter(system, step));
  }

  lemma SafeAgainIff(markers: EngineState, before: seq<Row>, after: seq<Row>)
    requires OnWatermark(markers, before)
    ensures MarkersSafe(markers, after) <==> Derived(before).messages <= Derived(after).messages
  {
  }

  // ---------------------------------------------------------------------------------------
  // Healing, and what a worker does with its watermark
  // ---------------------------------------------------------------------------------------

  /**
   * Whatever happened before, a refresh puts the compaction marker on the watermark. The proxy's
   * refresh is safe at once; after the pipeline's the flush marker may be ahead, exactly when it was
   * ahead of the rows.
   */
  lemma RefreshHealsIff(system: System, w: nat, clamps: bool)
    requires w < |system.workers|
    ensures var after := Next(system, Refresh(w, clamps)).workers[w];
            && after.compactedPrefixMessages == Derived(system.rows).messages
            && (MarkersSafe(after, system.rows) <==>
                clamps || system.workers[w].flushedPrefixMessages <= Derived(system.rows).messages)
  {
  }

  /** The markers of a worker after both refreshes, in either order. */
  ghost function RefreshedTwice(system: System, w: nat, clampsFirst: bool): EngineState
    requires w < |system.workers|
  {
    Next(Next(system, Refresh(w, clampsFirst)), Refresh(w, !clampsFirst)).workers[w]
  }

  /**
   * Both refreshes together, in either order, do what hydration does to these markers if and only if
   * the flush marker is not 0 under a positive watermark: only hydration disbelieves that. The order
   * does not matter, and the worker is then on the watermark.
   */
  lemma RefreshesAreHydrationIff(system: System, w: nat, clampsFirst: bool)
    requires w < |system.workers|
    ensures var before, mark := system.workers[w], Derived(system.rows);
            && (RefreshedTwice(system, w, clampsFirst) == Rederived(before, mark) <==> !(before.flushedPrefixMessages == 0 < mark.messages))
            && RefreshedTwice(system, w, clampsFirst) == RefreshedTwice(system, w, !clampsFirst)
            && OnWatermark(RefreshedTwice(system, w, clampsFirst), system.rows)
  {
  }

  /**
   * A flush lets the flush marker catch up: it becomes the higher of itself and the compaction
   * marker, and nothing else changes. Unless it was ahead, the window at the flush marker is then the
   * window at the compaction marker.
   */
  lemma FlushCatchesUp<T>(system: System, w: nat, conversation: seq<T>, turns: nat, cut: nat)
    requires w < |system.workers| && cut <= |conversation| && IsConversation(conversation, turns)
    ensures var before, after := system.workers[w], Next(system, Flush(w)).workers[w];
            && after.flushedPrefixMessages >= before.flushedPrefixMessages && after.flushedPrefixMessages >= before.compactedPrefixMessages
            && after.flushedPrefixMessages in {before.flushedPrefixMessages, before.compactedPrefixMessages}
            && after.(flushedPrefixMessages := before.flushedPrefixMessages) == before
            && (before.flushedPrefixMessages <= before.compactedPrefixMessages ==>
                  LeftToProcess(conversation, cut, after, turns, Some(after.flushedPrefixMessages))
                  == LeftToProcess(conversation, cut, before, turns, None))
  {
  }

  /**
   * What a step leaves alone: a worker step the rows and all other workers, a row step all workers.
   * The record of watermarks grows by the compaction marker of every restart and refresh, and by
   * nothing else.
   */
  lemma StepsAreLocal(system: System, step: Step)
    requires Possible(system, step)
    ensures var after := Next(system, step);
            && |after.workers| == |system.workers|
            && (after.rows != system.rows ==> !IsWorkerStep(step))
            && (forall v :: 0 <= v < |system.workers| && after.workers[v] != system.workers[v] ==> IsWorkerStep(step) && v == step.worker)
            && (if step.Restore? || step.Refresh? then after.restored == system.restored + [after.workers[step.worker].compactedPrefixMessages]
                else after.restored == system.restored)
  {
  }

  ghost predicate NoNegativeFlush(system: System) {
    forall w :: 0 <= w < |system.workers| ==> system.workers[w].flushedPrefixMessages >= 0 && system.workers[w].compactedPrefixMessages >= 0
  }

  /** Every restart of the run stands on the rows: no checkpoint prevails over an empty row set. */
  ghost predicate RestoresLand(system: System, steps: seq<Step>)
    requires AllPossible(system, steps)
    decreases |steps|
  {
    steps == [] ||
    ((steps[0].Restore? ==> Overridden(steps[0].cache, system.rows)) && RestoresLand(Next(system, steps[0]), steps[1..]))
  }

  /** A negative flush marker can only come out of a cache, whatever happens to the rows. */
  lemma {:induction false} RunKeepsNonNegative(system: System, steps: seq<Step>)
    requires NoNegativeFlush(system) && AllPossible(system, steps) && RestoresLand(system, steps)
    requires forall step :: step in steps && step.Restore? ==> FlushedIn(step.cache) >= 0
    ensures NoNegativeFlush(Run(system, steps))
    decreases |steps|
  {
    if steps != [] {
      assert steps[0] in steps;
      StepKeepsNonNegative(system, steps[0]);
      RunKeepsNonNegative(Next(system, steps[0]), steps[1..]);
    }
  }

  lemma StepKeepsNonNegative(system: System, step: Step)
    requires NoNegativeFlush(system) && Possible(system, step)
    requires step.Restore? ==> Overridden(step.cache, system.rows) && FlushedIn(step.cache) >= 0
    ensures NoNegativeFlush(Next(system, step))
  {
    if step.Restore? {
      RestoreLandsOnWatermarkIff(step.cache, system.rows);
    } else if !IsWorkerStep(step) {
      assert Next(system, step).workers == system.workers;
    }
  }

  /**
   * From rows to messages: when a worker whose markers are safe slices its window at its compaction
   * marker, or at an override no higher such as its flush marker (in the cases where slicing is
   * exact), every window message it skips belongs to a turn with no uncompacted row in it or in an
   * earlier turn.
   */
  lemma SkippedMessagesAreCompacted<T>(system: System, w: nat, conversation: seq<T>, turns: nat, k: nat, message: nat,
                                       watermark: Option<int>)
    requires w < |system.workers| && MarkersSafe(system.workers[w], system.rows)
    requires IsConversation(conversation, turns) && 2 * k <= |conversation|
    requires var ct := Boundary(system.workers[w], watermark);
             && 0 <= ct <= system.workers[w].compactedPrefixMessages && ct <= 2 * turns && ct % 2 == 0
             && (ct >= |conversation| - 2 * k || k == 0)
    requires 2 * k <= message < |conversation| - |LeftToProcess(conversation, 2 * k, system.workers[w], turns, watermark)|
    ensures !OpenUpTo(system.rows, message / 2)
  {
    WindowIsExactIff(conversation, turns, k, system.workers[w], watermark);
    WatermarkByRows(system.rows);
    assert message < Boundary(system.workers[w], watermark);
    assert message / 2 <= Derived(system.rows).lastTurn;
  }
}
