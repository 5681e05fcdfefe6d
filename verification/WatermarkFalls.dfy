/**
 * A run of one worker and one row in which the watermark falls: an operation commits, the worker
 * refreshes and flushes, and then the operation is taken back.
 */
module WatermarkFalls {
  import opened CanonicalRows
  import opened Watermark
  import opened RestoreSpec
  import opened TurnNumbers
  import opened RowChanges
  import opened Renumbering
  import opened CompactionProtocol

  lemma {:induction false} RunOn(system: System, steps: seq<Step>, step: Step)
    requires AllPossible(system, steps) && Possible(Run(system, steps), step)
    ensures AllPossible(system, steps + [step]) && Run(system, steps + [step]) == Next(Run(system, steps), step)
    decreases |steps|
  {
    if steps == [] {
      assert [] + [step] == [step] && [step][1..] == [];
    } else {
      assert (steps + [step])[1..] == steps[1..] + [step];
      RunOn(Next(system, steps[0]), steps[1..], step);
    }
  }

  /** A conversation of one numbered row has its one turn covered, or none. */
  lemma MarkOfOne(row: Row)
    requires row.turnGroupNumber == 0
    ensures Derived([row]) == if row.IsCompacted() then Mark(2, 0) else Mark(0, -1)
  {
    var rows := [row];
    assert row in rows;
    assert Numbers(rows) == {0};
    ExplicitWatermarkByRows(rows);
    assert row.IsCompacted() <==> RowsCompactedUpTo(rows, 0);
  }

  const START := System([], [FRESH_STATE], [])

  function WithNumber(row: Row): Row {
    row.(turnGroupNumber := 0)
  }

  /** The row is inserted, numbered, and compacted by the operation. */
  lemma RowSteps(row: Row, stamp: string, operation: string)
    requires row.turnGroupNumber < 0 && stamp != "" && operation != ""
    ensures var steps := [Insert(0, row)] + [Recompute] + [Commit({row.canonicalTurnId}, stamp, operation)];
            && AllPossible(START, steps)
            && Run(START, steps) == START.(rows := [WithNumber(row).(compactedAt := stamp, operation := operation)])
  {
    RunOn(START, [], Insert(0, row));
    assert [] + [Insert(0, row)] == [Insert(0, row)];
    RunOn(START, [Insert(0, row)], Recompute);
    RunOn(START, [Insert(0, row)] + [Recompute], Commit({row.canonicalTurnId}, stamp, operation));
    RenumberedOne(row);
    assert WithNumber(row) in [WithNumber(row)];
  }

  lemma RenumberedOne(row: Row)
    ensures Renumbered([row]) == [WithNumber(row)]
  {
    assert [row][..0] == [] && [row][..1] == [row];
    assert NumberCount([row]) == 1;
    RenumberedIs([row]);
    assert NewNumber([row], 0) == 0;
  }

  function Committing(row: Row, stamp: string, operation: string): seq<Step> {
    [Insert(0, row)] + [Recompute] + [Commit({row.canonicalTurnId}, stamp, operation)] + [Refresh(0, false)] + [Flush(0)]
  }

  /** The worker is up to date, with both message markers on the watermark. */
  lemma UpToDate(row: Row, stamp: string, operation: string)
    requires row.turnGroupNumber < 0 && stamp != "" && operation != ""
    ensures var steps := Committing(row, stamp, operation);
            && AllPossible(START, steps)
            && var system := Run(START, steps);
               && system.rows == [WithNumber(row).(compactedAt := stamp, operation := operation)]
               && system.workers == [FRESH_STATE.(compactedPrefixMessages := 2, flushedPrefixMessages := 2, lastCompactedTurn := 0)]
               && Derived(system.rows) == Mark(2, 0)
  {
    var steps := [Insert(0, row)] + [Recompute] + [Commit({row.canonicalTurnId}, stamp, operation)];
    RowSteps(row, stamp, operation);
    MarkOfOne(WithNumber(row).(compactedAt := stamp, operation := operation));
    RunOn(START, steps, Refresh(0, false));
    RunOn(START, steps + [Refresh(0, false)], Flush(0));
  }

  /**
   * The run goes on: taking the operation back lowers the watermark to 0 while both markers of the
   * worker stay at 2; the pipeline's refresh then lowers the compaction marker and leaves the flush
   * marker at 2; the proxy's would lower both.
   */
  lemma TakeoverLeavesWorkerAhead(row: Row, stamp: string, operation: string)
    requires row.turnGroupNumber < 0 && stamp != "" && operation != ""
    ensures var stranded := Committing(row, stamp, operation) + [Abandon(operation)];
            && AllPossible(START, stranded)
            && Derived(Run(START, stranded).rows) == Mark(0, -1)
            && Run(START, stranded).workers == [FRESH_STATE.(compactedPrefixMessages := 2, flushedPrefixMessages := 2, lastCompactedTurn := 0)]
    ensures var refreshed := Committing(row, stamp, operation) + [Abandon(operation)] + [Refresh(0, false)];
            && AllPossible(START, refreshed)
            && Run(START, refreshed).workers == [FRESH_STATE.(compactedPrefixMessages := 0, flushedPrefixMessages := 2, lastCompactedTurn := -1)]
    ensures var clamped := Committing(row, stamp, operation) + [Abandon(operation)] + [Refresh(0, true)];
            && AllPossible(START, clamped)
            && Run(START, clamped).workers == [FRESH_STATE.(compactedPrefixMessages := 0, flushedPrefixMessages := 0, lastCompactedTurn := 0)]
  {
    var steps := Committing(row, stamp, operation);
    UpToDate(row, stamp, operation);
    MarkOfOne(WithNumber(row).(compactedAt := "", operation := ""));
    RunOn(START, steps, Abandon(operation));
    assert Run(START, steps + [Abandon(operation)]).rows == [WithNumber(row).(compactedAt := "", operation := "")];
    RunOn(START, steps + [Abandon(operation)], Refresh(0, false));
    RunOn(START, steps + [Abandon(operation)], Refresh(0, true));
  }
}
