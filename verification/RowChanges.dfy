/**
 * What other workers do to the rows of a conversation, and exactly when each change lowers the
 * watermark: committing a compaction, undoing an abandoned one, re-saving a row, inserting a new
 * unnumbered row, and merging in the rows of another conversation.
 */
module RowChanges {
  import opened OrderedKeys
  import opened CanonicalRows
  import opened TurnGrouping
  import opened Watermark
  import opened TurnNumbers

  /** The change takes the watermark back behind a turn it used to cover. */
  ghost predicate Lowers(before: seq<Row>, after: seq<Row>) {
    Derived(after).lastTurn < Derived(before).lastTurn
  }

  // ---------------------------------------------------------------------------------------
  // Changes of stamps only
  // ---------------------------------------------------------------------------------------

  /** The same rows but for their tagging and compaction stamps. */
  ghost predicate Restamped(before: seq<Row>, after: seq<Row>) {
    && |before| == |after|
    && forall i :: 0 <= i < |before| ==>
         after[i] == before[i].(compactedAt := after[i].compactedAt, operation := after[i].operation, taggedAt := after[i].taggedAt)
  }

  lemma {:induction false} CountIgnoresStamps(before: seq<Row>, after: seq<Row>)
    requires Restamped(before, after)
    ensures TurnCount(before) == TurnCount(after)
  {
    if before != [] {
      CountIgnoresStamps(before[..|before| - 1], after[..|after| - 1]);
    }
  }

  lemma ExplicitIgnoresStamps(before: seq<Row>, after: seq<Row>)
    requires Restamped(before, after) && IsExplicit(before)
    ensures IsExplicit(after)
  {
    forall row | row in after ensures row.turnGroupNumber >= 0 {
      var i :| 0 <= i < |after| && after[i] == row;
      assert before[i] in before;
    }
  }

  lemma TurnBehindIgnoresStamps(before: seq<Row>, after: seq<Row>, i: nat)
    requires Restamped(before, after) && i < |before|
    ensures TurnBehind(before[..i], before[i]) == TurnBehind(after[..i], after[i])
  {
    CountIgnoresStamps(before[..i], after[..i]);
    assert Joins(before[..i], before[i]) <==> Joins(after[..i], after[i]);
  }

  /** Turn numbers do not depend on stamps. */
  lemma TurnsIgnoreStamps(before: seq<Row>, after: seq<Row>)
    requires Restamped(before, after)
    ensures IsExplicit(before) <==> IsExplicit(after)
    ensures forall i :: 0 <= i < |before| ==>
              (InTurn(before, i) <==> InTurn(after, i)) && TurnOf(before, i) == TurnOf(after, i)
  {
    if IsExplicit(before) {
      ExplicitIgnoresStamps(before, after);
    } else if IsExplicit(after) {
      ExplicitIgnoresStamps(after, before);
    } else {
      forall i | 0 <= i < |before| ensures TurnOf(before, i) == TurnOf(after, i) {
        TurnBehindIgnoresStamps(before, after, i);
      }
    }
  }

  lemma TurnsAreNatural(rows: seq<Row>, i: nat)
    requires i < |rows| && InTurn(rows, i)
    ensures TurnOf(rows, i) >= 0
  {
    if IsExplicit(rows) {
      assert rows[i] in rows;
    } else {
      TurnsGrow(rows, i, i);
    }
  }

  /** A change of stamps lowers the watermark exactly when it leaves a row of a covered turn uncompacted. */
  lemma RestampLowersIff(before: seq<Row>, after: seq<Row>)
    requires Restamped(before, after)
    ensures Lowers(before, after) <==> OpenUpTo(after, Derived(before).lastTurn)
  {
    var last := Derived(before).lastTurn;
    TurnsIgnoreStamps(before, after);
    WatermarkByRows(before);
    WatermarkByRows(after);
    if last == -1 {
      forall i | 0 <= i < |after| && InTurn(after, i) ensures TurnOf(after, i) >= 0 {
        TurnsAreNatural(after, i);
      }
    } else {
      var i :| 0 <= i < |before| && InTurn(before, i) && TurnOf(before, i) == last;
      assert InTurn(after, i) && TurnOf(after, i) == last;
      assert HasTurn(after, last);
      if OpenUpTo(after, last) && !Lowers(before, after) {
        OpenUpToGrows(after, last, Derived(after).lastTurn);
      }
    }
  }

  // ---- Commit ---------------------------------------------------------------------------

  /** A row is meant if its id is given, or if it shares its turn-group number with such a row. */
  predicate Meant(rows: seq<Row>, ids: set<string>, row: Row) {
    || row.canonicalTurnId in ids
    || (row.turnGroupNumber >= 0
        && exists other | other in rows :: other.canonicalTurnId in ids && other.turnGroupNumber == row.turnGroupNumber)
  }

  /** Marks rows compacted; a guarded commit also claims them for its operation. */
  function Committed(rows: seq<Row>, ids: set<string>, stamp: string, operation: string): (after: seq<Row>)
    requires stamp != ""
    ensures RowsAdvanced(rows, after)
  {
    seq(|rows|, i requires 0 <= i < |rows| =>
      if !Meant(rows, ids, rows[i]) then rows[i]
      else if operation == "" then rows[i].(compactedAt := stamp)
      else rows[i].(compactedAt := stamp, operation := operation))
  }

  /** Row `i` is given by its id, and row `j` is it or has the same turn-group number. */
  ghost predicate GivesRow(rows: seq<Row>, ids: set<string>, i: nat, j: nat)
    requires i < |rows| && j < |rows|
  {
    rows[i].canonicalTurnId in ids && (i == j || (rows[i].turnGroupNumber >= 0 && rows[i].turnGroupNumber == rows[j].turnGroupNumber))
  }

  /**
   * A commit marks exactly the rows of the numbered turns it is given one id of, and unnumbered rows
   * by their own id: no half of a turn stays behind, and nothing else changes. A guarded commit writes
   * its operation too, an unguarded one leaves it.
   */
  lemma CommitMarksWholeTurns(rows: seq<Row>, ids: set<string>, stamp: string, operation: string, j: nat)
    requires stamp != "" && j < |rows|
    ensures var after := Committed(rows, ids, stamp, operation)[j];
            if exists i :: 0 <= i < |rows| && GivesRow(rows, ids, i, j) then
              && after.compactedAt == stamp
              && after.operation == (if operation == "" then rows[j].operation else operation)
              && after.(compactedAt := rows[j].compactedAt, operation := rows[j].operation) == rows[j]
            else after == rows[j]
  {
    if i :| 0 <= i < |rows| && GivesRow(rows, ids, i, j) {
      assert rows[i] in rows;
      assert Meant(rows, ids, rows[j]);
    }
    if Meant(rows, ids, rows[j]) {
      if rows[j].canonicalTurnId in ids {
        assert GivesRow(rows, ids, j, j);
      } else {
        var other :| other in rows && other.canonicalTurnId in ids && other.turnGroupNumber == rows[j].turnGroupNumber;
        var i :| 0 <= i < |rows| && rows[i] == other;
        assert GivesRow(rows, ids, i, j);
      }
    }
  }

  // ---- Undoing an abandoned operation ---------------------------------------------------

  /** The takeover of a dead operation takes back the compaction of every row it has claimed. */
  function Abandoned(rows: seq<Row>, operation: string): (after: seq<Row>)
    ensures |after| == |rows|
  {
    seq(|rows|, i requires 0 <= i < |rows| =>
      if rows[i].operation == operation then rows[i].(compactedAt := "", operation := "") else rows[i])
  }

  /**
   * Abandoning an operation lowers the watermark exactly when a row it has claimed is in a covered
   * turn: when it committed part of its work and this joined the compacted prefix.
   */
  lemma AbandonLowersIff(rows: seq<Row>, operation: string)
    requires operation != ""
    ensures Lowers(rows, Abandoned(rows, operation)) <==>
            exists i :: 0 <= i < |rows| && InTurn(rows, i) && TurnOf(rows, i) <= Derived(rows).lastTurn && rows[i].operation == operation
  {
    var after := Abandoned(rows, operation);
    var last := Derived(rows).lastTurn;
    RestampLowersIff(rows, after);
    TurnsIgnoreStamps(rows, after);
    WatermarkByRows(rows);
    if OpenUpTo(after, last) {
      var i :| 0 <= i < |after| && InTurn(after, i) && TurnOf(after, i) <= last && !after[i].IsCompacted();
      assert InTurn(rows, i) && TurnOf(rows, i) <= last && rows[i].operation == operation;
    }
    if i :| 0 <= i < |rows| && InTurn(rows, i) && TurnOf(rows, i) <= last && rows[i].operation == operation {
      assert InTurn(after, i) && TurnOf(after, i) <= last && !after[i].IsCompacted();
    }
  }

  /** No row is claimed by this operation, and those the commit means are neither compacted nor claimed at all. */
  ghost predicate FreshFor(rows: seq<Row>, ids: set<string>, operation: string) {
    forall row :: row in rows ==>
      row.operation != operation && (Meant(rows, ids, row) ==> !row.IsCompacted() && row.operation == "")
  }

  /** Abandoning an operation takes back exactly what its commit did. */
  lemma AbandonUndoesCommit(rows: seq<Row>, ids: set<string>, stamp: string, operation: string)
    requires stamp != "" && operation != "" && FreshFor(rows, ids, operation)
    ensures Abandoned(Committed(rows, ids, stamp, operation), operation) == rows
  {
    var after := Abandoned(Committed(rows, ids, stamp, operation), operation);
    forall i | 0 <= i < |rows| ensures after[i] == rows[i] {
      assert rows[i] in rows;
    }
  }

  // ---- Saving a row back ----------------------------------------------------------------

  /** As long as nothing else changed, saving a row back sets a tag time and the compaction time read earlier. */
  function Retagged(rows: seq<Row>, k: nat, taggedAt: string, compactedAt: string): (after: seq<Row>)
    requires k < |rows|
    ensures |after| == |rows|
  {
    rows[k := rows[k].(taggedAt := taggedAt, compactedAt := compactedAt)]
  }

  /** That lowers the watermark exactly when it uncompacts a row of a covered turn. */
  lemma RetagLowersIff(rows: seq<Row>, k: nat, taggedAt: string, compactedAt: string)
    requires k < |rows|
    ensures Lowers(rows, Retagged(rows, k, taggedAt, compactedAt)) <==>
            InTurn(rows, k) && TurnOf(rows, k) <= Derived(rows).lastTurn && compactedAt == ""
  {
    var after := Retagged(rows, k, taggedAt, compactedAt);
    var last := Derived(rows).lastTurn;
    RestampLowersIff(rows, after);
    TurnsIgnoreStamps(rows, after);
    WatermarkByRows(rows);
    if OpenUpTo(after, last) {
      var i :| 0 <= i < |after| && InTurn(after, i) && TurnOf(after, i) <= last && !after[i].IsCompacted();
      assert InTurn(rows, i) && TurnOf(rows, i) <= last && rows[i].IsCompacted();
    }
    if InTurn(rows, k) && TurnOf(rows, k) <= last && compactedAt == "" {
      assert InTurn(after, k) && TurnOf(after, k) <= last && !after[k].IsCompacted();
    }
  }

  // ---------------------------------------------------------------------------------------
  // Changes that leave the rows all numbered
  // ---------------------------------------------------------------------------------------

  ghost predicate IsLowestAbove(rows: seq<Row>, last: int, n: int) {
    n in Numbers(rows) && n > last && forall row :: row in rows && row.turnGroupNumber > last ==> row.turnGroupNumber >= n
  }

  /** There is a number above `last`, and the rows with the lowest such number are all compacted. */
  ghost predicate NextIsCompacted(rows: seq<Row>, last: int) {
    exists n :: IsLowestAbove(rows, last, n) && forall row :: row in rows && row.turnGroupNumber == n ==> row.IsCompacted()
  }

  lemma LowestAboveExists(rows: seq<Row>, last: int, m: int) returns (n: int)
    requires m in Numbers(rows) && m > last
    ensures IsLowestAbove(rows, last, n) && n <= m
  {
    var above := set k | k in Numbers(rows) && k > last;
    assert m in above;
    n := MinOf(above);
    forall row | row in rows && row.turnGroupNumber > last ensures row.turnGroupNumber >= n {
      assert row.turnGroupNumber in above;
    }
  }

  /**
   * If the new rows are all numbered, the watermark is lower exactly when one of them is uncompacted
   * at or below the last covered number, or no row has that number any more and the turn that comes
   * next, if any, is not compacted.
   */
  lemma NumberedLowersIff(before: seq<Row>, after: seq<Row>)
    requires IsExplicit(after)
    ensures var last := Derived(before).lastTurn;
            Lowers(before, after) <==>
            last >= 0 && (!RowsCompactedUpTo(after, last) || (last !in Numbers(after) && !NextIsCompacted(after, last)))
  {
    var last := Derived(before).lastTurn;
    WatermarkByRows(before);
    ExplicitWatermarkByRows(after);
    if last >= 0 {
      ReachesIff(after, last);
    }
  }

  lemma ReachesIff(rows: seq<Row>, n: nat)
    requires IsExplicit(rows)
    ensures Derived(rows).lastTurn >= n <==> RowsCompactedUpTo(rows, n) && (n in Numbers(rows) || NextIsCompacted(rows, n))
  {
    var reached := Derived(rows).lastTurn;
    ExplicitWatermarkByRows(rows);
    if reached > n {
      var m := LowestAboveExists(rows, n, reached);
      assert forall row :: row in rows && row.turnGroupNumber == m ==> row.IsCompacted();
    }
    if RowsCompactedUpTo(rows, n) && NextIsCompacted(rows, n) {
      var m :| IsLowestAbove(rows, n, m) && forall row :: row in rows && row.turnGroupNumber == m ==> row.IsCompacted();
    }
  }

  /**
   * Removing numbered rows lowers the watermark exactly when no row with the last covered number is
   * kept, and the turn that comes next among the kept rows, if any, is not compacted.
   */
  lemma RemoveLowersIff(rows: seq<Row>, kept: seq<Row>)
    requires IsExplicit(rows) && forall row :: row in kept ==> row in rows
    ensures var last := Derived(rows).lastTurn;
            Lowers(rows, kept) <==> last >= 0 && last !in Numbers(kept) && !NextIsCompacted(kept, last)
  {
    ExplicitWatermarkByRows(rows);
    if kept == [] {
      WatermarkByRows(kept);
    } else {
      assert kept[0] in kept;
      assert IsExplicit(kept);
      NumberedLowersIff(rows, kept);
    }
  }

  /**
   * Saving a numbered row over a numbered row, with whatever contents, stamps and number, lowers the
   * watermark exactly when the new row is uncompacted at or below the last covered number, or the
   * last row with that number is gone and the turn that comes next, if any, is not compacted.
   */
  lemma ResaveLowersIff(rows: seq<Row>, p: nat, row: Row)
    requires p < |rows| && IsExplicit(rows) && row.turnGroupNumber >= 0
    ensures var last, after := Derived(rows).lastTurn, rows[p := row];
            Lowers(rows, after) <==>
            last >= 0 && ((!row.IsCompacted() && row.turnGroupNumber <= last) || (last !in Numbers(after) && !NextIsCompacted(after, last)))
  {
    var after := rows[p := row];
    ExplicitWatermarkByRows(rows);
    forall other ensures other in after ==> other == row || other in rows {
      if other in after {
        var i :| 0 <= i < |after| && after[i] == other;
        assert i != p ==> rows[i] == other;
      }
    }
    assert after[p] == row && row in after;
    assert IsExplicit(after);
    NumberedLowersIff(rows, after);
  }

  /** Inserting a numbered row into numbered rows, or into none: it is uncompacted in a covered turn. */
  lemma InsertNumberedLowersIff(rows: seq<Row>, p: nat, row: Row)
    requires p <= |rows| && IsExplicit(Inserted(rows, p, row))
    ensures Lowers(rows, Inserted(rows, p, row)) <==> !row.IsCompacted() && row.turnGroupNumber <= Derived(rows).lastTurn
  {
    var after, last := Inserted(rows, p, row), Derived(rows).lastTurn;
    NumberedLowersIff(rows, after);
    WatermarkByRows(rows);
    if last >= 0 {
      assert IsExplicit(rows);
      ExplicitWatermarkByRows(rows);
      assert last in Numbers(after) by {
        var other :| other in rows && other.turnGroupNumber == last;
        assert other in after;
      }
    }
  }

  // ---------------------------------------------------------------------------------------
  // Changes that leave the rows not all numbered
  // ---------------------------------------------------------------------------------------

  /** If inference divides the new rows, it does so without gaps, and that decides. */
  lemma InferenceLowersIff(before: seq<Row>, after: seq<Row>)
    requires !IsExplicit(after)
    ensures var last := Derived(before).lastTurn;
            Lowers(before, after) <==> last >= 0 && (TurnCount(after) <= last || OpenUpTo(after, last))
  {
    WatermarkByRows(before);
    WatermarkByRows(after);
    if Derived(before).lastTurn >= 0 {
      InferredHasTurnsTo(after);
      ShortOfGaplessIff(after, TurnCount(after), Derived(before).lastTurn);
    }
  }

  // ---- Inserting a row ------------------------------------------------------------------

  function Inserted(rows: seq<Row>, p: nat, row: Row): seq<Row>
    requires p <= |rows|
  {
    rows[..p] + [row] + rows[p..]
  }

  ghost predicate Waits(rows: seq<Row>) {
    rows != [] && rows[|rows| - 1].IsUserOnly()
  }

  /** At least as many turns, and one more if a user row waits at the end here but not there. */
  ghost predicate Ahead(longer: seq<Row>, shorter: seq<Row>) {
    TurnCount(longer) >= TurnCount(shorter) + (if Waits(longer) && !Waits(shorter) then 1 else 0)
  }

  lemma StaysAhead(longer: seq<Row>, shorter: seq<Row>, row: Row)
    requires Ahead(longer, shorter)
    ensures Ahead(longer + [row], shorter + [row])
  {
  }

  /** One more row in front never makes for fewer turns behind it. */
  lemma {:induction false} InsertingAddsTurns(x: seq<Row>, row: Row, y: seq<Row>)
    ensures Ahead(x + [row] + y, x + y)
  {
    if y == [] {
      assert x + [row] + y == x + [row] && x + y == x;
    } else {
      var front, last := y[..|y| - 1], y[|y| - 1];
      InsertingAddsTurns(x, row, front);
      StaysAhead(x + [row] + front, x + front, last);
      assert x + [row] + y == (x + [row] + front) + [last] && x + y == (x + front) + [last];
    }
  }

  lemma InsertingRaisesTurn(x: seq<Row>, row: Row, y: seq<Row>, other: Row)
    ensures TurnBehind(x + y, other) <= TurnBehind(x + [row] + y, other)
  {
    InsertingAddsTurns(x, row, y);
  }

  /** Behind an inserted row stand the old rows, in turns no lower than before. */
  lemma RowsBehindInsert(rows: seq<Row>, p: nat, row: Row, j: nat)
    requires p < j < |rows| + 1
    ensures Inserted(rows, p, row)[j] == rows[j - 1]
    ensures TurnBehind(rows[..j - 1], rows[j - 1]) <= TurnBehind(Inserted(rows, p, row)[..j], rows[j - 1])
  {
    var x, y := rows[..p], rows[p..j - 1];
    assert rows[..j - 1] == x + y;
    assert Inserted(rows, p, row)[..j] == x + [row] + y;
    InsertingRaisesTurn(x, row, y, rows[j - 1]);
  }

  /**
   * Inserting a row anywhere into rows that are grouped as if by inference, leaving them not all
   * numbered, lowers the watermark exactly when the row is neither blank nor compacted and the turn
   * it takes is a covered one.
   */
  lemma InsertLowersIff(rows: seq<Row>, p: nat, row: Row)
    requires p <= |rows| && GroupsAsInferred(rows) && !IsExplicit(Inserted(rows, p, row))
    ensures Lowers(rows, Inserted(rows, p, row)) <==>
            !row.IsBlank() && !row.IsCompacted() && TurnBehind(rows[..p], row) <= Derived(rows).lastTurn
  {
    var after, last := Inserted(rows, p, row), Derived(rows).lastTurn;
    InferenceLowersIff(rows, after);
    assert after[..p] == rows[..p] && after[p] == row;
    if !row.IsBlank() {
      TurnsGrow(after, p, p);
    }
    if !row.IsBlank() && !row.IsCompacted() && TurnBehind(rows[..p], row) <= last {
      assert InTurn(after, p) && TurnOf(after, p) <= last && !after[p].IsCompacted();
    } else {
      InsertKeepsCovered(rows, p, row);
    }
  }

  lemma InsertKeepsCovered(rows: seq<Row>, p: nat, row: Row)
    requires p <= |rows| && GroupsAsInferred(rows) && !IsExplicit(Inserted(rows, p, row))
    requires row.IsBlank() || row.IsCompacted() || Derived(rows).lastTurn < TurnBehind(rows[..p], row)
    ensures Derived(rows).lastTurn < TurnCount(Inserted(rows, p, row))
    ensures !OpenUpTo(Inserted(rows, p, row), Derived(rows).lastTurn)
  {
    var after, last := Inserted(rows, p, row), Derived(rows).lastTurn;
    InferredMark(rows);
    InsertingAddsTurns(rows[..p], row, rows[p..]);
    assert rows[..p] + rows[p..] == rows;
    forall j | 0 <= j < |after| && InTurn(after, j) && TurnOf(after, j) <= last ensures after[j].IsCompacted() {
      if j == p {
        assert after[..p] == rows[..p] && after[p] == row;
      } else {
        OldRowKeepsCovered(rows, p, row, j);
      }
    }
  }

  lemma OldRowKeepsCovered(rows: seq<Row>, p: nat, row: Row, j: nat)
    requires p <= |rows| && j < |rows| + 1 && j != p
    requires forall t :: 0 <= t <= Derived(rows).lastTurn ==> CompactedTurn(rows, t)
    requires var after := Inserted(rows, p, row);
             !after[j].IsBlank() && TurnBehind(after[..j], after[j]) <= Derived(rows).lastTurn
    ensures Inserted(rows, p, row)[j].IsCompacted()
  {
    var after := Inserted(rows, p, row);
    var i := if j < p then j else j - 1;
    if j < p {
      assert after[j] == rows[j] && after[..j] == rows[..j];
    } else {
      RowsBehindInsert(rows, p, row, j);
    }
    TurnsGrow(rows, i, i);
    assert CompactedTurn(rows, TurnBehind(rows[..i], rows[i]));
  }

  // ---- Merging in another conversation --------------------------------------------------

  /** Rows that move to another conversation lose their compaction time and keep their number. */
  function Reset(moved: seq<Row>): (reset: seq<Row>)
    ensures |reset| == |moved|
    ensures forall i :: 0 <= i < |moved| ==> reset[i] == moved[i].(compactedAt := "")
  {
    seq(|moved|, i requires 0 <= i < |moved| => moved[i].(compactedAt := ""))
  }

  /** Wherever their sort keys put them: `after` has the rows of both conversations. */
  ghost predicate MergesInto(rows: seq<Row>, moved: seq<Row>, after: seq<Row>) {
    multiset(after) == multiset(rows) + multiset(Reset(moved))
  }

  lemma MergedMembers(rows: seq<Row>, moved: seq<Row>, after: seq<Row>)
    requires MergesInto(rows, moved, after)
    ensures forall row :: row in after <==> row in rows || row in Reset(moved)
  {
    forall row ensures row in after <==> row in rows || row in Reset(moved) {
      assert row in after <==> row in multiset(after);
    }
  }

  /**
   * Merging numbered rows into numbered rows lowers the watermark exactly when a moved row has the
   * number of a covered turn or of one before it.
   */
  lemma MergeLowersIff(rows: seq<Row>, moved: seq<Row>, after: seq<Row>)
    requires MergesInto(rows, moved, after) && IsExplicit(after)
    ensures Lowers(rows, after) <==> exists row :: row in moved && row.turnGroupNumber <= Derived(rows).lastTurn
  {
    var last := Derived(rows).lastTurn;
    MergedMembers(rows, moved, after);
    WatermarkByRows(rows);
    ExplicitWatermarkByRows(after);
    if row :| row in moved && row.turnGroupNumber <= last {
      ResetMember(moved, row);
    } else if last >= 0 {
      MergeKeepsCovered(rows, moved, after);
    }
  }

  lemma ResetMember(moved: seq<Row>, row: Row)
    requires row in moved
    ensures row.(compactedAt := "") in Reset(moved)
  {
    var i :| 0 <= i < |moved| && moved[i] == row;
    assert Reset(moved)[i] in Reset(moved);
  }

  lemma MergeKeepsCovered(rows: seq<Row>, moved: seq<Row>, after: seq<Row>)
    requires MergesInto(rows, moved, after) && IsExplicit(after) && Derived(rows).lastTurn >= 0
    requires forall row :: row in moved ==> row.turnGroupNumber > Derived(rows).lastTurn
    ensures Derived(rows).lastTurn in Numbers(after) && RowsCompactedUpTo(after, Derived(rows).lastTurn)
  {
    var last := Derived(rows).lastTurn;
    MergedMembers(rows, moved, after);
    WatermarkByRows(rows);
    assert rows != [];
    assert IsExplicit(rows);
    ExplicitWatermarkByRows(rows);
    var row :| row in rows && row.turnGroupNumber == last;
    assert row in after;
  }
}
