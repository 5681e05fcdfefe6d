/**
 * The store's renumbering of a conversation after rows were written: one pass that gives every row
 * a turn-group number, blank rows included. How it relates to inference, and when it lowers the
 * watermark.
 */
module Renumbering {
  import opened CanonicalRows
  import opened TurnGrouping
  import opened Watermark
  import opened TurnNumbers
  import opened RowChanges

  /** How many numbers the pass gives out: as inference counts turns, but each blank row is one too. */
  ghost function NumberCount(rows: seq<Row>): nat {
    if rows == [] then 0
    else
      var front, row := rows[..|rows| - 1], rows[|rows| - 1];
      if Joins(front, row) then NumberCount(front) else NumberCount(front) + 1
  }

  ghost function NewNumber(rows: seq<Row>, i: nat): int
    requires i < |rows|
  {
    NumberCount(rows[..i + 1]) - 1
  }

  ghost function Renumbered(rows: seq<Row>): (after: seq<Row>)
    ensures |after| == |rows|
  {
    if rows == [] then []
    else
      var front, row := rows[..|rows| - 1], rows[|rows| - 1];
      Renumbered(front) + [row.(turnGroupNumber := NumberCount(rows) - 1)]
  }

  lemma {:induction false} RenumberedIs(rows: seq<Row>)
    ensures forall i :: 0 <= i < |rows| ==> Renumbered(rows)[i] == rows[i].(turnGroupNumber := NewNumber(rows, i))
  {
    if rows != [] {
      var front := rows[..|rows| - 1];
      RenumberedIs(front);
      forall i | 0 <= i < |rows| ensures Renumbered(rows)[i] == rows[i].(turnGroupNumber := NewNumber(rows, i)) {
        if i < |front| {
          assert front[..i + 1] == rows[..i + 1];
        } else {
          assert rows[..i + 1] == rows;
        }
      }
    }
  }

  /** The pass over the rows, with its current group and the group of a waiting user row, if any. */
  method RecomputeCanonicalTurnGroups(rows: seq<Row>) returns (after: seq<Row>)
    ensures after == Renumbered(rows)
  {
    after := [];
    var currentGroup, pendingUserGroup := -1, -1;
    for k := 0 to |rows|
      invariant after == Renumbered(rows[..k])
      invariant currentGroup == NumberCount(rows[..k]) - 1
      invariant pendingUserGroup == if Waits(rows[..k]) then currentGroup else -1
    {
      assert rows[..k + 1] == rows[..k] + [rows[k]];
      var number;
      number, currentGroup, pendingUserGroup := AssignGroup(rows[k], currentGroup, pendingUserGroup);
      after := after + [rows[k].(turnGroupNumber := number)];
    }
    assert rows[..|rows|] == rows;
  }

  /** The body of the pass: the number of one row, and what is current and pending after it. */
  method AssignGroup(row: Row, current: int, pending: int) returns (number: int, currentGroup: int, pendingUserGroup: int)
    requires pending == -1 || pending == current >= 0
    ensures number == currentGroup == if row.IsAssistantOnly() && pending >= 0 then current else current + 1
    ensures pendingUserGroup == if row.IsUserOnly() then currentGroup else -1
  {
    currentGroup, pendingUserGroup := current, pending;
    if row.HasUser() && row.HasAssistant() {
      currentGroup := currentGroup + 1;
      pendingUserGroup := -1;
      number := currentGroup;
    } else if row.HasUser() {
      currentGroup := currentGroup + 1;
      pendingUserGroup := currentGroup;
      number := currentGroup;
    } else if row.HasAssistant() {
      if pendingUserGroup >= 0 {
        number := pendingUserGroup;
        pendingUserGroup := -1;
      } else {
        currentGroup := currentGroup + 1;
        number := currentGroup;
      }
    } else {
      currentGroup := currentGroup + 1;
      pendingUserGroup := -1;
      number := currentGroup;
    }
  }

  lemma {:induction false} NumberCountGrows(rows: seq<Row>, i: nat, j: nat)
    requires i <= j <= |rows|
    ensures NumberCount(rows[..i]) <= NumberCount(rows[..j])
  {
    if i < j {
      NumberCountGrows(rows, i, j - 1);
      assert rows[..j] == rows[..j - 1] + [rows[j - 1]];
    }
  }

  lemma NewNumberRange(rows: seq<Row>, i: nat)
    requires i < |rows|
    ensures 0 <= NewNumber(rows, i) < NumberCount(rows)
  {
    NumberCountGrows(rows, i + 1, |rows|);
    assert rows[..|rows|] == rows;
  }

  lemma RenumberedIsExplicit(rows: seq<Row>)
    requires rows != []
    ensures IsExplicit(Renumbered(rows))
  {
    var after := Renumbered(rows);
    RenumberedIs(rows);
    assert after[0] in after;
    forall row | row in after ensures row.turnGroupNumber >= 0 {
      var i :| 0 <= i < |after| && after[i] == row;
      NewNumberRange(rows, i);
    }
  }

  lemma {:induction false} NumberIsGiven(rows: seq<Row>, n: nat) returns (i: nat)
    requires n < NumberCount(rows)
    ensures i < |rows| && NewNumber(rows, i) == n
  {
    var k := |rows| - 1;
    var front := rows[..k];
    if n < NumberCount(front) {
      i := NumberIsGiven(front, n);
      assert front[..i + 1] == rows[..i + 1];
    } else {
      i := k;
      assert rows[..k + 1] == rows;
    }
  }

  /** The new numbers have no gaps. */
  lemma RenumberedHasTurnsTo(rows: seq<Row>)
    requires rows != []
    ensures HasTurnsTo(Renumbered(rows), NumberCount(rows))
  {
    var after := Renumbered(rows);
    RenumberedIs(rows);
    RenumberedIsExplicit(rows);
    forall n ensures HasTurn(after, n) <==> 0 <= n < NumberCount(rows) {
      if 0 <= n < NumberCount(rows) {
        var i := NumberIsGiven(rows, n);
        assert InTurn(after, i) && TurnOf(after, i) == n;
      }
      if HasTurn(after, n) {
        var i :| 0 <= i < |after| && InTurn(after, i) && TurnOf(after, i) == n;
        NewNumberRange(rows, i);
      }
    }
  }

  // ---------------------------------------------------------------------------------------
  // Renumbering and inference
  // ---------------------------------------------------------------------------------------

  ghost predicate NoBlanks(rows: seq<Row>) {
    forall row :: row in rows ==> !row.IsBlank()
  }

  /** The pass gives out at least as many numbers as inference finds turns; blank rows make the difference. */
  lemma {:induction false} BlanksAddNumbers(rows: seq<Row>)
    ensures NumberCount(rows) >= TurnCount(rows)
    ensures NumberCount(rows) == TurnCount(rows) <==> NoBlanks(rows)
  {
    if rows != [] {
      var front, row := rows[..|rows| - 1], rows[|rows| - 1];
      BlanksAddNumbers(front);
      assert rows == front + [row];
      assert NoBlanks(rows) <==> NoBlanks(front) && !row.IsBlank();
    }
  }

  lemma {:induction false} CountIgnoresNumbers(before: seq<Row>, after: seq<Row>)
    requires |before| == |after|
    requires forall i :: 0 <= i < |before| ==> after[i] == before[i].(turnGroupNumber := after[i].turnGroupNumber)
    ensures TurnCount(before) == TurnCount(after) && NumberCount(before) == NumberCount(after)
  {
    if before != [] {
      CountIgnoresNumbers(before[..|before| - 1], after[..|after| - 1]);
    }
  }

  /** Inferred turns with each row's number written into it. */
  lemma {:induction false} StampedAppend(groups: seq<Group>, row: Row, joins: bool, n: int)
    requires NumberedFromZero(groups) && (joins ==> groups != []) && !row.IsBlank()
    requires n == if joins then |groups| - 1 else |groups|
    ensures Stamped(WithRow(groups, row, joins)) == WithRow(Stamped(groups), row.(turnGroupNumber := n), joins)
  {
    var a, b := Stamped(WithRow(groups, row, joins)), WithRow(Stamped(groups), row.(turnGroupNumber := n), joins);
    StampedIsStamped(groups);
    StampedIsStamped(WithRow(groups, row, joins));
    assert |a| == |b|;
    forall i | 0 <= i < |a| ensures a[i] == b[i] {
      assert a[i].rows == b[i].rows;
    }
  }

  lemma {:induction false} RenumberedInfers(rows: seq<Row>)
    requires NoBlanks(rows)
    ensures InferredGroups(Renumbered(rows)) == Stamped(InferredGroups(rows))
  {
    if rows != [] {
      var front, row := rows[..|rows| - 1], rows[|rows| - 1];
      assert rows == front + [row];
      RenumberedInfers(front);
      RenumberedInfersStep(front, row);
    }
  }

  lemma RenumberedInfersStep(rows: seq<Row>, row: Row)
    requires NoBlanks(rows) && !row.IsBlank()
    requires InferredGroups(Renumbered(rows)) == Stamped(InferredGroups(rows))
    ensures InferredGroups(Renumbered(rows + [row])) == Stamped(InferredGroups(rows + [row]))
  {
    var n := NumberCount(rows + [row]) - 1;
    var stamped := row.(turnGroupNumber := n);
    InferAppend(rows, row);
    InferAppend(Renumbered(rows), stamped);
    RenumberedJoins(rows, row, stamped);
    BlanksAddNumbers(rows);
    TurnCountIs(rows);
    InferenceKeepsEverything(rows);
    StampedAppend(InferredGroups(rows), row, Joins(rows, row), n);
  }

  lemma RenumberedJoins(rows: seq<Row>, row: Row, stamped: Row)
    requires stamped == row.(turnGroupNumber := stamped.turnGroupNumber)
    ensures Joins(Renumbered(rows), stamped) <==> Joins(rows, row)
  {
    RenumberedIs(rows);
  }

  lemma RenumberedNoBlanks(rows: seq<Row>)
    requires NoBlanks(rows)
    ensures NoBlanks(Renumbered(rows))
  {
    var after := Renumbered(rows);
    RenumberedIs(rows);
    forall row | row in after ensures !row.IsBlank() {
      var i :| 0 <= i < |after| && after[i] == row;
      assert rows[i] in rows;
    }
  }

  lemma BlankFreeRegroups(rows: seq<Row>)
    requires rows != [] && NoBlanks(rows)
    ensures Groups(Renumbered(rows)) == Stamped(InferredGroups(rows)) && GroupsAsInferred(Renumbered(rows))
  {
    var after := Renumbered(rows);
    RenumberedIsExplicit(rows);
    RenumberedInfers(rows);
    InferenceKeepsEverything(after);
    RenumberedNoBlanks(rows);
    AllNonBlank(after);
    StampedIsStamped(InferredGroups(rows));
    RegroupingNumbered(InferredGroups(after));
  }

  /**
   * Renumbering and inference agree on the turns exactly when there is no blank row: then, and only
   * then, grouping the renumbered rows gives the inferred turns with their numbers written in, and
   * the renumbered rows are grouped as if by inference.
   */
  lemma RenumberingIsInferenceIff(rows: seq<Row>)
    requires rows != []
    ensures Groups(Renumbered(rows)) == Stamped(InferredGroups(rows)) <==> NoBlanks(rows)
    ensures GroupsAsInferred(Renumbered(rows)) <==> NoBlanks(rows)
  {
    if NoBlanks(rows) {
      BlankFreeRegroups(rows);
    } else {
      BlanksRegroupOtherwise(rows);
    }
  }

  lemma BlanksRegroupOtherwise(rows: seq<Row>)
    requires rows != [] && !NoBlanks(rows)
    ensures Groups(Renumbered(rows)) != Stamped(InferredGroups(rows))
    ensures Groups(Renumbered(rows)) != InferredGroups(Renumbered(rows))
  {
    var after := Renumbered(rows);
    var group := HighestGroup(rows);
    RenumberedIs(rows);
    BlanksAddNumbers(rows);
    CountIgnoresNumbers(rows, after);
    InferredNumbersStop(rows, group);
    InferredNumbersStop(after, group);
    StampedIsStamped(InferredGroups(rows));
    InferenceKeepsEverything(rows);
    TurnCountIs(rows);
  }

  lemma InferredNumbersStop(rows: seq<Row>, group: Group)
    requires group.number >= TurnCount(rows)
    ensures group !in InferredGroups(rows)
  {
    TurnCountIs(rows);
    InferenceKeepsEverything(rows);
  }

  lemma HighestGroup(rows: seq<Row>) returns (group: Group)
    requires rows != []
    ensures group in Groups(Renumbered(rows)) && group.number == NumberCount(rows) - 1
  {
    var after := Renumbered(rows);
    RenumberedIs(rows);
    RenumberedIsExplicit(rows);
    var i := NumberIsGiven(rows, NumberCount(rows) - 1);
    assert after[i] in after;
    group := Group(after[i].turnGroupNumber, RowsOf(after, after[i].turnGroupNumber));
    ExplicitIsStablePartition(after);
  }

  lemma SameNewNumber(rows: seq<Row>, after: seq<Row>, i: nat)
    requires |after| == |rows| && i < |rows|
    requires forall k :: 0 <= k < |rows| ==> after[k] == rows[k].(turnGroupNumber := after[k].turnGroupNumber)
    ensures NewNumber(after, i) == NewNumber(rows, i)
  {
    CountIgnoresNumbers(rows[..i + 1], after[..i + 1]);
  }

  /** Renumbering renumbered rows changes nothing. */
  lemma {:induction false} RenumberingIsIdempotent(rows: seq<Row>)
    ensures Renumbered(Renumbered(rows)) == Renumbered(rows)
  {
    var after := Renumbered(rows);
    var again := Renumbered(after);
    RenumberedIs(rows);
    RenumberedIs(after);
    forall i | 0 <= i < |rows| ensures again[i] == after[i] {
      SameNewNumber(rows, after, i);
    }
  }

  // ---------------------------------------------------------------------------------------
  // Renumbering and the watermark
  // ---------------------------------------------------------------------------------------

  /** Some uncompacted row gets the number of a covered turn. */
  ghost predicate OpenRowGets(rows: seq<Row>, last: int) {
    exists i :: 0 <= i < |rows| && !rows[i].IsCompacted() && NewNumber(rows, i) <= last
  }

  /**
   * Renumbering lowers the watermark exactly when an uncompacted row gets the number of a turn that
   * was covered, or there are no longer that many numbers.
   */
  lemma RenumberLowersIff(rows: seq<Row>)
    ensures var last := Derived(rows).lastTurn;
            Lowers(rows, Renumbered(rows)) <==> OpenRowGets(rows, last) || NumberCount(rows) <= last
  {
    var after, last := Renumbered(rows), Derived(rows).lastTurn;
    WatermarkByRows(rows);
    WatermarkByRows(after);
    if last == -1 {
      forall i | 0 <= i < |rows| ensures NewNumber(rows, i) > last {
        NewNumberRange(rows, i);
      }
    } else {
      assert rows != [];
      RenumberedHasTurnsTo(rows);
      OpenAfterRenumbering(rows, last);
      ShortOfGaplessIff(after, NumberCount(rows), last);
    }
  }

  lemma OpenAfterRenumbering(rows: seq<Row>, last: int)
    requires rows != []
    ensures OpenUpTo(Renumbered(rows), last) <==> OpenRowGets(rows, last)
  {
    var after := Renumbered(rows);
    RenumberedIs(rows);
    RenumberedIsExplicit(rows);
    if i :| 0 <= i < |rows| && !rows[i].IsCompacted() && NewNumber(rows, i) <= last {
      assert InTurn(after, i) && TurnOf(after, i) <= last && !after[i].IsCompacted();
    }
    if i :| 0 <= i < |after| && InTurn(after, i) && TurnOf(after, i) <= last && !after[i].IsCompacted() {
      assert !rows[i].IsCompacted() && NewNumber(rows, i) <= last;
    }
  }

  /**
   * After rows were inserted, that is, from rows that are not all numbered, renumbering lowers the
   * watermark exactly when an uncompacted blank row gets the number of a covered turn. Without blank
   * rows it never does.
   */
  lemma RenumberAfterInsertLowersIff(rows: seq<Row>)
    requires !IsExplicit(rows)
    ensures var last := Derived(rows).lastTurn;
            Lowers(rows, Renumbered(rows)) <==>
            exists i :: 0 <= i < |rows| && rows[i].IsBlank() && !rows[i].IsCompacted() && NewNumber(rows, i) <= last
  {
    var last := Derived(rows).lastTurn;
    RenumberLowersIff(rows);
    WatermarkByRows(rows);
    InferredMark(rows);
    BlanksAddNumbers(rows);
    forall i | 0 <= i < |rows| && !rows[i].IsCompacted() && NewNumber(rows, i) <= last ensures rows[i].IsBlank() {
      if !rows[i].IsBlank() {
        OpenRowGetsLater(rows, i);
      }
    }
  }

  lemma OpenRowGetsLater(rows: seq<Row>, i: nat)
    requires !IsExplicit(rows) && i < |rows| && !rows[i].IsCompacted() && !rows[i].IsBlank()
    ensures NewNumber(rows, i) > Derived(rows).lastTurn
  {
    WatermarkByRows(rows);
    TurnIsLastSoFar(rows, i);
    BlanksAddNumbers(rows[..i + 1]);
    assert InTurn(rows, i) && TurnOf(rows, i) <= NewNumber(rows, i);
  }

  /** Without blank rows the new numbers are the inferred turns. */
  lemma NewNumberIsTurn(rows: seq<Row>, i: nat)
    requires NoBlanks(rows) && i < |rows|
    ensures NewNumber(rows, i) == TurnBehind(rows[..i], rows[i])
  {
    assert NoBlanks(rows[..i + 1]);
    BlanksAddNumbers(rows[..i + 1]);
    assert rows[i] in rows;
    TurnIsLastSoFar(rows, i);
  }

  /** Without blank rows, renumbering rows that were not all numbered leaves the watermark where it is. */
  lemma RenumberingKeepsWatermark(rows: seq<Row>)
    requires rows != [] && !IsExplicit(rows) && NoBlanks(rows)
    ensures Derived(Renumbered(rows)).lastTurn == Derived(rows).lastTurn
    ensures Derived(Renumbered(rows)).messages == Derived(rows).messages
  {
    var after := Renumbered(rows);
    RenumberedIs(rows);
    RenumberedIsExplicit(rows);
    forall i | 0 <= i < |rows|
      ensures InTurn(rows, i) && InTurn(after, i) && TurnOf(after, i) == TurnOf(rows, i)
      ensures after[i].IsCompacted() <==> rows[i].IsCompacted()
    {
      assert rows[i] in rows;
      NewNumberIsTurn(rows, i);
    }
    SameTurnsSameWatermark(rows, after);
  }

  lemma SameTurnsSameWatermark(before: seq<Row>, after: seq<Row>)
    requires |before| == |after|
    requires forall i :: 0 <= i < |before| ==> (InTurn(before, i) <==> InTurn(after, i)) && TurnOf(after, i) == TurnOf(before, i)
    requires forall i :: 0 <= i < |before| ==> (after[i].IsCompacted() <==> before[i].IsCompacted())
    ensures Derived(after) == Derived(before)
  {
    WatermarkByRows(before);
    WatermarkByRows(after);
    SameTurnsNotBehind(before, after);
    SameTurnsNotBehind(after, before);
  }

  lemma SameTurnsNotBehind(before: seq<Row>, after: seq<Row>)
    requires |before| == |after|
    requires forall i :: 0 <= i < |before| ==> (InTurn(before, i) <==> InTurn(after, i)) && TurnOf(after, i) == TurnOf(before, i)
    requires forall i :: 0 <= i < |before| ==> (after[i].IsCompacted() <==> before[i].IsCompacted())
    ensures Derived(before).lastTurn <= Derived(after).lastTurn
  {
    WatermarkByRows(before);
    WatermarkByRows(after);
    var last := Derived(before).lastTurn;
    if last >= 0 {
      var i :| 0 <= i < |before| && InTurn(before, i) && TurnOf(before, i) == last;
      assert InTurn(after, i) && TurnOf(after, i) == last;
      assert HasTurn(after, last);
      forall j | 0 <= j < |after| && InTurn(after, j) && TurnOf(after, j) <= last ensures after[j].IsCompacted() {
        assert InTurn(before, j) && TurnOf(before, j) <= last;
      }
    }
  }

  /**
   * What one ingested row does in the end: inserted without a number, then renumbered. In a
   * conversation without blank rows that was grouped as if by inference, the watermark is lowered
   * exactly when the row is uncompacted and takes a covered turn, and the rows are grouped as if by
   * inference again.
   */
  lemma IngestLowersIff(rows: seq<Row>, p: nat, row: Row)
    requires p <= |rows| && GroupsAsInferred(rows) && NoBlanks(rows) && !row.IsBlank() && row.turnGroupNumber < 0
    ensures var after := Renumbered(Inserted(rows, p, row));
            && (Lowers(rows, after) <==> !row.IsCompacted() && TurnBehind(rows[..p], row) <= Derived(rows).lastTurn)
            && GroupsAsInferred(after) && IsExplicit(after) && NoBlanks(after)
  {
    var inserted := Inserted(rows, p, row);
    assert inserted[p] == row && row in inserted;
    assert NoBlanks(inserted);
    InsertLowersIff(rows, p, row);
    RenumberingKeepsWatermark(inserted);
    RenumberingIsInferenceIff(inserted);
    RenumberedIsExplicit(inserted);
    RenumberedNoBlanks(inserted);
  }
}
