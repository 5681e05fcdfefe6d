/**
 * Turn numbers row by row: which turn each row belongs to under either way of grouping, and the
 * watermark read off rows and numbers without building a group.
 */
module TurnNumbers {
  import opened OrderedKeys
  import opened CanonicalRows
  import opened TurnGrouping
  import opened Watermark

  // ---------------------------------------------------------------------------------------
  // Counting inferred turns
  // ---------------------------------------------------------------------------------------

  /** How many turns inference finds in the rows. */
  ghost function TurnCount(rows: seq<Row>): nat {
    if rows == [] then 0
    else
      var front, row := rows[..|rows| - 1], rows[|rows| - 1];
      if row.IsBlank() || Joins(front, row) then TurnCount(front) else TurnCount(front) + 1
  }

  /** The number of the turn that a row takes behind the rows before it. */
  ghost function TurnBehind(before: seq<Row>, row: Row): int {
    if Joins(before, row) then TurnCount(before) - 1 else TurnCount(before)
  }

  /** A user row at the end is a turn of its own, so an answer has one to join. */
  lemma WaitingHasTurn(rows: seq<Row>)
    requires rows != [] && rows[|rows| - 1].IsUserOnly()
    ensures TurnCount(rows) > 0
  {}

  lemma {:induction false} TurnCountIs(rows: seq<Row>)
    ensures |InferredGroups(rows)| == TurnCount(rows)
  {
    if rows != [] {
      var n := |rows| - 1;
      TurnCountIs(rows[..n]);
      assert rows == rows[..n] + [rows[n]];
      InferAppend(rows[..n], rows[n]);
    }
  }

  lemma {:induction false} TurnCountGrows(rows: seq<Row>, i: nat, j: nat)
    requires i <= j <= |rows|
    ensures TurnCount(rows[..i]) <= TurnCount(rows[..j])
  {
    if i < j {
      TurnCountGrows(rows, i, j - 1);
      assert rows[..j] == rows[..j - 1] + [rows[j - 1]];
    }
  }

  /** A row belongs to the last turn of the rows up to and including it. */
  lemma TurnIsLastSoFar(rows: seq<Row>, i: nat)
    requires i < |rows| && !rows[i].IsBlank()
    ensures 0 <= TurnBehind(rows[..i], rows[i]) == TurnCount(rows[..i + 1]) - 1
  {
    assert rows[..i + 1] == rows[..i] + [rows[i]];
    if Joins(rows[..i], rows[i]) {
      WaitingHasTurn(rows[..i]);
    }
  }

  /** Turn numbers never decrease along the rows, and stay below the number of turns. */
  lemma TurnsGrow(rows: seq<Row>, i: nat, j: nat)
    requires i <= j < |rows| && !rows[i].IsBlank() && !rows[j].IsBlank()
    ensures 0 <= TurnBehind(rows[..i], rows[i]) <= TurnBehind(rows[..j], rows[j]) < TurnCount(rows)
  {
    TurnIsLastSoFar(rows, i);
    TurnIsLastSoFar(rows, j);
    TurnCountGrows(rows, i + 1, j + 1);
    TurnCountGrows(rows, j + 1, |rows|);
    assert rows[..|rows|] == rows;
  }

  // ---------------------------------------------------------------------------------------
  // The turn of each row, whichever way the rows are grouped
  // ---------------------------------------------------------------------------------------

  /** Inference passes over blank rows; grouping by number does not. */
  ghost predicate InTurn(rows: seq<Row>, i: nat)
    requires i < |rows|
  {
    IsExplicit(rows) || !rows[i].IsBlank()
  }

  ghost function TurnOf(rows: seq<Row>, i: nat): int
    requires i < |rows|
  {
    if IsExplicit(rows) then rows[i].turnGroupNumber else TurnBehind(rows[..i], rows[i])
  }

  /** Some row in a turn numbered at most `n` is not compacted. */
  ghost predicate OpenUpTo(rows: seq<Row>, n: int) {
    exists i :: 0 <= i < |rows| && InTurn(rows, i) && TurnOf(rows, i) <= n && !rows[i].IsCompacted()
  }

  /** Some turn is numbered `n`. */
  ghost predicate HasTurn(rows: seq<Row>, n: int) {
    exists i :: 0 <= i < |rows| && InTurn(rows, i) && TurnOf(rows, i) == n
  }

  /** The rows of inferred turn `t` are the non-blank rows with that turn number. */
  ghost predicate CompactedTurn(rows: seq<Row>, t: int) {
    forall i :: 0 <= i < |rows| && !rows[i].IsBlank() && TurnBehind(rows[..i], rows[i]) == t ==> rows[i].IsCompacted()
  }

  lemma CompactedTurnAppend(rows: seq<Row>, row: Row, t: int)
    ensures CompactedTurn(rows + [row], t) <==>
            CompactedTurn(rows, t) && (!row.IsBlank() && TurnBehind(rows, row) == t ==> row.IsCompacted())
  {
    var longer := rows + [row];
    assert longer[..|rows|] == rows && longer[|rows|] == row;
    assert forall i :: 0 <= i < |rows| ==> longer[..i] == rows[..i] && longer[i] == rows[i];
  }

  lemma {:induction false} InferredTurnIs(rows: seq<Row>, t: nat)
    requires t < TurnCount(rows)
    ensures |InferredGroups(rows)| == TurnCount(rows)
    ensures FullyCompacted(InferredGroups(rows)[t]) <==> CompactedTurn(rows, t)
  {
    TurnCountIs(rows);
    var n := |rows| - 1;
    var front, row := rows[..n], rows[n];
    assert rows == front + [row];
    TurnCountIs(front);
    InferAppend(front, row);
    CompactedTurnAppend(front, row, t);
    if t < TurnCount(front) {
      InferredTurnIs(front, t);
      InferenceKeepsEverything(front);
      assert IsTurn(InferredGroups(front)[t].rows);
      if Joins(front, row) && t == TurnCount(front) - 1 {
        JoinedCompacted(InferredGroups(front)[t], InferredGroups(rows)[t], row);
      }
    } else {
      NoTurnBeyond(front, t);
    }
  }

  lemma NoTurnBeyond(rows: seq<Row>, t: int)
    requires t >= TurnCount(rows)
    ensures CompactedTurn(rows, t)
  {
    forall i | 0 <= i < |rows| && !rows[i].IsBlank() ensures TurnBehind(rows[..i], rows[i]) != t {
      TurnsGrow(rows, i, i);
    }
  }

  lemma {:induction false} TurnHasRow(rows: seq<Row>, t: nat) returns (i: nat)
    requires t < TurnCount(rows)
    ensures i < |rows| && !rows[i].IsBlank() && TurnBehind(rows[..i], rows[i]) == t
  {
    var n := |rows| - 1;
    var front := rows[..n];
    if t < TurnCount(front) {
      i := TurnHasRow(front, t);
      assert front[..i] == rows[..i];
    } else {
      i := n;
    }
  }

  // ---------------------------------------------------------------------------------------
  // The watermark by rows
  // ---------------------------------------------------------------------------------------

  ghost predicate IsLastCovered(rows: seq<Row>, mark: Mark) {
    && mark.lastTurn >= -1 && mark.messages == 2 * (mark.lastTurn + 1)
    && (mark.lastTurn == -1 || HasTurn(rows, mark.lastTurn)) && !OpenUpTo(rows, mark.lastTurn)
    && forall n :: HasTurn(rows, n) && !OpenUpTo(rows, n) ==> n <= mark.lastTurn
  }

  /**
   * However the rows are grouped, the last covered turn is the highest one such that no row in it
   * or in an earlier turn is uncompacted.
   */
  lemma WatermarkByRows(rows: seq<Row>)
    ensures var last := Derived(rows).lastTurn;
            && last >= -1 && Derived(rows).messages == 2 * (last + 1)
            && (last == -1 || HasTurn(rows, last)) && !OpenUpTo(rows, last)
            && forall n :: HasTurn(rows, n) && !OpenUpTo(rows, n) ==> n <= last
  {
    if IsExplicit(rows) {
      ExplicitByRows(rows);
    } else {
      InferredByRows(rows);
    }
  }

  lemma ExplicitByRows(rows: seq<Row>)
    requires IsExplicit(rows)
    ensures IsLastCovered(rows, Derived(rows))
  {
    ExplicitWatermarkByRows(rows);
    var last := Derived(rows).lastTurn;
    assert forall i :: 0 <= i < |rows| ==> rows[i] in rows;
    if last != -1 {
      var row :| row in rows && row.turnGroupNumber == last;
      var i :| 0 <= i < |rows| && rows[i] == row;
      assert InTurn(rows, i) && TurnOf(rows, i) == last;
    }
    forall n | HasTurn(rows, n) && !OpenUpTo(rows, n) ensures n <= last {
      forall row | row in rows && row.turnGroupNumber <= n ensures row.IsCompacted() {
        var i :| 0 <= i < |rows| && rows[i] == row;
        assert InTurn(rows, i) && TurnOf(rows, i) <= n;
      }
      assert RowsCompactedUpTo(rows, n) && n in Numbers(rows);
    }
  }

  /** What inference alone says, whether or not the rows are numbered. */
  lemma InferredMark(rows: seq<Row>)
    ensures var last := WatermarkOf(InferredGroups(rows)).lastTurn;
            && -1 <= last < TurnCount(rows)
            && (forall t :: 0 <= t <= last ==> CompactedTurn(rows, t))
            && (last + 1 < TurnCount(rows) ==> !CompactedTurn(rows, last + 1))
  {
    var groups := InferredGroups(rows);
    var k := PrefixLength(groups);
    InferenceKeepsEverything(rows);
    PrefixLengthIs(groups);
    TurnCountIs(rows);
    forall t | 0 <= t < k ensures CompactedTurn(rows, t) {
      InferredTurnIs(rows, t);
    }
    if k < TurnCount(rows) {
      InferredTurnIs(rows, k);
    }
  }

  lemma InferredByRows(rows: seq<Row>)
    requires !IsExplicit(rows)
    ensures IsLastCovered(rows, Derived(rows))
  {
    var last := Derived(rows).lastTurn;
    InferredMark(rows);
    if last >= 0 {
      var i := TurnHasRow(rows, last);
      assert InTurn(rows, i) && TurnOf(rows, i) == last;
    }
    forall i | 0 <= i < |rows| && InTurn(rows, i) && TurnOf(rows, i) <= last ensures rows[i].IsCompacted() {
      TurnsGrow(rows, i, i);
      assert CompactedTurn(rows, TurnOf(rows, i));
    }
    forall n | HasTurn(rows, n) && !OpenUpTo(rows, n) ensures n <= last {
      if last < n {
        OpenBehindLast(rows, n);
      }
    }
  }

  lemma OpenBehindLast(rows: seq<Row>, n: int)
    requires !IsExplicit(rows) && HasTurn(rows, n) && Derived(rows).lastTurn < n
    ensures OpenUpTo(rows, n)
  {
    var last := Derived(rows).lastTurn;
    InferredMark(rows);
    var i :| 0 <= i < |rows| && InTurn(rows, i) && TurnOf(rows, i) == n;
    TurnsGrow(rows, i, i);
    assert !CompactedTurn(rows, last + 1);
    var j :| 0 <= j < |rows| && !rows[j].IsBlank() && TurnBehind(rows[..j], rows[j]) == last + 1 && !rows[j].IsCompacted();
    assert InTurn(rows, j) && TurnOf(rows, j) <= n;
  }

  lemma OpenUpToGrows(rows: seq<Row>, n: int, m: int)
    requires n <= m && OpenUpTo(rows, n)
    ensures OpenUpTo(rows, m)
  {
    var i :| 0 <= i < |rows| && InTurn(rows, i) && TurnOf(rows, i) <= n && !rows[i].IsCompacted();
    assert TurnOf(rows, i) <= m;
  }

  /** The watermark of some rows is short of turn `n` exactly when no turn from `n` on is reached. */
  lemma ShortOfIff(rows: seq<Row>, n: int)
    requires n >= 0
    ensures Derived(rows).lastTurn < n <==> forall m :: m >= n && HasTurn(rows, m) ==> OpenUpTo(rows, m)
  {
    WatermarkByRows(rows);
  }

  /** Turns numbered without gaps. */
  ghost predicate HasTurnsTo(rows: seq<Row>, count: nat) {
    forall n :: HasTurn(rows, n) <==> 0 <= n < count
  }

  lemma ShortOfGaplessIff(rows: seq<Row>, count: nat, n: int)
    requires n >= 0 && HasTurnsTo(rows, count)
    ensures Derived(rows).lastTurn < n <==> count <= n || OpenUpTo(rows, n)
  {
    ShortOfIff(rows, n);
    assert HasTurn(rows, n) <==> n < count;
  }

  lemma InferredHasTurnsTo(rows: seq<Row>)
    requires !IsExplicit(rows)
    ensures HasTurnsTo(rows, TurnCount(rows))
  {
    forall n ensures HasTurn(rows, n) <==> 0 <= n < TurnCount(rows) {
      if 0 <= n < TurnCount(rows) {
        var i := TurnHasRow(rows, n);
        assert InTurn(rows, i) && TurnOf(rows, i) == n;
      }
      if HasTurn(rows, n) {
        var i :| 0 <= i < |rows| && InTurn(rows, i) && TurnOf(rows, i) == n;
        TurnsGrow(rows, i, i);
      }
    }
  }
}
