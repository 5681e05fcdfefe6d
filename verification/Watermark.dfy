/**
 * The compaction watermark: how many messages at the front of a conversation are compacted, as
 * derived from the canonical rows, and how it moves when rows are committed or appended.
 */
module Watermark {
  import opened OrderedKeys
  import opened CanonicalRows
  import opened TurnGrouping

  /** A message count, and the number of the last turn it covers (-1 for none). */
  datatype Mark = Mark(messages: int, lastTurn: int)

  predicate FullyCompacted(group: Group) {
    group.rows != [] && forall row | row in group.rows :: row.IsCompacted()
  }

  /** How many groups at the front are fully compacted. */
  ghost function PrefixLength(groups: seq<Group>): (k: nat)
    ensures k <= |groups|
  {
    if groups == [] || !FullyCompacted(groups[0]) then 0 else 1 + PrefixLength(groups[1..])
  }

  /** The prefix length is the number `k` with the first `k` groups fully compacted and no more. */
  ghost predicate IsPrefixLength(groups: seq<Group>, k: nat) {
    && k <= |groups|
    && (forall i :: 0 <= i < k ==> FullyCompacted(groups[i]))
    && (k < |groups| ==> !FullyCompacted(groups[k]))
  }

  lemma {:induction false} PrefixLengthIs(groups: seq<Group>)
    ensures IsPrefixLength(groups, PrefixLength(groups))
  {
    if groups != [] && FullyCompacted(groups[0]) {
      PrefixLengthIs(groups[1..]);
      var k := PrefixLength(groups[1..]);
      forall i | 0 <= i < k + 1 ensures FullyCompacted(groups[i]) {
        assert i > 0 ==> groups[i] == groups[1..][i - 1];
      }
    }
  }

  ghost function LastPrefixTurn(groups: seq<Group>): int {
    var k := PrefixLength(groups);
    if k == 0 then -1 else groups[k - 1].number
  }

  ghost function WatermarkOf(groups: seq<Group>): Mark {
    var last := LastPrefixTurn(groups);
    if last < 0 then Mark(0, -1) else Mark((last + 1) * 2, last)
  }

  /** The watermark derived from the rows of a conversation. */
  ghost function Derived(rows: seq<Row>): Mark {
    WatermarkOf(Groups(rows))
  }

  method CanonicalPrefixWatermark(pairedRows: seq<Group>) returns (mark: Mark)
    ensures mark == WatermarkOf(pairedRows)
  {
    var lastPrefixTurn := -1;
    assert pairedRows[0..] == pairedRows;
    for i := 0 to |pairedRows|
      invariant PrefixLength(pairedRows) == i + PrefixLength(pairedRows[i..])
      invariant lastPrefixTurn == if i == 0 then -1 else pairedRows[i - 1].number
    {
      assert pairedRows[i..][0] == pairedRows[i] && pairedRows[i..][1..] == pairedRows[i + 1..];
      if FullyCompacted(pairedRows[i]) {
        lastPrefixTurn := pairedRows[i].number;
        continue;
      }
      break;
    }
    if lastPrefixTurn < 0 {
      return Mark(0, -1);
    }
    return Mark((lastPrefixTurn + 1) * 2, lastPrefixTurn);
  }

  // ---------------------------------------------------------------------------------------
  // What the watermark means
  // ---------------------------------------------------------------------------------------

  ghost predicate WellNumbered(groups: seq<Group>) {
    && StrictlyNumbered(groups)
    && forall i :: 0 <= i < |groups| ==> groups[i].number >= 0 && groups[i].rows != []
  }

  /** Both branches of grouping give non-empty groups with strictly increasing numbers. */
  lemma GroupsAreWellNumbered(rows: seq<Row>)
    ensures WellNumbered(Groups(rows))
  {
    if IsExplicit(rows) {
      ExplicitIsStablePartition(rows);
      var groups := ExplicitGroups(rows);
      forall i | 0 <= i < |groups| ensures groups[i].number >= 0 && groups[i].rows != [] {
        assert groups[i] in groups;
        var row :| row in rows && row.turnGroupNumber == groups[i].number;
        RowsOfMembers(rows, groups[i].number, row);
      }
    } else {
      InferenceKeepsEverything(rows);
    }
  }

  lemma {:induction false} RowsOfMembers(rows: seq<Row>, n: int, row: Row)
    ensures row in RowsOf(rows, n) <==> row in rows && row.turnGroupNumber == n
  {
    if rows != [] {
      RowsOfMembers(rows[1..], n, row);
      assert rows == [rows[0]] + rows[1..];
    }
  }

  /** The turn numbered `n` and every lower one are compacted in all their rows. */
  ghost predicate CompactedUpTo(groups: seq<Group>, n: int) {
    forall group :: group in groups && group.number <= n ==> FullyCompacted(group)
  }

  /**
   * The watermark is the longest fully compacted prefix: it is even, covers up to an existing turn
   * or nothing, and a turn lies below it exactly when it and every earlier turn is compacted.
   */
  lemma WatermarkIsMaximalPrefix(groups: seq<Group>)
    requires WellNumbered(groups)
    ensures var mark := WatermarkOf(groups);
            && mark.messages == 2 * (mark.lastTurn + 1) >= 0
            && (mark.lastTurn == -1 || exists group :: group in groups && group.number == mark.lastTurn)
            && forall group :: group in groups ==> (2 * group.number < mark.messages <==> CompactedUpTo(groups, group.number))
  {
    var k := PrefixLength(groups);
    var mark := WatermarkOf(groups);
    PrefixLengthIs(groups);
    if k > 0 {
      assert groups[k - 1] in groups;
    }
    forall group | group in groups
      ensures 2 * group.number < mark.messages <==> CompactedUpTo(groups, group.number)
    {
      var i :| 0 <= i < |groups| && groups[i] == group;
      if i < k {
        assert i < k - 1 ==> groups[i].number < groups[k - 1].number;
        forall other | other in groups && other.number <= group.number ensures FullyCompacted(other) {
          var j :| 0 <= j < |groups| && groups[j] == other;
          assert j <= i;
        }
      } else {
        assert groups[k] in groups;
        assert k < i ==> groups[k].number < groups[i].number;
        assert k > 0 ==> groups[k - 1].number < groups[i].number;
      }
    }
  }

  // ---------------------------------------------------------------------------------------
  // Committing a compaction
  // ---------------------------------------------------------------------------------------

  /** The same row, possibly claimed by another operation and compacted where it was not before. */
  ghost predicate RowAdvanced(before: Row, after: Row) {
    && after == before.(compactedAt := after.compactedAt, operation := after.operation)
    && (before.IsCompacted() ==> after.IsCompacted())
  }

  ghost predicate RowsAdvanced(before: seq<Row>, after: seq<Row>) {
    |before| == |after| && forall i :: 0 <= i < |before| ==> RowAdvanced(before[i], after[i])
  }

  ghost predicate GroupsAdvanced(before: seq<Group>, after: seq<Group>) {
    && |before| == |after|
    && forall i :: 0 <= i < |before| ==> before[i].number == after[i].number && RowsAdvanced(before[i].rows, after[i].rows)
  }

  lemma {:induction false} RowsOfAdvanced(before: seq<Row>, after: seq<Row>, n: int)
    requires RowsAdvanced(before, after)
    ensures RowsAdvanced(RowsOf(before, n), RowsOf(after, n))
  {
    if before != [] {
      RowsOfAdvanced(before[1..], after[1..], n);
      assert RowAdvanced(before[0], after[0]);
    }
  }

  lemma AdvancedConcat(a: seq<Group>, b: seq<Group>, c: seq<Group>, d: seq<Group>)
    requires GroupsAdvanced(a, b) && GroupsAdvanced(c, d)
    ensures GroupsAdvanced(a + c, b + d)
  {
  }

  lemma ClosedAdvanced(before: Row, after: Row, next: nat, p: seq<Row>, q: seq<Row>)
    requires RowAdvanced(before, after) && RowsAdvanced(p, q)
    ensures GroupsAdvanced(Closed(before, next, p), Closed(after, next, q))
    ensures RowsAdvanced(Held(before), Held(after))
  {
  }

  lemma {:induction false} PairingAdvanced(before: seq<Row>, after: seq<Row>)
    requires RowsAdvanced(before, after)
    ensures GroupsAdvanced(PairAll(before).groups, PairAll(after).groups)
    ensures RowsAdvanced(PairAll(before).pending, PairAll(after).pending)
  {
    if before != [] {
      var n := |before| - 1;
      var p, q := PairAll(before[..n]), PairAll(after[..n]);
      PairingAdvanced(before[..n], after[..n]);
      assert RowAdvanced(before[n], after[n]);
      ClosedAdvanced(before[n], after[n], |p.groups|, p.pending, q.pending);
      AdvancedConcat(p.groups, q.groups, Closed(before[n], |p.groups|, p.pending), Closed(after[n], |p.groups|, q.pending));
    }
  }

  lemma InferAdvanced(before: seq<Row>, after: seq<Row>)
    requires RowsAdvanced(before, after)
    ensures GroupsAdvanced(InferredGroups(before), InferredGroups(after))
  {
    PairingAdvanced(before, after);
    var p, q := PairAll(before), PairAll(after);
    AdvancedConcat(p.groups, q.groups, Flush(|p.groups|, p.pending), Flush(|q.groups|, q.pending));
  }

  lemma {:induction false} ItemsAdvanced(before: map<int, seq<Row>>, after: map<int, seq<Row>>)
    requires before.Keys == after.Keys
    requires forall n :: n in before ==> RowsAdvanced(before[n], after[n])
    ensures GroupsAdvanced(ItemsByNumber(before), ItemsByNumber(after))
    decreases before.Keys
  {
    if before.Keys != {} {
      var n := MinOf(before.Keys);
      ItemsAdvanced(map k | k in before.Keys - {n} :: before[k], map k | k in after.Keys - {n} :: after[k]);
    }
  }

  /** Grouping never looks at compaction times. */
  lemma GroupingAdvanced(before: seq<Row>, after: seq<Row>)
    requires RowsAdvanced(before, after)
    ensures GroupsAdvanced(Groups(before), Groups(after))
  {
    assert forall i :: 0 <= i < |before| ==> RowAdvanced(before[i], after[i]);
    assert IsExplicit(before) <==> IsExplicit(after) by {
      if IsExplicit(before) {
        forall row | row in after ensures row.turnGroupNumber >= 0 {
          var i :| 0 <= i < |after| && after[i] == row;
          assert before[i] in before;
        }
      }
      if IsExplicit(after) {
        forall row | row in before ensures row.turnGroupNumber >= 0 {
          var i :| 0 <= i < |before| && before[i] == row;
          assert after[i] in after;
        }
      }
    }
    if IsExplicit(before) {
      forall n ensures n in Numbers(before) <==> n in Numbers(after) {
        if n in Numbers(before) {
          var i :| 0 <= i < |before| && before[i].turnGroupNumber == n;
          assert after[i] in after;
        }
        if n in Numbers(after) {
          var i :| 0 <= i < |after| && after[i].turnGroupNumber == n;
          assert before[i] in before;
        }
      }
      assert Numbers(before) == Numbers(after);
      forall n | n in Numbers(before) ensures RowsAdvanced(RowsOf(before, n), RowsOf(after, n)) {
        RowsOfAdvanced(before, after, n);
      }
      ItemsAdvanced(ByNumber(before), ByNumber(after));
    } else {
      InferAdvanced(before, after);
    }
  }

  lemma AdvancedStaysCompacted(before: Group, after: Group)
    requires RowsAdvanced(before.rows, after.rows) && FullyCompacted(before)
    ensures FullyCompacted(after)
  {
    forall row | row in after.rows ensures row.IsCompacted() {
      var i :| 0 <= i < |after.rows| && after.rows[i] == row;
      assert RowAdvanced(before.rows[i], after.rows[i]);
      assert before.rows[i] in before.rows;
    }
  }

  /** Setting compaction times on any further rows, by any worker, never lowers the watermark. */
  lemma CommitNeverLowers(before: seq<Row>, after: seq<Row>)
    requires RowsAdvanced(before, after)
    ensures Derived(before).messages <= Derived(after).messages
    ensures Derived(before).lastTurn <= Derived(after).lastTurn
  {
    var a, b := Groups(before), Groups(after);
    GroupingAdvanced(before, after);
    GroupsAreWellNumbered(before);
    GroupsAreWellNumbered(after);
    WatermarkIsMaximalPrefix(a);
    WatermarkIsMaximalPrefix(b);
    var k, m := PrefixLength(a), PrefixLength(b);
    PrefixLengthIs(a);
    PrefixLengthIs(b);
    if m < k {
      AdvancedStaysCompacted(a[m], b[m]);
    }
    assert k > 0 && k < m ==> b[k - 1].number < b[m - 1].number;
  }

  // ---------------------------------------------------------------------------------------
  // Explicit rows: the watermark read off the rows
  // ---------------------------------------------------------------------------------------

  ghost predicate RowsCompactedUpTo(rows: seq<Row>, n: int) {
    forall row :: row in rows && row.turnGroupNumber <= n ==> row.IsCompacted()
  }

  /** For numbered rows the last covered turn is the highest number up to which all rows are compacted. */
  lemma ExplicitWatermarkByRows(rows: seq<Row>)
    requires IsExplicit(rows)
    ensures var last := Derived(rows).lastTurn;
            && (last == -1 || (last in Numbers(rows) && RowsCompactedUpTo(rows, last)))
            && (forall n :: n in Numbers(rows) && RowsCompactedUpTo(rows, n) ==> n <= last)
            && Derived(rows).messages == 2 * (last + 1)
            && last >= -1
  {
    var groups := ExplicitGroups(rows);
    ExplicitIsStablePartition(rows);
    GroupsAreWellNumbered(rows);
    WatermarkIsMaximalPrefix(groups);
    var last := WatermarkOf(groups).lastTurn;
    forall group | group in groups
      ensures CompactedUpTo(groups, group.number) <==> RowsCompactedUpTo(rows, group.number)
    {
      RowsAndGroupsAgree(rows, group.number);
    }
    if last != -1 {
      var group :| group in groups && group.number == last;
    }
    forall n | n in Numbers(rows) && RowsCompactedUpTo(rows, n) ensures n <= last {
      assert Group(n, RowsOf(rows, n)) in groups;
    }
  }

  lemma RowsAndGroupsAgree(rows: seq<Row>, n: int)
    requires IsExplicit(rows)
    ensures CompactedUpTo(ExplicitGroups(rows), n) <==> RowsCompactedUpTo(rows, n)
  {
    var groups := ExplicitGroups(rows);
    ExplicitIsStablePartition(rows);
    GroupsAreWellNumbered(rows);
    if CompactedUpTo(groups, n) {
      forall row | row in rows && row.turnGroupNumber <= n ensures row.IsCompacted() {
        var group := Group(row.turnGroupNumber, RowsOf(rows, row.turnGroupNumber));
        assert group in groups;
        RowsOfMembers(rows, row.turnGroupNumber, row);
      }
    }
    if RowsCompactedUpTo(rows, n) {
      forall group | group in groups && group.number <= n ensures FullyCompacted(group) {
        forall row | row in group.rows ensures row.IsCompacted() {
          RowsOfMembers(rows, group.number, row);
        }
      }
    }
  }

  /**
   * Appending a numbered row lowers the watermark exactly when the row is uncompacted and joins,
   * or slips in before, a turn that was already covered.
   */
  lemma ExplicitAppendLowersIff(rows: seq<Row>, row: Row)
    requires IsExplicit(rows) && row.turnGroupNumber >= 0
    ensures Derived(rows + [row]).lastTurn < Derived(rows).lastTurn
            <==> !row.IsCompacted() && row.turnGroupNumber <= Derived(rows).lastTurn
  {
    var longer := rows + [row];
    assert forall other :: other in longer <==> other in rows || other == row;
    assert IsExplicit(longer);
    ExplicitWatermarkByRows(rows);
    ExplicitWatermarkByRows(longer);
    var last, newLast := Derived(rows).lastTurn, Derived(longer).lastTurn;
    if !row.IsCompacted() && row.turnGroupNumber <= last {
      assert newLast != -1 ==> newLast < row.turnGroupNumber;
    } else if last != -1 {
      assert RowsCompactedUpTo(longer, last);
      assert last in Numbers(longer) by {
        var other :| other in rows && other.turnGroupNumber == last;
        assert other in longer;
      }
    }
  }

  // ---------------------------------------------------------------------------------------
  // Inferred turns: appending one row
  // ---------------------------------------------------------------------------------------

  /** The row answers a user row still waiting at the end. */
  ghost predicate Joins(rows: seq<Row>, row: Row) {
    row.IsAssistantOnly() && rows != [] && rows[|rows| - 1].IsUserOnly()
  }

  /** Turns after one more row: the last one joined, a new one started, or no change. */
  ghost function WithRow(groups: seq<Group>, row: Row, joins: bool): seq<Group>
    requires joins ==> groups != []
  {
    if joins then
      var n := |groups| - 1;
      groups[..n] + [Group(groups[n].number, groups[n].rows + [row])]
    else if row.IsBlank() then groups
    else groups + [Group(|groups|, [row])]
  }

  /** What one more row does to inferred turns. */
  lemma InferAppend(rows: seq<Row>, row: Row)
    ensures Joins(rows, row) ==> InferredGroups(rows) != []
    ensures InferredGroups(rows + [row]) == WithRow(InferredGroups(rows), row, Joins(rows, row))
  {
    assert (rows + [row])[..|rows|] == rows && (rows + [row])[|rows|] == row;
    FinishStep(PairAll(rows), row, PairAll(rows).pending != []);
  }

  lemma FinishStep(p: Pairing, row: Row, waiting: bool)
    requires waiting == (p.pending != [])
    ensures waiting ==> Finished(p) != []
    ensures Finished(PairStep(p, row)) == WithRow(Finished(p), row, row.IsAssistantOnly() && waiting)
  {
    if row.IsAssistantOnly() && !waiting {
      assert p.pending + [row] == [row];
    }
  }

  lemma PrefixLengthIsUnique(groups: seq<Group>, k: nat, m: nat)
    requires IsPrefixLength(groups, k) && IsPrefixLength(groups, m)
    ensures k == m
  {
    assert k <= m && m <= k;
  }

  ghost predicate AllCompacted(groups: seq<Group>) {
    forall i :: 0 <= i < |groups| ==> FullyCompacted(groups[i])
  }

  lemma PrefixJoined(front: seq<Group>, last: Group, row: Row, k: nat, m: nat)
    requires IsPrefixLength(front + [last], k)
    requires IsPrefixLength(front + [Group(last.number, last.rows + [row])], m)
    ensures m < k <==> !row.IsCompacted() && k == |front| + 1
  {
    var joined := Group(last.number, last.rows + [row]);
    var p := PrefixLength(front);
    PrefixLengthIs(front);
    PrefixLengthIsUnique(front + [last], k, if p == |front| && FullyCompacted(last) then p + 1 else p);
    PrefixLengthIsUnique(front + [joined], m, if p == |front| && FullyCompacted(joined) then p + 1 else p);
    JoinedCompacted(last, joined, row);
  }

  lemma PrefixAppended(groups: seq<Group>, group: Group, k: nat, m: nat)
    requires IsPrefixLength(groups, k) && IsPrefixLength(groups + [group], m)
    ensures k <= m
  {
    PrefixLengthIsUnique(groups + [group], m, if k == |groups| && FullyCompacted(group) then k + 1 else k);
  }

  lemma PrefixWithRow(groups: seq<Group>, row: Row, joins: bool, k: nat, m: nat)
    requires joins ==> groups != []
    requires IsPrefixLength(groups, k) && IsPrefixLength(WithRow(groups, row, joins), m)
    ensures m < k <==> joins && !row.IsCompacted() && k == |groups|
  {
    if joins {
      assert groups == groups[..|groups| - 1] + [groups[|groups| - 1]];
      PrefixJoined(groups[..|groups| - 1], groups[|groups| - 1], row, k, m);
    } else if row.IsBlank() {
      PrefixLengthIsUnique(groups, k, m);
    } else {
      PrefixAppended(groups, Group(|groups|, [row]), k, m);
    }
  }

  lemma JoinedCompacted(last: Group, joined: Group, row: Row)
    requires joined.rows == last.rows + [row]
    ensures FullyCompacted(last) ==> (FullyCompacted(joined) <==> row.IsCompacted())
    ensures last.rows != [] && FullyCompacted(joined) ==> FullyCompacted(last)
  {
    assert forall other :: other in joined.rows <==> other in last.rows || other == row;
  }

  /** Numbered or not, the rows are grouped as if by inference. */
  ghost predicate GroupsAsInferred(rows: seq<Row>) {
    Groups(rows) == InferredGroups(rows)
  }

  /**
   * Appending a row to rows that are grouped as if by inference, leaving them not all numbered,
   * lowers the watermark exactly when everything was compacted and the row is the uncompacted
   * answer to the user row at the end.
   */
  lemma InferredAppendLowersIff(rows: seq<Row>, row: Row)
    requires GroupsAsInferred(rows) && !IsExplicit(rows + [row])
    ensures Derived(rows + [row]).lastTurn < Derived(rows).lastTurn
            <==> Joins(rows, row) && !row.IsCompacted() && AllCompacted(InferredGroups(rows))
  {
    InferAppend(rows, row);
    InferenceKeepsEverything(rows);
    InferenceKeepsEverything(rows + [row]);
    AppendedMark(InferredGroups(rows), row, Joins(rows, row));
  }

  lemma AppendedMark(was: seq<Group>, row: Row, joins: bool)
    requires joins ==> was != []
    requires NumberedFromZero(was) && NumberedFromZero(WithRow(was, row, joins))
    ensures WatermarkOf(WithRow(was, row, joins)).lastTurn < WatermarkOf(was).lastTurn
            <==> joins && !row.IsCompacted() && AllCompacted(was)
  {
    var now := WithRow(was, row, joins);
    PrefixLengthIs(was);
    PrefixLengthIs(now);
    PrefixWithRow(was, row, joins, PrefixLength(was), PrefixLength(now));
  }
}
