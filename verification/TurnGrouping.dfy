/** Grouping rows into turns neither loses nor reorders anything. */
module TurnGrouping {
  import opened OrderedKeys
  import opened CanonicalRows

  function Flatten(groups: seq<Group>): seq<Row> {
    if groups == [] then [] else groups[0].rows + Flatten(groups[1..])
  }

  function NonBlank(rows: seq<Row>): seq<Row> {
    if rows == [] then []
    else
      var n := |rows| - 1;
      NonBlank(rows[..n]) + (if rows[n].IsBlank() then [] else [rows[n]])
  }

  // ---------------------------------------------------------------------------------------
  // Inferred turns
  // ---------------------------------------------------------------------------------------

  ghost predicate IsTurn(rows: seq<Row>) {
    || (|rows| == 1 && !rows[0].IsBlank())
    || (|rows| == 2 && rows[0].IsUserOnly() && rows[1].IsAssistantOnly())
  }

  ghost predicate MayBePending(pending: seq<Row>) {
    pending == [] || (|pending| == 1 && pending[0].IsUserOnly())
  }

  lemma {:induction false} FlattenConcat(a: seq<Group>, b: seq<Group>)
    ensures Flatten(a + b) == Flatten(a) + Flatten(b)
  {
    if a == [] {
      assert a + b == b;
    } else {
      assert (a + b)[1..] == a[1..] + b;
      FlattenConcat(a[1..], b);
    }
  }

  lemma FlattenOne(group: Group)
    ensures Flatten([group]) == group.rows
  {
    assert [group][1..] == [];
  }

  ghost predicate NumberedFromZero(groups: seq<Group>) {
    forall i :: 0 <= i < |groups| ==> groups[i].number == i
  }

  ghost predicate AreTurns(groups: seq<Group>) {
    forall i :: 0 <= i < |groups| ==> IsTurn(groups[i].rows)
  }

  lemma {:induction false} PairingIsWellShaped(rows: seq<Row>)
    ensures var p := PairAll(rows);
            && NumberedFromZero(p.groups) && AreTurns(p.groups)
            && MayBePending(p.pending)
  {
    if rows != [] {
      PairingIsWellShaped(rows[..|rows| - 1]);
    }
  }

  lemma {:induction false} PairingKeepsContents(rows: seq<Row>)
    ensures Flatten(PairAll(rows).groups) + PairAll(rows).pending == NonBlank(rows)
  {
    if rows != [] {
      var n := |rows| - 1;
      var p := PairAll(rows[..n]);
      PairingKeepsContents(rows[..n]);
      var closed := Closed(rows[n], |p.groups|, p.pending);
      FlattenConcat(p.groups, closed);
      ClosedContents(rows[n], |p.groups|, p.pending);
      Reassociate(Flatten(p.groups), Flatten(closed), Held(rows[n]), p.pending, if rows[n].IsBlank() then [] else [rows[n]]);
    }
  }

  lemma Reassociate(a: seq<Row>, b: seq<Row>, c: seq<Row>, d: seq<Row>, e: seq<Row>)
    requires b + c == d + e
    ensures (a + b) + c == (a + d) + e
  {
    assert (a + b) + c == a + (b + c);
    assert (a + d) + e == a + (d + e);
  }

  lemma ClosedContents(row: Row, next: nat, pending: seq<Row>)
    ensures Flatten(Closed(row, next, pending)) + Held(row) == pending + (if row.IsBlank() then [] else [row])
  {
    var flushed := Flush(next, pending);
    if row.HasUser() && row.HasAssistant() {
      FlattenConcat(flushed, [Group(next + |flushed|, [row])]);
      FlattenOne(Group(next + |flushed|, [row]));
    } else if row.IsAssistantOnly() {
      FlattenOne(Group(next, pending + [row]));
    }
  }

  /**
   * Inferred turns are numbered from 0 without gaps, are each a single row or a user row with the
   * assistant row after it, and put end to end are the non-blank rows in order.
   */
  lemma InferenceKeepsEverything(rows: seq<Row>)
    ensures NumberedFromZero(InferredGroups(rows)) && AreTurns(InferredGroups(rows))
    ensures Flatten(InferredGroups(rows)) == NonBlank(rows)
  {
    var p := PairAll(rows);
    PairingIsWellShaped(rows);
    PairingKeepsContents(rows);
    FlattenConcat(p.groups, Flush(|p.groups|, p.pending));
  }

  ghost predicate IsLoneUser(group: Group) {
    |group.rows| == 1 && group.rows[0].IsUserOnly()
  }

  ghost predicate IsLoneAssistant(group: Group) {
    |group.rows| == 1 && group.rows[0].IsAssistantOnly()
  }

  /** No user row is left alone when the row after it is its answer. */
  ghost predicate NoPairSplit(groups: seq<Group>) {
    forall i :: 0 <= i < |groups| - 1 ==> !(IsLoneUser(groups[i]) && IsLoneAssistant(groups[i + 1]))
  }

  /**
   * Shapes, contents and never splitting a pair leave no choice: two such divisions of the same
   * rows have the same row sequences, one by one.
   */
  lemma {:induction false} DivisionIsUnique(a: seq<Group>, b: seq<Group>)
    requires AreTurns(a) && AreTurns(b) && NoPairSplit(a) && NoPairSplit(b)
    requires Flatten(a) == Flatten(b)
    ensures |a| == |b| && forall i :: 0 <= i < |a| ==> a[i].rows == b[i].rows
  {
    assert a != [] ==> Flatten(a) == a[0].rows + Flatten(a[1..]);
    assert b != [] ==> Flatten(b) == b[0].rows + Flatten(b[1..]);
    assert a != [] <==> b != [];
    if a != [] {
      var restA, restB := Flatten(a[1..]), Flatten(b[1..]);
      assert a[0].rows + restA == b[0].rows + restB;
      assert (a[0].rows + restA)[0] == (b[0].rows + restB)[0];
      if |a[0].rows| != |b[0].rows| {
        if |a[0].rows| == 1 {
          SplitPairIsVisible(a, b);
        } else {
          SplitPairIsVisible(b, a);
        }
      } else {
        assert a[0].rows == (a[0].rows + restA)[..|a[0].rows|];
        assert b[0].rows == (b[0].rows + restB)[..|b[0].rows|];
        assert restA == (a[0].rows + restA)[|a[0].rows|..];
        assert restB == (b[0].rows + restB)[|b[0].rows|..];
        assert forall i :: 0 <= i < |a[1..]| ==> a[1..][i] == a[i + 1];
        assert forall i :: 0 <= i < |b[1..]| ==> b[1..][i] == b[i + 1];
        DivisionIsUnique(a[1..], b[1..]);
        assert forall i :: 1 <= i < |a| ==> a[i].rows == a[1..][i - 1].rows == b[1..][i - 1].rows;
      }
    }
  }

  lemma {:induction false} SplitPairIsVisible(a: seq<Group>, b: seq<Group>)
    requires a != [] && b != [] && AreTurns(a) && AreTurns(b)
    requires |a[0].rows| == 1 && |b[0].rows| == 2
    requires Flatten(a) == Flatten(b)
    ensures !NoPairSplit(a)
  {
    var restA := Flatten(a[1..]);
    var whole := a[0].rows + restA;
    assert whole == b[0].rows + Flatten(b[1..]);
    assert whole[0] == a[0].rows[0] == b[0].rows[0] && whole[1] == b[0].rows[1];
    assert restA[0] == whole[1];
    assert |a| > 1;
    assert restA == a[1].rows + Flatten(a[1..][1..]);
    assert restA[0] == a[1].rows[0];
    assert IsTurn(a[1].rows);
    assert IsLoneUser(a[0]) && IsLoneAssistant(a[1]);
  }

  lemma NoSplitAppend(groups: seq<Group>, group: Group)
    requires NoPairSplit(groups)
    requires groups != [] && IsLoneUser(groups[|groups| - 1]) ==> !IsLoneAssistant(group)
    ensures NoPairSplit(groups + [group])
  {}

  /** Finished groups have no split pair, and end on a lone user row only while another row waits. */
  ghost predicate PairsKept(p: Pairing) {
    && NoPairSplit(p.groups) && MayBePending(p.pending)
    && (p.groups != [] && IsLoneUser(p.groups[|p.groups| - 1]) ==> p.pending != [])
  }

  lemma StepKeepsPairs(p: Pairing, row: Row)
    requires PairsKept(p) && !row.IsBlank()
    ensures PairsKept(PairStep(p, row))
  {
    if row.HasUser() && row.HasAssistant() {
      NoSplitAppend(Finished(p), Group(|Finished(p)|, [row]));
      assert PairStep(p, row).groups == Finished(p) + [Group(|Finished(p)|, [row])];
    } else if row.HasUser() {
      assert PairStep(p, row).groups == Finished(p);
    } else {
      NoSplitAppend(p.groups, Group(|p.groups|, p.pending + [row]));
    }
  }

  lemma {:induction false} PairingKeepsPairs(rows: seq<Row>)
    requires forall row :: row in rows ==> !row.IsBlank()
    ensures PairsKept(PairAll(rows))
  {
    if rows != [] {
      PairingKeepsPairs(rows[..|rows| - 1]);
      StepKeepsPairs(PairAll(rows[..|rows| - 1]), rows[|rows| - 1]);
    }
  }

  /** With no blank rows in between, inference never splits a pair. */
  lemma InferenceSplitsNoPair(rows: seq<Row>)
    requires forall row :: row in rows ==> !row.IsBlank()
    ensures NoPairSplit(InferredGroups(rows))
  {
    PairingKeepsPairs(rows);
  }

  // ---------------------------------------------------------------------------------------
  // Explicit numbers
  // ---------------------------------------------------------------------------------------

  ghost predicate StrictlyNumbered(groups: seq<Group>) {
    forall i, j :: 0 <= i < j < |groups| ==> groups[i].number < groups[j].number
  }

  lemma {:induction false} ItemsAreSorted(byNumber: map<int, seq<Row>>)
    ensures StrictlyNumbered(ItemsByNumber(byNumber))
    ensures forall group :: group in ItemsByNumber(byNumber) <==> group.number in byNumber && group.rows == byNumber[group.number]
    decreases byNumber.Keys
  {
    if byNumber.Keys != {} {
      var n := MinOf(byNumber.Keys);
      var rest := map k | k in byNumber.Keys - {n} :: byNumber[k];
      ItemsAreSorted(rest);
    }
  }

  /** The explicit branch is a stable partition: one group per number, increasing, each in row order. */
  lemma ExplicitIsStablePartition(rows: seq<Row>)
    ensures StrictlyNumbered(ExplicitGroups(rows))
    ensures forall group :: group in ExplicitGroups(rows) <==>
              group.number in Numbers(rows) && group.rows == RowsOf(rows, group.number)
  {
    ItemsAreSorted(ByNumber(rows));
  }

  /** Strictly numbered groups are determined by which groups there are. */
  lemma {:induction false} StrictlyNumberedIsUnique(a: seq<Group>, b: seq<Group>)
    requires StrictlyNumbered(a) && StrictlyNumbered(b)
    requires forall group :: group in a <==> group in b
    ensures a == b
  {
    assert a != [] ==> a[0] in b;
    assert b != [] ==> b[0] in a;
    if a != [] {
      assert a == [a[0]] + a[1..] && b == [b[0]] + b[1..];
      assert a[0] == b[0];
      forall group ensures group in a[1..] <==> group in b[1..] {
        assert group in a <==> group == a[0] || group in a[1..];
        assert group in b <==> group == b[0] || group in b[1..];
      }
      StrictlyNumberedIsUnique(a[1..], b[1..]);
    }
  }

  // ---------------------------------------------------------------------------------------
  // Stamping inferred numbers
  // ---------------------------------------------------------------------------------------

  function StampRows(rows: seq<Row>, n: int): (stamped: seq<Row>)
    ensures |stamped| == |rows|
    ensures forall i :: 0 <= i < |rows| ==> stamped[i] == rows[i].(turnGroupNumber := n)
  {
    if rows == [] then [] else [rows[0].(turnGroupNumber := n)] + StampRows(rows[1..], n)
  }

  /** Each group with its own number written into its rows. */
  function Stamped(groups: seq<Group>): seq<Group> {
    if groups == [] then []
    else [Group(groups[0].number, StampRows(groups[0].rows, groups[0].number))] + Stamped(groups[1..])
  }

  ghost predicate SelfNumbered(groups: seq<Group>) {
    forall i, j :: 0 <= i < |groups| && 0 <= j < |groups[i].rows| ==> groups[i].rows[j].turnGroupNumber == groups[i].number
  }

  lemma {:induction false} StampedIsStamped(groups: seq<Group>)
    ensures |Stamped(groups)| == |groups|
    ensures forall i :: 0 <= i < |groups| ==>
              Stamped(groups)[i] == Group(groups[i].number, StampRows(groups[i].rows, groups[i].number))
  {
    if groups != [] {
      StampedIsStamped(groups[1..]);
    }
  }

  lemma {:induction false} RowsOfUniform(rows: seq<Row>, n: int, m: int)
    requires forall i :: 0 <= i < |rows| ==> rows[i].turnGroupNumber == m
    ensures RowsOf(rows, n) == if n == m then rows else []
  {
    if rows != [] {
      RowsOfUniform(rows[1..], n, m);
      assert rows == [rows[0]] + rows[1..];
    }
  }

  /** In numbered groups laid end to end, the rows with a number are the group with that number. */
  lemma {:induction false} RowsOfFlatten(groups: seq<Group>, n: int)
    requires StrictlyNumbered(groups) && SelfNumbered(groups)
    ensures (exists i :: 0 <= i < |groups| && groups[i].number == n && RowsOf(Flatten(groups), n) == groups[i].rows)
            || ((forall i :: 0 <= i < |groups| ==> groups[i].number != n) && RowsOf(Flatten(groups), n) == [])
  {
    if groups != [] {
      var rest := groups[1..];
      assert forall i :: 0 <= i < |rest| ==> rest[i] == groups[i + 1];
      assert forall j :: 0 <= j < |groups[0].rows| ==> groups[0].rows[j].turnGroupNumber == groups[0].number;
      RowsOfFlatten(rest, n);
      RowsOfConcat(groups[0].rows, Flatten(rest), n);
      RowsOfUniform(groups[0].rows, n, groups[0].number);
      if groups[0].number != n && exists i :: 0 <= i < |rest| && rest[i].number == n {
        var i :| 0 <= i < |rest| && rest[i].number == n && RowsOf(Flatten(rest), n) == rest[i].rows;
        assert groups[i + 1].number == n;
      }
    }
  }

  lemma {:induction false} FlattenMembers(groups: seq<Group>, row: Row)
    ensures row in Flatten(groups) <==> exists i :: 0 <= i < |groups| && row in groups[i].rows
  {
    if groups != [] {
      var rest := groups[1..];
      FlattenMembers(rest, row);
      assert forall i :: 0 <= i < |rest| ==> rest[i] == groups[i + 1];
    }
  }

  /** Numbered groups laid end to end and regrouped by number come back unchanged. */
  lemma {:induction false} RegroupingNumbered(groups: seq<Group>)
    requires StrictlyNumbered(groups) && SelfNumbered(groups)
    requires forall i :: 0 <= i < |groups| ==> groups[i].rows != []
    ensures ExplicitGroups(Flatten(groups)) == groups
  {
    var rows := Flatten(groups);
    ExplicitIsStablePartition(rows);
    forall group ensures group in ExplicitGroups(rows) <==> group in groups {
      RowsOfFlatten(groups, group.number);
      if group.number in Numbers(rows) {
        var row :| row in rows && row.turnGroupNumber == group.number;
        FlattenMembers(groups, row);
        var i :| 0 <= i < |groups| && row in groups[i].rows;
        assert groups[i].number == group.number;
        assert forall j :: 0 <= j < |groups| && groups[j].number == group.number ==> j == i;
      }
      if group in groups {
        var i :| 0 <= i < |groups| && groups[i] == group;
        var row := group.rows[0];
        assert row in groups[i].rows;
        FlattenMembers(groups, row);
        assert row.turnGroupNumber == group.number && group.number in Numbers(rows);
      }
    }
    StrictlyNumberedIsUnique(ExplicitGroups(rows), groups);
  }

  lemma {:induction false} AllNonBlank(rows: seq<Row>)
    requires forall row :: row in rows ==> !row.IsBlank()
    ensures NonBlank(rows) == rows
  {
    if rows != [] {
      var n := |rows| - 1;
      assert rows[n] in rows && rows == rows[..n] + [rows[n]];
      AllNonBlank(rows[..n]);
    }
  }
}
