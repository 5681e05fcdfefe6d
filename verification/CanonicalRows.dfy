/**
 * Canonical transcript rows, and how a restart groups them into turns: by explicit turn-group
 * number when every row has one, by pairing user and assistant rows otherwise.
 */
module CanonicalRows {
  import opened Options
  import opened OrderedKeys

  /**
   * A canonical row. A negative group number means unset; an empty time stamp means not yet; an
   * empty operation means that no compaction operation has claimed the row.
   */
  datatype Row = Row(
    canonicalTurnId: string,
    turnGroupNumber: int,
    userContent: string,
    assistantContent: string,
    userRawContent: Option<string>,
    assistantRawContent: Option<string>,
    primaryTag: string,
    tags: seq<string>,
    sessionDate: string,
    sender: string,
    factSignals: seq<string>,
    codeRefs: seq<string>,
    taggedAt: string,
    compactedAt: string,
    operation: string)
  {
    predicate HasUser() { userContent != "" }
    predicate HasAssistant() { assistantContent != "" }
    predicate IsBlank() { !HasUser() && !HasAssistant() }
    predicate IsUserOnly() { HasUser() && !HasAssistant() }
    predicate IsAssistantOnly() { !HasUser() && HasAssistant() }
    predicate IsTagged() { taggedAt != "" }
    predicate IsCompacted() { compactedAt != "" }
  }

  /** A turn: its number and its rows. */
  datatype Group = Group(number: int, rows: seq<Row>)

  // ---------------------------------------------------------------------------------------
  // Explicit numbers
  // ---------------------------------------------------------------------------------------

  predicate IsExplicit(rows: seq<Row>) {
    rows != [] && forall row | row in rows :: row.turnGroupNumber >= 0
  }

  /** The rows with group number `n`, in order. */
  function RowsOf(rows: seq<Row>, n: int): seq<Row> {
    if rows == [] then []
    else (if rows[0].turnGroupNumber == n then [rows[0]] else []) + RowsOf(rows[1..], n)
  }

  function Numbers(rows: seq<Row>): set<int> {
    set row | row in rows :: row.turnGroupNumber
  }

  /** The items of a dictionary sorted by key. */
  function ItemsByNumber(byNumber: map<int, seq<Row>>): seq<Group>
    decreases byNumber.Keys
  {
    if byNumber.Keys == {} then []
    else
      var n := MinOf(byNumber.Keys);
      [Group(n, byNumber[n])] + ItemsByNumber(map k | k in byNumber.Keys - {n} :: byNumber[k])
  }

  function ByNumber(rows: seq<Row>): map<int, seq<Row>> {
    map n | n in Numbers(rows) :: RowsOf(rows, n)
  }

  function ExplicitGroups(rows: seq<Row>): seq<Group> {
    ItemsByNumber(ByNumber(rows))
  }

  // ---------------------------------------------------------------------------------------
  // Inferred turns
  // ---------------------------------------------------------------------------------------

  function Flush(next: nat, pending: seq<Row>): seq<Group> {
    if pending == [] then [] else [Group(next, pending)]
  }

  /** The groups that a row closes, when `next` groups are done and `pending` is held back. */
  function Closed(row: Row, next: nat, pending: seq<Row>): seq<Group> {
    if row.HasUser() && row.HasAssistant() then Flush(next, pending) + [Group(next + |Flush(next, pending)|, [row])]
    else if row.HasUser() then Flush(next, pending)
    else if row.HasAssistant() then [Group(next, pending + [row])]
    else Flush(next, pending)
  }

  /** What is held back after a row: a user row waits for its answer. */
  function Held(row: Row): seq<Row> {
    if row.IsUserOnly() then [row] else []
  }

  /** The state of the pairing loop: the finished groups, and the rows held back. */
  datatype Pairing = Pairing(groups: seq<Group>, pending: seq<Row>)

  function PairStep(before: Pairing, row: Row): Pairing {
    Pairing(before.groups + Closed(row, |before.groups|, before.pending), Held(row))
  }

  function PairAll(rows: seq<Row>): Pairing {
    if rows == [] then Pairing([], [])
    else PairStep(PairAll(rows[..|rows| - 1]), rows[|rows| - 1])
  }

  function Finished(pairing: Pairing): seq<Group> {
    pairing.groups + Flush(|pairing.groups|, pairing.pending)
  }

  function InferredGroups(rows: seq<Row>): seq<Group> {
    Finished(PairAll(rows))
  }

  function Groups(rows: seq<Row>): seq<Group> {
    if IsExplicit(rows) then ExplicitGroups(rows) else InferredGroups(rows)
  }

  // ---------------------------------------------------------------------------------------
  // The grouping method
  // ---------------------------------------------------------------------------------------

  method GroupCanonicalRowsIntoPairs(rows: seq<Row>) returns (groups: seq<Group>)
    ensures groups == Groups(rows)
  {
    if IsExplicit(rows) {
      groups := GroupByNumber(rows);
    } else {
      groups := GroupByPairing(rows);
    }
  }

  method GroupByNumber(rows: seq<Row>) returns (groups: seq<Group>)
    ensures groups == ExplicitGroups(rows)
  {
    var byNumber: map<int, seq<Row>> := map[];
    for i := 0 to |rows|
      invariant byNumber == ByNumber(rows[..i])
    {
      var n := rows[i].turnGroupNumber;
      ByNumberAppend(rows[..i], rows[i]);
      assert rows[..i] + [rows[i]] == rows[..i + 1];
      byNumber := byNumber[n := (if n in byNumber then byNumber[n] else []) + [rows[i]]];
    }
    assert rows[..|rows|] == rows;
    groups := ItemsByNumber(byNumber);
  }

  /** The pairing loop, with its list of finished groups and its pending rows. */
  method GroupByPairing(rows: seq<Row>) returns (grouped: seq<Group>)
    ensures grouped == InferredGroups(rows)
  {
    grouped := [];
    var pending: seq<Row> := [];
    for i := 0 to |rows|
      invariant PairAll(rows[..i]) == Pairing(grouped, pending)
    {
      assert rows[..i + 1][..i] == rows[..i] && rows[..i + 1][i] == rows[i];
      grouped, pending := PairRow(rows[i], grouped, pending);
    }
    assert rows[..|rows|] == rows;
    grouped, pending := FlushPending(grouped, pending);
  }

  /** The body of the loop: what one row does to the finished groups and the pending rows. */
  method PairRow(row: Row, before: seq<Group>, pendingBefore: seq<Row>) returns (grouped: seq<Group>, pending: seq<Row>)
    ensures Pairing(grouped, pending) == PairStep(Pairing(before, pendingBefore), row)
  {
    grouped, pending := before, pendingBefore;
    if row.HasUser() && row.HasAssistant() {
      grouped, pending := FlushPending(grouped, pending);
      grouped := grouped + [Group(|grouped|, [row])];
    } else if row.HasUser() {
      grouped, pending := FlushPending(grouped, pending);
      pending := [row];
    } else if row.HasAssistant() {
      if pending != [] {
        pending := pending + [row];
        grouped, pending := FlushPending(grouped, pending);
      } else {
        grouped := grouped + [Group(|grouped|, [row])];
        assert pending + [row] == [row];
      }
    } else {
      grouped, pending := FlushPending(grouped, pending);
    }
  }

  method FlushPending(before: seq<Group>, pendingBefore: seq<Row>) returns (grouped: seq<Group>, pending: seq<Row>)
    ensures grouped == before + Flush(|before|, pendingBefore)
    ensures pending == []
  {
    grouped, pending := before, [];
    if pendingBefore != [] {
      grouped := grouped + [Group(|grouped|, pendingBefore)];
    }
  }

  lemma {:induction false} RowsOfConcat(a: seq<Row>, b: seq<Row>, n: int)
    ensures RowsOf(a + b, n) == RowsOf(a, n) + RowsOf(b, n)
  {
    if a == [] {
      assert a + b == b;
    } else {
      assert (a + b)[1..] == a[1..] + b;
      RowsOfConcat(a[1..], b, n);
    }
  }

  lemma {:induction false} RowsOfAbsent(rows: seq<Row>, n: int)
    requires n !in Numbers(rows)
    ensures RowsOf(rows, n) == []
  {
    if rows != [] {
      assert rows[0].turnGroupNumber in Numbers(rows);
      forall k | k in Numbers(rows[1..]) ensures k in Numbers(rows) {
        var row :| row in rows[1..] && row.turnGroupNumber == k;
        assert row in rows;
      }
      RowsOfAbsent(rows[1..], n);
    }
  }

  lemma ByNumberAppend(rows: seq<Row>, row: Row)
    ensures var n := row.turnGroupNumber;
            var byNumber := ByNumber(rows);
            ByNumber(rows + [row]) == byNumber[n := (if n in byNumber then byNumber[n] else []) + [row]]
  {
    var n := row.turnGroupNumber;
    assert Numbers(rows + [row]) == Numbers(rows) + {n} by {
      assert row in rows + [row];
      forall other | other in rows ensures other in rows + [row] {}
    }
    forall k | k in Numbers(rows + [row])
      ensures RowsOf(rows + [row], k) == RowsOf(rows, k) + (if k == n then [row] else [])
    {
      RowsOfConcat(rows, [row], k);
      assert [row][1..] == [];
    }
    if n !in Numbers(rows) {
      RowsOfAbsent(rows, n);
    }
    var byNumber := ByNumber(rows);
    var extended := byNumber[n := (if n in byNumber then byNumber[n] else []) + [row]];
    assert ByNumber(rows + [row]).Keys == extended.Keys;
    forall k | k in extended ensures ByNumber(rows + [row])[k] == extended[k] {
      assert RowsOf(rows, k) + [] == RowsOf(rows, k);
    }
  }
}
