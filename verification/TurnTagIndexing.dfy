/** The in-memory index of per-turn tag entries, which refuses a second entry for a turn. */
module TurnTagIndexing {

  /** A tag entry without its time stamp. */
  datatype Entry = Entry(
    turnNumber: int,
    canonicalTurnId: string,
    messageHash: string,
    tags: seq<string>,
    primaryTag: string,
    sessionDate: string,
    factSignals: seq<string>,
    sender: string,
    codeRefs: seq<string>)

  function TurnsOf(entries: seq<Entry>): set<int> {
    set e | e in entries :: e.turnNumber
  }

  function IdsOf(entries: seq<Entry>): set<string> {
    set e | e in entries && e.canonicalTurnId != "" :: e.canonicalTurnId
  }

  predicate Clashes(entries: seq<Entry>, entry: Entry) {
    entry.turnNumber in TurnsOf(entries) || (entry.canonicalTurnId != "" && entry.canonicalTurnId in IdsOf(entries))
  }

  function WithEntry(entries: seq<Entry>, entry: Entry): seq<Entry> {
    if Clashes(entries, entry) then entries else entries + [entry]
  }

  function WithEntries(entries: seq<Entry>, more: seq<Entry>): seq<Entry>
    decreases |more|
  {
    if more == [] then entries else WithEntries(WithEntry(entries, more[0]), more[1..])
  }

  class TurnTagIndex {
    var entries: seq<Entry>
    var byLogicalTurn: map<int, Entry>
    var byCanonicalTurn: map<string, Entry>

    ghost predicate Valid()
      reads this
    {
      && byLogicalTurn.Keys == TurnsOf(entries)
      && byCanonicalTurn.Keys == IdsOf(entries)
      && IsSingleValued(entries)
      && (forall e :: e in entries ==> byLogicalTurn[e.turnNumber] == e)
      && (forall e :: e in entries && e.canonicalTurnId != "" ==> byCanonicalTurn[e.canonicalTurnId] == e)
    }

    constructor ()
      ensures Valid() && entries == []
    {
      entries, byLogicalTurn, byCanonicalTurn := [], map[], map[];
    }

    /** Adds an entry, unless its turn or its canonical id already has one: the original stays. */
    method Append(entry: Entry)
      requires Valid()
      modifies this
      ensures Valid() && entries == WithEntry(old(entries), entry)
    {
      if entry.turnNumber in byLogicalTurn {
        return;
      }
      if entry.canonicalTurnId != "" && entry.canonicalTurnId in byCanonicalTurn {
        return;
      }
      WithEntryIsSingleValued(entries, entry);
      entries := entries + [entry];
      byLogicalTurn := byLogicalTurn[entry.turnNumber := entry];
      if entry.canonicalTurnId != "" {
        byCanonicalTurn := byCanonicalTurn[entry.canonicalTurnId := entry];
      }
    }

    method AppendAll(more: seq<Entry>)
      requires Valid()
      modifies this
      ensures Valid() && entries == WithEntries(old(entries), more)
    {
      assert more[0..] == more;
      for i := 0 to |more|
        invariant Valid()
        invariant WithEntries(old(entries), more) == WithEntries(entries, more[i..])
      {
        assert more[i..][0] == more[i] && more[i..][1..] == more[i + 1..];
        Append(more[i]);
      }
    }

    method GetTagsForLogicalTurn(turnNumber: int) returns (found: seq<Entry>)
      requires Valid()
      ensures |found| <= 1
      ensures forall e :: e in found <==> e in entries && e.turnNumber == turnNumber
    {
      if turnNumber in byLogicalTurn {
        ghost var e :| e in entries && e.turnNumber == turnNumber;
        found := [byLogicalTurn[turnNumber]];
      } else {
        found := [];
      }
    }
  }

  /** No two entries share a turn number, and no two share a non-empty canonical id. */
  ghost predicate IsSingleValued(entries: seq<Entry>) {
    forall i, j :: 0 <= i < j < |entries| ==>
      && entries[i].turnNumber != entries[j].turnNumber
      && (entries[i].canonicalTurnId != "" ==> entries[i].canonicalTurnId != entries[j].canonicalTurnId)
  }

  lemma WithEntryIsSingleValued(entries: seq<Entry>, entry: Entry)
    requires IsSingleValued(entries) && !Clashes(entries, entry)
    ensures IsSingleValued(entries + [entry])
    ensures TurnsOf(entries + [entry]) == TurnsOf(entries) + {entry.turnNumber}
    ensures IdsOf(entries + [entry]) == IdsOf(entries) + (if entry.canonicalTurnId != "" then {entry.canonicalTurnId} else {})
  {
    var longer := entries + [entry];
    assert forall e :: e in longer <==> e in entries || e == entry;
    forall i, j | 0 <= i < j < |longer|
      ensures longer[i].turnNumber != longer[j].turnNumber
      ensures longer[i].canonicalTurnId != "" ==> longer[i].canonicalTurnId != longer[j].canonicalTurnId
    {
      assert longer[i] in entries;
    }
  }

  lemma {:induction false} WithEntriesIsSingleValued(entries: seq<Entry>, more: seq<Entry>)
    requires IsSingleValued(entries)
    ensures IsSingleValued(WithEntries(entries, more))
    decreases |more|
  {
    if more != [] {
      if !Clashes(entries, more[0]) {
        WithEntryIsSingleValued(entries, more[0]);
      }
      WithEntriesIsSingleValued(WithEntry(entries, more[0]), more[1..]);
    }
  }

  lemma {:induction false} WithEntriesKeepsOrder(entries: seq<Entry>, more: seq<Entry>)
    ensures |entries| <= |WithEntries(entries, more)| <= |entries| + |more|
    ensures entries == WithEntries(entries, more)[..|entries|]
    ensures forall e :: e in WithEntries(entries, more) ==> e in entries || e in more
    decreases |more|
  {
    if more != [] {
      WithEntriesKeepsOrder(WithEntry(entries, more[0]), more[1..]);
      assert more == [more[0]] + more[1..];
    }
  }

  /** Appending in sequence keeps every entry exactly when no two of them clash. */
  lemma {:induction false} AllKeptIff(entries: seq<Entry>, more: seq<Entry>)
    requires IsSingleValued(entries)
    ensures IsSingleValued(entries + more) ==> WithEntries(entries, more) == entries + more
    ensures !IsSingleValued(entries + more) ==> |WithEntries(entries, more)| < |entries| + |more|
    decreases |more|
  {
    if more == [] {
      assert entries + more == entries;
    } else {
      var e, rest := more[0], more[1..];
      assert more == [e] + rest;
      assert entries + more == (entries + [e]) + rest;
      if Clashes(entries, e) {
        WithEntriesKeepsOrder(entries, rest);
        ClashShows(entries, e, rest);
      } else {
        WithEntryIsSingleValued(entries, e);
        AllKeptIff(entries + [e], rest);
      }
    }
  }

  lemma ClashShows(entries: seq<Entry>, entry: Entry, rest: seq<Entry>)
    requires Clashes(entries, entry)
    ensures !IsSingleValued(entries + [entry] + rest)
  {
    var whole := entries + [entry] + rest;
    assert whole[|entries|] == entry;
    if entry.turnNumber in TurnsOf(entries) {
      var e :| e in entries && e.turnNumber == entry.turnNumber;
      var i :| 0 <= i < |entries| && entries[i] == e;
      assert whole[i] == e;
    } else {
      var e :| e in entries && e.canonicalTurnId != "" && e.canonicalTurnId == entry.canonicalTurnId;
      var i :| 0 <= i < |entries| && entries[i] == e;
      assert whole[i] == e;
    }
  }

  lemma AllKeptFromEmptyIff(all: seq<Entry>)
    ensures IsSingleValued(all) ==> WithEntries([], all) == all
    ensures !IsSingleValued(all) ==> |WithEntries([], all)| < |all|
  {
    AllKeptIff([], all);
    assert [] + all == all;
  }

  /** Entries that an index already accepted are all accepted again, in the same order. */
  lemma ReappendingIsIdentity(entries: seq<Entry>)
    requires IsSingleValued(entries)
    ensures WithEntries([], entries) == entries
  {
    AllKeptFromEmptyIff(entries);
  }
}
