/**
 * What restarts guarantee: every restore path ends on the watermark of the rows, whatever stale
 * value its cache held; restoring twice is restoring once; and hydration heals in one step.
 */
module Recovery {
  import opened Options
  import opened CanonicalRows
  import opened TurnGrouping
  import opened Watermark
  import opened TurnTagIndexing
  import opened RestoreSpec

  // ---------------------------------------------------------------------------------------
  // Restoring from rows
  // ---------------------------------------------------------------------------------------

  function DonePairs(groups: seq<Group>): seq<Group> {
    CompactedPairs(TaggedPairs(groups))
  }

  lemma {:induction false} TaggingSplits(groups: seq<Group>)
    ensures multiset(groups) == multiset(TaggedPairs(groups)) + multiset(PendingPairs(groups))
    ensures forall group :: group in TaggedPairs(groups) ==> group in groups && FullyTagged(group)
    ensures forall group :: group in PendingPairs(groups) ==> group in groups && !FullyTagged(group)
  {
    if groups != [] {
      TaggingSplits(groups[1..]);
      assert groups == [groups[0]] + groups[1..];
    }
  }

  lemma {:induction false} CompactionSplits(groups: seq<Group>)
    ensures multiset(groups) == multiset(CompactedPairs(groups)) + multiset(UncompactedPairs(groups))
    ensures forall group :: group in CompactedPairs(groups) ==> group in groups && FullyCompacted(group)
    ensures forall group :: group in UncompactedPairs(groups) ==> group in groups && !FullyCompacted(group)
  {
    if groups != [] {
      CompactionSplits(groups[1..]);
      assert groups == [groups[0]] + groups[1..];
    }
  }

  lemma ConsIsNumbered(group: Group, rest: seq<Group>)
    requires StrictlyNumbered(rest) && forall other :: other in rest ==> group.number < other.number
    ensures StrictlyNumbered([group] + rest)
  {}

  lemma {:induction false} TaggingKeepsOrder(groups: seq<Group>)
    requires StrictlyNumbered(groups)
    ensures StrictlyNumbered(TaggedPairs(groups)) && StrictlyNumbered(PendingPairs(groups))
  {
    if groups != [] {
      TaggingKeepsOrder(groups[1..]);
      TaggingSplits(groups[1..]);
      ConsIsNumbered(groups[0], TaggedPairs(groups[1..]));
      ConsIsNumbered(groups[0], PendingPairs(groups[1..]));
    }
  }

  lemma {:induction false} CompactionKeepsOrder(groups: seq<Group>)
    requires StrictlyNumbered(groups)
    ensures StrictlyNumbered(CompactedPairs(groups)) && StrictlyNumbered(UncompactedPairs(groups))
  {
    if groups != [] {
      CompactionKeepsOrder(groups[1..]);
      CompactionSplits(groups[1..]);
      ConsIsNumbered(groups[0], CompactedPairs(groups[1..]));
      ConsIsNumbered(groups[0], UncompactedPairs(groups[1..]));
    }
  }

  /**
   * A restore deals every turn into exactly one of three piles, each in turn order: pending (not
   * tagged throughout), live (tagged, not compacted throughout), done (tagged and compacted).
   */
  lemma RestoreSplitsTurns(rows: seq<Row>)
    ensures var groups := Groups(rows);
            && multiset(groups) == multiset(PendingPairs(groups)) + multiset(LivePairs(groups)) + multiset(DonePairs(groups))
            && StrictlyNumbered(PendingPairs(groups)) && StrictlyNumbered(LivePairs(groups)) && StrictlyNumbered(DonePairs(groups))
            && (forall group :: group in PendingPairs(groups) ==> !FullyTagged(group))
            && (forall group :: group in LivePairs(groups) ==> FullyTagged(group) && !FullyCompacted(group))
            && (forall group :: group in DonePairs(groups) ==> FullyTagged(group) && FullyCompacted(group))
  {
    var groups := Groups(rows);
    GroupsAreWellNumbered(rows);
    TaggingSplits(groups);
    CompactionSplits(TaggedPairs(groups));
    TaggingKeepsOrder(groups);
    CompactionKeepsOrder(TaggedPairs(groups));
  }

  lemma {:induction false} LastNumberIsHighest(groups: seq<Group>)
    requires WellNumbered(groups)
    ensures forall group :: group in groups ==> group.number <= LastNumber(groups)
    ensures LastNumber(groups) >= -1
    ensures LastNumber(TaggedPairs(groups)) <= LastNumber(groups)
  {
    forall group | group in groups ensures group.number <= LastNumber(groups) {
      var i :| 0 <= i < |groups| && groups[i] == group;
      assert i < |groups| - 1 ==> groups[i].number < groups[|groups| - 1].number;
    }
    TaggingSplits(groups);
    var tagged := TaggedPairs(groups);
    assert tagged != [] ==> tagged[|tagged| - 1] in groups;
    assert groups != [] ==> groups[|groups| - 1].number >= 0;
  }

  /** How the markers stand to each other after a restore, and what they stood to before. */
  lemma RestoredMarkersAgree(state: EngineState, rows: seq<Row>)
    ensures var after := RestoredState(state, rows);
            && after.compactedPrefixMessages == 2 * (after.lastCompactedTurn + 1) >= 0
            && after.lastCompactedTurn <= after.lastCompletedTurn
            && after.flushedPrefixMessages <= after.compactedPrefixMessages
            && (state.flushedPrefixMessages >= 0 ==> after.flushedPrefixMessages >= 0)
            && (state.lastIndexedTurn <= state.lastCompletedTurn ==> after.lastIndexedTurn <= after.lastCompletedTurn)
            && after.lastCompletedTurn >= state.lastCompletedTurn && after.lastIndexedTurn >= state.lastIndexedTurn
  {
    var groups := Groups(rows);
    GroupsAreWellNumbered(rows);
    WatermarkIsMaximalPrefix(groups);
    LastNumberIsHighest(groups);
  }

  ghost predicate BoundsTurns(groups: seq<Group>, n: int) {
    forall group :: group in groups ==> group.number <= n
  }

  ghost predicate BoundsTagged(groups: seq<Group>, n: int) {
    forall group :: group in groups && FullyTagged(group) ==> group.number <= n
  }

  /**
   * Progress after a restore is the least that is not below what was known, nor below any turn of
   * the rows (for the indexed marker, any tagged turn); a flush marker within the watermark stays.
   */
  lemma RestoredProgressIsLeast(state: EngineState, rows: seq<Row>)
    ensures var groups, after := Groups(rows), RestoredState(state, rows);
            && (forall n :: after.lastCompletedTurn <= n <==> -1 <= n && state.lastCompletedTurn <= n && BoundsTurns(groups, n))
            && (forall n :: after.lastIndexedTurn <= n <==> -1 <= n && state.lastIndexedTurn <= n && BoundsTagged(groups, n))
            && (state.flushedPrefixMessages <= Derived(rows).messages ==> after.flushedPrefixMessages == state.flushedPrefixMessages)
  {
    var groups := Groups(rows);
    var tagged := TaggedPairs(groups);
    GroupsAreWellNumbered(rows);
    TaggedAreTaggedTurns(groups);
    TaggingKeepsOrder(groups);
    LastNumberBounds(groups);
    LastNumberBounds(tagged);
  }

  lemma {:induction false} TaggedAreTaggedTurns(groups: seq<Group>)
    requires WellNumbered(groups)
    ensures forall group :: group in TaggedPairs(groups) <==> group in groups && FullyTagged(group)
    ensures forall group :: group in groups ==> group.number >= 0
  {
    if groups != [] {
      assert groups == [groups[0]] + groups[1..];
      TaggedAreTaggedTurns(groups[1..]);
    }
  }

  lemma LastNumberBounds(groups: seq<Group>)
    requires StrictlyNumbered(groups) && forall group :: group in groups ==> group.number >= 0
    ensures forall n :: LastNumber(groups) <= n <==> -1 <= n && BoundsTurns(groups, n)
  {
    var k := |groups| - 1;
    forall group | group in groups ensures group.number <= LastNumber(groups) {
      var i :| 0 <= i < |groups| && groups[i] == group;
      assert i < k ==> groups[i].number < groups[k].number;
    }
    assert groups != [] ==> groups[k] in groups;
    forall n ensures LastNumber(groups) <= n <==> -1 <= n && BoundsTurns(groups, n) {
      if groups != [] && BoundsTurns(groups, n) {
        assert groups[k].number <= n;
      }
    }
  }

  /** Restoring twice from the same rows is restoring once. */
  lemma RestoreIsIdempotent(state: EngineState, rows: seq<Row>)
    ensures RestoredState(RestoredState(state, rows), rows) == RestoredState(state, rows)
  {
  }

  /**
   * Of any rows at all: the rebuilt index has one entry per fully tagged turn, unless two such turns
   * start with rows of the same canonical id. Entries are in increasing turn order, and each has a
   * non-empty list of tags without duplicates.
   */
  lemma OneEntryPerTaggedTurnIff(rows: seq<Row>, digest: string -> string)
    ensures var tagged := TaggedPairs(Groups(rows));
            var entries := RestoredEntries(rows, digest);
            && (|entries| == |tagged| <==> IdsAreDistinct(tagged))
            && (IdsAreDistinct(tagged) ==> entries == EntriesOf(tagged, digest))
            && IsIncreasing(entries)
            && (forall e :: e in entries ==> e.tags != [] && NoDuplicates(e.tags))
  {
    GroupsAreWellNumbered(rows);
    TaggingKeepsOrder(Groups(rows));
    var tagged := TaggedPairs(Groups(rows));
    OneEntryPerTurnIff(tagged, digest);
    RebuiltEntriesAreOrdered(tagged, digest);
    RebuiltEntriesHaveTags(tagged, digest);
  }

  /** No two rows of a conversation have the same canonical id: it is the primary key. */
  ghost predicate IdsAreKeys(rows: seq<Row>) {
    forall i, j :: 0 <= i < j < |rows| ==> rows[i].canonicalTurnId != rows[j].canonicalTurnId
  }

  /** Among keyed rows, a canonical id names one row. */
  lemma KeyNamesRow(rows: seq<Row>, a: Row, b: Row)
    requires IdsAreKeys(rows) && a in rows && b in rows && a.canonicalTurnId == b.canonicalTurnId
    ensures a == b
  {
    var i :| 0 <= i < |rows| && rows[i] == a;
    var j :| 0 <= j < |rows| && rows[j] == b;
    assert i == j;
  }

  /** A non-empty id of a turn is the id of one of its rows. */
  lemma {:induction false} IdIsOfRow(rows: seq<Row>) returns (row: Row)
    requires FirstNonEmpty(rows, CanonicalId) != ""
    ensures row in rows && row.canonicalTurnId == FirstNonEmpty(rows, CanonicalId)
  {
    if rows[0].canonicalTurnId != "" {
      row := rows[0];
    } else {
      row := IdIsOfRow(rows[1..]);
    }
  }

  ghost predicate RowsAreKeyed(groups: seq<Group>) {
    forall i, j, a, b :: 0 <= i < j < |groups| && a in groups[i].rows && b in groups[j].rows ==> a.canonicalTurnId != b.canonicalTurnId
  }

  lemma {:induction false} FlattenKeepsKeys(groups: seq<Group>)
    requires IdsAreKeys(Flatten(groups))
    ensures RowsAreKeyed(groups)
  {
    if groups != [] {
      var head, rest := groups[0].rows, Flatten(groups[1..]);
      KeysOfConcat(head, rest);
      FlattenKeepsKeys(groups[1..]);
      forall i, j, a, b | 0 <= i < j < |groups| && a in groups[i].rows && b in groups[j].rows ensures a.canonicalTurnId != b.canonicalTurnId {
        if i == 0 {
          assert groups[j] == groups[1..][j - 1];
          FlattenMembers(groups[1..], b);
        } else {
          assert groups[i] == groups[1..][i - 1] && groups[j] == groups[1..][j - 1];
        }
      }
    }
  }

  lemma KeysOfConcat(a: seq<Row>, b: seq<Row>)
    requires IdsAreKeys(a + b)
    ensures IdsAreKeys(a) && IdsAreKeys(b)
    ensures forall x, y :: x in a && y in b ==> x.canonicalTurnId != y.canonicalTurnId
  {
    assert forall i :: 0 <= i < |a| ==> (a + b)[i] == a[i];
    assert forall j :: 0 <= j < |b| ==> (a + b)[|a| + j] == b[j];
  }

  lemma {:induction false} NonBlankKeepsKeys(rows: seq<Row>)
    requires IdsAreKeys(rows)
    ensures IdsAreKeys(NonBlank(rows)) && forall row :: row in NonBlank(rows) ==> row in rows
  {
    if rows != [] {
      var n := |rows| - 1;
      NonBlankKeepsKeys(rows[..n]);
      assert rows == rows[..n] + [rows[n]];
      KeysOfConcat(rows[..n], [rows[n]]);
    }
  }

  /** Two turns of keyed rows share no id, however the rows are grouped. */
  lemma GroupsAreKeyed(rows: seq<Row>)
    requires IdsAreKeys(rows)
    ensures RowsAreKeyed(Groups(rows))
  {
    if IsExplicit(rows) {
      var groups := ExplicitGroups(rows);
      ExplicitIsStablePartition(rows);
      forall i, j, a, b | 0 <= i < j < |groups| && a in groups[i].rows && b in groups[j].rows ensures a.canonicalTurnId != b.canonicalTurnId {
        assert groups[i] in groups && groups[j] in groups;
        RowsOfMembers(rows, groups[i].number, a);
        RowsOfMembers(rows, groups[j].number, b);
        if a.canonicalTurnId == b.canonicalTurnId {
          KeyNamesRow(rows, a, b);
        }
      }
    } else {
      InferenceKeepsEverything(rows);
      NonBlankKeepsKeys(rows);
      FlattenKeepsKeys(InferredGroups(rows));
    }
  }

  /** The tagged turns are some of the turns, so they share no id either. */
  lemma TaggedIdsAreDistinct(groups: seq<Group>)
    requires StrictlyNumbered(groups) && RowsAreKeyed(groups)
    ensures IdsAreDistinct(TaggedPairs(groups))
  {
    var tagged := TaggedPairs(groups);
    TaggingSplits(groups);
    TaggingKeepsOrder(groups);
    forall i, j | 0 <= i < j < |tagged| && IdOf(tagged[i]) != "" ensures IdOf(tagged[i]) != IdOf(tagged[j]) {
      if IdOf(tagged[i]) == IdOf(tagged[j]) {
        DifferentTurnsShareNoId(groups, tagged[i], tagged[j]);
      }
    }
  }

  lemma DifferentTurnsShareNoId(groups: seq<Group>, g: Group, h: Group)
    requires RowsAreKeyed(groups) && g in groups && h in groups && g != h && IdOf(g) != ""
    ensures IdOf(g) != IdOf(h)
  {
    if IdOf(h) != "" {
      var i :| 0 <= i < |groups| && groups[i] == g;
      var j :| 0 <= j < |groups| && groups[j] == h;
      var a := IdIsOfRow(g.rows);
      var b := IdIsOfRow(h.rows);
      assert i < j || j < i;
    }
  }

  /** The rebuilt index has exactly one entry per fully tagged turn, in turn order. */
  lemma OneEntryPerTaggedTurn(rows: seq<Row>, digest: string -> string)
    requires IdsAreKeys(rows)
    ensures var tagged := TaggedPairs(Groups(rows));
            var entries := RestoredEntries(rows, digest);
            && entries == EntriesOf(tagged, digest) && |entries| == |tagged|
            && IsIncreasing(entries)
            && (forall e :: e in entries ==> e.tags != [] && NoDuplicates(e.tags))
  {
    GroupsAreWellNumbered(rows);
    GroupsAreKeyed(rows);
    TaggedIdsAreDistinct(Groups(rows));
    OneEntryPerTaggedTurnIff(rows, digest);
  }

  lemma OneEntryPerTurnIff(tagged: seq<Group>, digest: string -> string)
    requires StrictlyNumbered(tagged)
    ensures |WithEntries([], EntriesOf(tagged, digest))| == |tagged| <==> IdsAreDistinct(tagged)
    ensures IdsAreDistinct(tagged) ==> WithEntries([], EntriesOf(tagged, digest)) == EntriesOf(tagged, digest)
  {
    var all := EntriesOf(tagged, digest);
    AllKeptFromEmptyIff(all);
  }

  lemma RebuiltEntriesAreOrdered(tagged: seq<Group>, digest: string -> string)
    requires StrictlyNumbered(tagged)
    ensures IsIncreasing(WithEntries([], EntriesOf(tagged, digest)))
  {
    var all := EntriesOf(tagged, digest);
    assert [] + all == all;
    AppendingKeepsIncreasing([], all);
  }

  lemma RebuiltEntriesHaveTags(tagged: seq<Group>, digest: string -> string)
    ensures forall e :: e in WithEntries([], EntriesOf(tagged, digest)) ==> e.tags != [] && NoDuplicates(e.tags)
  {
    var all := EntriesOf(tagged, digest);
    WithEntriesKeepsOrder([], all);
    forall e | e in WithEntries([], all) ensures e.tags != [] && NoDuplicates(e.tags) {
      assert e in all;
      var i :| 0 <= i < |all| && all[i] == e;
    }
  }

  ghost function IdOf(group: Group): string {
    FirstNonEmpty(group.rows, CanonicalId)
  }

  ghost predicate NoDuplicates(values: seq<string>) {
    forall i, j :: 0 <= i < j < |values| ==> values[i] != values[j]
  }

  ghost predicate IsIncreasing(entries: seq<Entry>) {
    forall i, j :: 0 <= i < j < |entries| ==> entries[i].turnNumber < entries[j].turnNumber
  }

  /** No two turns have the same non-empty canonical id. */
  ghost predicate IdsAreDistinct(groups: seq<Group>) {
    forall i, j :: 0 <= i < j < |groups| && IdOf(groups[i]) != "" ==> IdOf(groups[i]) != IdOf(groups[j])
  }

  lemma {:induction false} AppendingKeepsIncreasing(entries: seq<Entry>, more: seq<Entry>)
    requires IsIncreasing(entries + more)
    ensures IsIncreasing(WithEntries(entries, more))
    decreases |more|
  {
    if more == [] {
      assert entries + more == entries;
    } else {
      var e, rest := more[0], more[1..];
      assert more == [e] + rest;
      assert entries + more == (entries + [e]) + rest;
      if Clashes(entries, e) {
        DroppingKeepsIncreasing(entries, e, rest);
        AppendingKeepsIncreasing(entries, rest);
      } else {
        AppendingKeepsIncreasing(entries + [e], rest);
      }
    }
  }

  lemma DroppingKeepsIncreasing(entries: seq<Entry>, e: Entry, rest: seq<Entry>)
    requires IsIncreasing(entries + [e] + rest)
    ensures IsIncreasing(entries + rest)
  {
    var whole, shorter := entries + [e] + rest, entries + rest;
    forall i, j | 0 <= i < j < |shorter| ensures shorter[i].turnNumber < shorter[j].turnNumber {
      var k, m := if i < |entries| then i else i + 1, if j < |entries| then j else j + 1;
      assert whole[k] == shorter[i] && whole[m] == shorter[j];
    }
  }

  // ---------------------------------------------------------------------------------------
  // The three restore paths
  // ---------------------------------------------------------------------------------------

  /** The markers stand on the watermark of the rows, and flushing is not ahead of compaction. */
  ghost predicate OnWatermark(state: EngineState, rows: seq<Row>) {
    && state.compactedPrefixMessages == Derived(rows).messages
    && state.lastCompactedTurn == Derived(rows).lastTurn
    && state.flushedPrefixMessages <= state.compactedPrefixMessages
  }

  /** The flush marker that a checkpoint or a session state amounts to. */
  function SavedFlushed(saved: SessionState): int {
    RestoredFlushed(saved.markers.compactedPrefixMessages, saved.markers.flushedPrefixMessages, saved.flushedPresent)
  }

  function CachedFlushed(cached: RedisSnapshot): int {
    RestoredFlushed(cached.markers.compactedPrefixMessages, if cached.flushed.Some? then cached.flushed.value else 0, cached.flushed.Some?)
  }

  /**
   * Whatever the checkpoint claimed, with rows at hand the restart stands on their watermark. Only
   * a negative flush marker survives, as on the other two paths.
   */
  lemma CheckpointLandsOnWatermark(saved: Checkpoint, generation: int, indexed: seq<Entry>, rows: seq<Row>)
    requires rows != []
    ensures OnWatermark(LoadedState(saved, generation, indexed, Some(rows)), rows)
    ensures LoadedState(saved, generation, indexed, Some(rows)).flushedPrefixMessages >= 0 <==> SavedFlushed(saved) >= 0
  {
    RestoredMarkersAgree(CheckpointState(saved, generation, WithEntries(indexed, saved.entries)), rows);
  }

  /** Whatever the Redis snapshot claimed, a readable row set overrides it, even an empty one. */
  lemma SnapshotLandsOnWatermark(cached: RedisSnapshot, indexed: seq<Entry>, rows: seq<Row>)
    ensures OnWatermark(AppliedState(cached, indexed, Some(rows)), rows)
    ensures AppliedState(cached, indexed, Some(rows)).flushedPrefixMessages >= 0 <==> CachedFlushed(cached) >= 0
  {
  }

  /** Whatever the session state claimed, hydration stands on the watermark of the rows. */
  lemma SessionLandsOnWatermark(session: SessionState, rows: seq<Row>)
    ensures OnWatermark(HydratedState(session, Some(rows)), rows)
    ensures HydratedState(session, Some(rows)).flushedPrefixMessages >= 0 <==> SavedFlushed(session) >= 0
  {
    var state2 := WithRecovered(Rederived(SessionMarkers(session), Derived(rows)),
                                LastNumber(Groups(rows)), LastNumber(TaggedPairs(Groups(rows))));
    RestoredMarkersAgree(state2, rows);
  }

  /**
   * A restart from a checkpoint overrides the saved watermark unless the rows are unreadable or
   * empty; then it keeps it, stale or not, where the other two paths fall back to 0 on empty rows.
   */
  lemma CheckpointKeepsMarkIff(saved: Checkpoint, generation: int, indexed: seq<Entry>, rows: Option<seq<Row>>)
    ensures rows == None || rows == Some([]) ==>
              LoadedState(saved, generation, indexed, rows).compactedPrefixMessages == saved.markers.compactedPrefixMessages
    ensures rows.Some? ==>
              (LoadedState(saved, generation, indexed, rows).compactedPrefixMessages == Derived(rows.value).messages
               <==> rows.value != [] || saved.markers.compactedPrefixMessages == 0)
  {
    assert InferredGroups([]) == [];
    assert Derived([]).messages == 0;
  }

  // ---------------------------------------------------------------------------------------
  // Hydration heals in one step
  // ---------------------------------------------------------------------------------------

  ghost predicate TagsAreUnique(workingSet: seq<WorkingSetEntry>) {
    forall i, j :: 0 <= i < j < |workingSet| ==> workingSet[i].tag != workingSet[j].tag
  }

  lemma {:induction false} UpsertMembers(workingSet: seq<WorkingSetEntry>, e: WorkingSetEntry)
    ensures forall x :: x in Upsert(workingSet, e) ==> x == e || x in workingSet
  {
    if workingSet != [] {
      assert workingSet == [workingSet[0]] + workingSet[1..];
      UpsertMembers(workingSet[1..], e);
    }
  }

  lemma ConsIsUnique(head: WorkingSetEntry, rest: seq<WorkingSetEntry>)
    requires TagsAreUnique(rest) && forall x :: x in rest ==> x.tag != head.tag
    ensures TagsAreUnique([head] + rest)
  {}

  lemma {:induction false} UpsertIsDictionary(workingSet: seq<WorkingSetEntry>, e: WorkingSetEntry)
    requires TagsAreUnique(workingSet)
    ensures TagsAreUnique(Upsert(workingSet, e))
  {
    if workingSet != [] {
      var head, rest := workingSet[0], workingSet[1..];
      assert forall x :: x in rest ==> x.tag != head.tag;
      UpsertIsDictionary(rest, e);
      UpsertMembers(rest, e);
      if head.tag == e.tag {
        ConsIsUnique(e, rest);
      } else {
        ConsIsUnique(head, Upsert(rest, e));
      }
    }
  }

  lemma {:induction false} UpsertAppendsNew(workingSet: seq<WorkingSetEntry>, e: WorkingSetEntry)
    requires forall x :: x in workingSet ==> x.tag != e.tag
    ensures Upsert(workingSet, e) == workingSet + [e]
  {
    if workingSet != [] {
      assert workingSet == [workingSet[0]] + workingSet[1..];
      UpsertAppendsNew(workingSet[1..], e);
    }
  }

  lemma {:induction false} UpsertAllIsDictionary(workingSet: seq<WorkingSetEntry>, more: seq<WorkingSetEntry>)
    requires TagsAreUnique(workingSet)
    ensures TagsAreUnique(UpsertAll(workingSet, more))
    decreases |more|
  {
    if more != [] {
      UpsertIsDictionary(workingSet, more[0]);
      UpsertAllIsDictionary(Upsert(workingSet, more[0]), more[1..]);
    }
  }

  lemma {:induction false} UpsertUnique(workingSet: seq<WorkingSetEntry>, more: seq<WorkingSetEntry>)
    requires TagsAreUnique(workingSet + more)
    ensures UpsertAll(workingSet, more) == workingSet + more
    decreases |more|
  {
    if more == [] {
      assert workingSet + more == workingSet;
    } else {
      var e, rest := more[0], more[1..];
      assert workingSet + more == (workingSet + [e]) + rest;
      forall x | x in workingSet ensures x.tag != e.tag {
        var i :| 0 <= i < |workingSet| && workingSet[i] == x;
        assert (workingSet + more)[i] == x && (workingSet + more)[|workingSet|] == e;
      }
      UpsertAppendsNew(workingSet, e);
      UpsertUnique(workingSet + [e], rest);
    }
  }

  /** Everything a hydration sets: markers, index entries, working set. */
  datatype Hydrated = Hydrated(state: EngineState, entries: seq<Entry>, workingSet: seq<WorkingSetEntry>)

  ghost function Hydrate(session: SessionState, rows: Option<seq<Row>>, digest: string -> string): Hydrated {
    Hydrated(HydratedState(session, rows), HydratedEntries(session, rows, digest), UpsertAll([], session.workingSet))
  }

  ghost function Extract(h: Hydrated): SessionState {
    Extracted(h.state, h.entries, h.workingSet)
  }

  /** The two shapes of healed markers, with and without the rebuild from rows, are both fixed points. */
  lemma HealedMarkersAreStable(state: EngineState, mark: Mark, completed: int, indexed: int)
    requires mark.messages >= 0 && completed >= -1 && indexed >= -1
    ensures var healed := WithRecovered(Rederived(state, mark), completed, indexed);
            WithRecovered(Rederived(healed, mark), completed, indexed) == healed
    ensures var rebuilt := RestoredMarkers(WithRecovered(Rederived(state, mark), completed, indexed), mark, completed, indexed);
            WithRecovered(Rederived(rebuilt, mark), completed, indexed) == rebuilt
  {
  }

  lemma LastNumbersAreBounded(rows: seq<Row>)
    ensures LastNumber(Groups(rows)) >= -1 && LastNumber(TaggedPairs(Groups(rows))) >= -1
  {
    GroupsAreWellNumbered(rows);
    LastNumbersOfNumbered(Groups(rows));
  }

  lemma {:induction false} LastNumbersOfNumbered(groups: seq<Group>)
    requires WellNumbered(groups)
    ensures LastNumber(groups) >= -1 && LastNumber(TaggedPairs(groups)) >= -1
  {
    TaggingSplits(groups);
    var tagged := TaggedPairs(groups);
    assert tagged != [] ==> tagged[|tagged| - 1] in groups;
  }

  lemma HydratedStateIsStable(session: SessionState, rows: seq<Row>, digest: string -> string)
    ensures HydratedState(Extract(Hydrate(session, Some(rows), digest)), Some(rows)) == HydratedState(session, Some(rows))
  {
    LastNumbersAreBounded(rows);
    HealedMarkersAreStable(SessionMarkers(session), Derived(rows), LastNumber(Groups(rows)), LastNumber(TaggedPairs(Groups(rows))));
    var once := Hydrate(session, Some(rows), digest);
    HydratedEntriesAreStable(session, rows, digest);
    assert !Rebuilds(Extract(once), Some(rows));
    assert SessionMarkers(Extract(once)) == once.state;
  }

  lemma HydratedEntriesAreStable(session: SessionState, rows: seq<Row>, digest: string -> string)
    ensures var entries := HydratedEntries(session, Some(rows), digest);
            && WithEntries([], entries) == entries
            && (entries == [] ==> TaggedPairs(Groups(rows)) == [])
  {
    WithEntriesIsSingleValued([], session.entries);
    WithEntriesIsSingleValued([], EntriesOf(TaggedPairs(Groups(rows)), digest));
    ReappendingIsIdentity(HydratedEntries(session, Some(rows), digest));
    if Rebuilds(session, Some(rows)) {
      var all := EntriesOf(TaggedPairs(Groups(rows)), digest);
      WithEntriesKeepsOrder(WithEntry([], all[0]), all[1..]);
    }
  }

  /**
   * For any session state and any fixed readable rows, hydrating, extracting and hydrating again
   * gives the same markers, index and working set as hydrating once.
   */
  lemma HydrationHealsInOneStep(session: SessionState, rows: seq<Row>, digest: string -> string)
    ensures var once := Hydrate(session, Some(rows), digest);
            Hydrate(Extract(once), Some(rows), digest) == once
  {
    var once := Hydrate(session, Some(rows), digest);
    HydratedStateIsStable(session, rows, digest);
    HydratedEntriesAreStable(session, rows, digest);
    UpsertAllIsDictionary([], session.workingSet);
    UpsertUnique([], once.workingSet);
    assert [] + once.workingSet == once.workingSet;
  }

  /**
   * Healing follows the rows: a session extracted under old rows and hydrated under newer ones
   * stands on the newer watermark, with its flush marker never beyond it.
   */
  lemma RehydrationFollowsRows(session: SessionState, before: seq<Row>, after: seq<Row>, digest: string -> string)
    requires RowsAdvanced(before, after)
    ensures var once := Hydrate(session, Some(before), digest);
            var again := Hydrate(Extract(once), Some(after), digest);
            && OnWatermark(again.state, after)
            && once.state.compactedPrefixMessages <= again.state.compactedPrefixMessages
  {
    SessionLandsOnWatermark(session, before);
    SessionLandsOnWatermark(Extract(Hydrate(session, Some(before), digest)), after);
    CommitNeverLowers(before, after);
  }

  /**
   * Indexing may overtake completion: from markers in order, hydration leaves them in order exactly
   * when it rebuilds the index, or not an unset indexed marker is recovered beyond a set completed one.
   */
  lemma HydrationKeepsOrderIff(session: SessionState, rows: seq<Row>)
    requires session.markers.lastIndexedTurn <= session.markers.lastCompletedTurn
    ensures var before, after := session.markers, HydratedState(session, Some(rows));
            after.lastIndexedTurn <= after.lastCompletedTurn
            <==> Rebuilds(session, Some(rows))
                 || !(before.lastIndexedTurn <= 0 < before.lastCompletedTurn < LastNumber(TaggedPairs(Groups(rows))))
  {
    GroupsAreWellNumbered(rows);
    LastNumberIsHighest(Groups(rows));
    LastNumbersAreBounded(rows);
  }

  /** One concrete session in order that hydration leaves out of order: turn 2 is tagged, the saved index is at turn 0. */
  lemma HydrationOvertakes(row: Row, session: SessionState, entry: Entry)
    requires row.turnGroupNumber == 2 && row.IsTagged()
    requires session.entries == [entry] && session.markers.lastIndexedTurn == 0 && session.markers.lastCompletedTurn == 1
    ensures var after := HydratedState(session, Some([row])); after.lastIndexedTurn == 2 && after.lastCompletedTurn == 1
  {
    var rows := [row];
    ExplicitIsStablePartition(rows);
    assert RowsOf(rows, 2) == [row];
    assert row in rows;
    StrictlyNumberedIsUnique(Groups(rows), [Group(2, [row])]);
    assert TaggedPairs([Group(2, [row])]) == [Group(2, [row])];
    assert WithEntries([], session.entries) == [entry];
  }

  /** Extracting a session state loses nothing that hydration reads: without rows it comes back as it was. */
  lemma ExtractionRoundTrips(state: EngineState, entries: seq<Entry>, workingSet: seq<WorkingSetEntry>, digest: string -> string)
    requires IsSingleValued(entries) && TagsAreUnique(workingSet)
    ensures Hydrate(Extracted(state, entries, workingSet), None, digest) == Hydrated(state, entries, workingSet)
  {
    ReappendingIsIdentity(entries);
    UpsertUnique([], workingSet);
    assert [] + workingSet == workingSet;
  }

  // ---------------------------------------------------------------------------------------
  // Checkpoint markers
  // ---------------------------------------------------------------------------------------

  lemma {:induction false} HighestTurnIsHighest(entries: seq<Entry>)
    ensures forall e :: e in entries ==> e.turnNumber <= HighestTurn(entries)
    ensures entries != [] ==> exists e :: e in entries && e.turnNumber == HighestTurn(entries)
  {
    if entries != [] {
      assert entries == [entries[0]] + entries[1..];
      HighestTurnIsHighest(entries[1..]);
      if |entries| > 1 && HighestTurn(entries) == HighestTurn(entries[1..]) {
        var e :| e in entries[1..] && e.turnNumber == HighestTurn(entries[1..]);
        assert e in entries;
      } else {
        assert entries[0] in entries;
      }
    }
  }

  /** No entry is numbered above `n`; an empty index counts as turn -1. */
  ghost predicate BoundsEntries(entries: seq<Entry>, n: int) {
    (entries == [] ==> -1 <= n) && forall e :: e in entries ==> e.turnNumber <= n
  }

  predicate BoundsClaim(claim: Option<int>, n: int) {
    claim.Some? ==> claim.value <= n
  }

  /** The turns that `messages` messages cover in full are numbered at most `n`. */
  predicate BoundsCovered(messages: int, n: int) {
    messages < 2 * (n + 2)
  }

  /**
   * Updated checkpoint markers are the least that are not below the old ones nor below anything
   * shown: entries and claims for indexing, that and the history for completion, whole compacted
   * turns for compaction. So indexing stays behind completion whatever it was before.
   */
  lemma CheckpointMarkersAreLeast(state: EngineState, entries: seq<Entry>, historyCompleted: int,
                                  lastCompleted: Option<int>, lastIndexed: Option<int>)
    ensures var after := CheckpointMarked(state, entries, historyCompleted, lastCompleted, lastIndexed);
            && after.lastIndexedTurn <= after.lastCompletedTurn
            && (forall n :: after.lastIndexedTurn <= n <==>
                  state.lastIndexedTurn <= n && BoundsEntries(entries, n) && BoundsClaim(lastIndexed, n))
            && (forall n :: after.lastCompletedTurn <= n <==>
                  after.lastIndexedTurn <= n && state.lastCompletedTurn <= n && historyCompleted <= n && BoundsClaim(lastCompleted, n))
            && (forall n :: after.lastCompactedTurn <= n <==>
                  -1 <= n && state.lastCompactedTurn <= n && BoundsCovered(state.compactedPrefixMessages, n))
            && CheckpointMarked(after, entries, historyCompleted, lastCompleted, lastIndexed) == after
  {
    HighestTurnBounds(entries);
  }

  lemma HighestTurnBounds(entries: seq<Entry>)
    ensures forall n :: HighestTurn(entries) <= n <==> BoundsEntries(entries, n)
  {
    HighestTurnIsHighest(entries);
  }

}
