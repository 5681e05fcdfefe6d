/**
 * What each restore path makes of the markers and of the working set it was given, said of the cached
 * values and the rows alone.
 */
module RestoredState {
  import opened Options
  import opened CanonicalRows
  import opened Watermark
  import opened TurnTagIndexing
  import opened RestoreSpec
  import opened Recovery
  import opened RestoredTexts

  // ---------------------------------------------------------------------------------------
  // The flush marker
  // ---------------------------------------------------------------------------------------

  /** `stored` is the flush marker in the cache or, where the cache has none, its compaction marker. */
  ghost predicate IsStoredFlush(markers: EngineState, present: bool, stored: int) {
    (present ==> stored == markers.flushedPrefixMessages) && (!present ==> stored == markers.compactedPrefixMessages)
  }

  /**
   * Hydration keeps the stored flush marker if and only if it is within the watermark of the rows and
   * is not 0 under a positive watermark; otherwise the marker moves to the watermark. Without rows it
   * is kept.
   */
  lemma HydratedFlushIff(session: SessionState, rows: seq<Row>, stored: int)
    requires IsStoredFlush(session.markers, session.flushedPresent, stored)
    ensures var after, watermark := HydratedState(session, Some(rows)).flushedPrefixMessages, Derived(rows).messages;
            && (after == stored <==> stored <= watermark && !(stored == 0 < watermark))
            && (after != stored ==> after == watermark)
    ensures HydratedState(session, None).flushedPrefixMessages == stored
  {}

  /** A restart from a checkpoint keeps it exactly when it is within the watermark, or there are no rows. */
  lemma LoadedFlushIff(saved: Checkpoint, generation: int, indexed: seq<Entry>, rows: seq<Row>, stored: int)
    requires IsStoredFlush(saved.markers, saved.flushedPresent, stored)
    ensures var after, watermark := LoadedState(saved, generation, indexed, Some(rows)).flushedPrefixMessages, Derived(rows).messages;
            && (after == stored <==> rows == [] || stored <= watermark)
            && (after != stored ==> after == watermark)
    ensures LoadedState(saved, generation, indexed, None).flushedPrefixMessages == stored
  {}

  /** A snapshot's is kept exactly when it is within the watermark, be there rows or not. */
  lemma AppliedFlushIff(cached: RedisSnapshot, indexed: seq<Entry>, rows: seq<Row>, stored: int)
    requires if cached.flushed.Some? then stored == cached.flushed.value else stored == cached.markers.compactedPrefixMessages
    ensures var after, watermark := AppliedState(cached, indexed, Some(rows)).flushedPrefixMessages, Derived(rows).messages;
            && (after == stored <==> stored <= watermark)
            && (after != stored ==> after == watermark)
    ensures AppliedState(cached, indexed, None).flushedPrefixMessages == stored
  {}

  // ---------------------------------------------------------------------------------------
  // Progress
  // ---------------------------------------------------------------------------------------

  ghost predicate BoundsRows(rows: Option<seq<Row>>, n: int) {
    rows.Some? && rows.value != [] ==> -1 <= n && BoundsTurns(Groups(rows.value), n)
  }

  ghost predicate BoundsTaggedRows(rows: Option<seq<Row>>, n: int) {
    rows.Some? && rows.value != [] ==> -1 <= n && BoundsTagged(Groups(rows.value), n)
  }

  /**
   * A restart from a checkpoint: the indexed marker is the least not below the saved one, the entries
   * of the index and the tagged turns; the completed one the least not below the saved one, -1, what
   * was indexed, and the turns.
   */
  lemma LoadedProgressIsLeast(saved: Checkpoint, generation: int, indexed: seq<Entry>, rows: Option<seq<Row>>)
    ensures var after, entries := LoadedState(saved, generation, indexed, rows), WithEntries(indexed, saved.entries);
            && (forall n :: after.lastIndexedTurn <= n <==>
                  saved.markers.lastIndexedTurn <= n && BoundsEntries(entries, n) && BoundsTaggedRows(rows, n))
            && (forall n :: after.lastCompletedTurn <= n <==>
                  && -1 <= n && saved.markers.lastCompletedTurn <= n && saved.markers.lastIndexedTurn <= n
                  && BoundsEntries(entries, n) && BoundsRows(rows, n))
  {
    var entries := WithEntries(indexed, saved.entries);
    var state := CheckpointState(saved, generation, entries);
    HighestTurnBounds(entries);
    if rows.Some? && rows.value != [] {
      RestoredProgressIsLeast(state, rows.value);
    }
  }

  /** A marker missing from a snapshot counts as one less than its number of entries. */
  ghost predicate BoundsStored(marker: Option<int>, entries: seq<Entry>, n: int) {
    (marker.Some? ==> marker.value <= n) && (marker.None? ==> |entries| - 1 <= n)
  }

  /** A restart from a snapshot: the least not below what is stored and what the index holds. */
  lemma AppliedProgressIsLeast(cached: RedisSnapshot, indexed: seq<Entry>, rows: Option<seq<Row>>)
    ensures var after, entries := AppliedState(cached, indexed, rows), WithEntries(indexed, Undated(cached.entries));
            && (forall n :: after.lastIndexedTurn <= n <==>
                  BoundsStored(cached.lastIndexed, cached.entries, n) && BoundsEntries(entries, n))
            && (forall n :: after.lastCompletedTurn <= n <==>
                  && -1 <= n && BoundsStored(cached.lastCompleted, cached.entries, n)
                  && BoundsStored(cached.lastIndexed, cached.entries, n) && BoundsEntries(entries, n))
            && (rows.None? ==> forall n :: after.lastCompactedTurn <= n <==>
                  && -1 <= n && BoundsClaim(cached.lastCompacted, n) && BoundsCovered(cached.markers.compactedPrefixMessages, n))
  {
    HighestTurnBounds(WithEntries(indexed, Undated(cached.entries)));
  }

  /**
   * Hydration: a set marker (above 0) is believed; an unset one becomes the least not below itself and
   * the turns of the rows, or for the indexed marker the tagged turns. Where the index is rebuilt a
   * set marker is raised as well.
   */
  lemma HydratedProgressIs(session: SessionState, rows: seq<Row>)
    requires session.markers.lastCompletedTurn >= -1 && session.markers.lastIndexedTurn >= -1
    ensures var before, after := session.markers, HydratedState(session, Some(rows));
            && (before.lastCompletedTurn > 0 && !Rebuilds(session, Some(rows)) ==> after.lastCompletedTurn == before.lastCompletedTurn)
            && (before.lastIndexedTurn > 0 && !Rebuilds(session, Some(rows)) ==> after.lastIndexedTurn == before.lastIndexedTurn)
            && (before.lastCompletedTurn <= 0 || Rebuilds(session, Some(rows)) ==>
                  forall n :: after.lastCompletedTurn <= n <==> before.lastCompletedTurn <= n && BoundsTurns(Groups(rows), n))
            && (before.lastIndexedTurn <= 0 || Rebuilds(session, Some(rows)) ==>
                  forall n :: after.lastIndexedTurn <= n <==> before.lastIndexedTurn <= n && BoundsTagged(Groups(rows), n))
  {
    RestoredProgressIsLeast(FRESH_STATE, rows);
    LastNumbersAreBounded(rows);
  }

  // ---------------------------------------------------------------------------------------
  // What is carried over
  // ---------------------------------------------------------------------------------------

  /** Everything but markers, version and generation. */
  ghost predicate CarriesOver(before: EngineState, after: EngineState) {
    && after.lastRequestTime == before.lastRequestTime
    && after.toolTagCounter == before.toolTagCounter
    && after.splitProcessedTags == before.splitProcessedTags
    && after.trailingFingerprint == before.trailingFingerprint
    && after.provider == before.provider
  }

  /**
   * All three paths carry the rest of the cached state over. The generation is the cached one, for a
   * checkpoint the higher of it and the engine's own; the version is the cached one, or at least 4
   * where the rows were restored.
   */
  lemma RestoresCarryOver(saved: Checkpoint, generation: int, cached: RedisSnapshot, indexed: seq<Entry>, rows: Option<seq<Row>>)
    ensures var after := LoadedState(saved, generation, indexed, rows);
            && CarriesOver(saved.markers, after)
            && after.conversationGeneration >= saved.markers.conversationGeneration && after.conversationGeneration >= generation
            && after.conversationGeneration in {saved.markers.conversationGeneration, generation}
            && (rows.Some? && rows.value != [] ==>
                  after.checkpointVersion >= 4 && after.checkpointVersion >= saved.markers.checkpointVersion
                  && after.checkpointVersion in {4, saved.markers.checkpointVersion})
            && (rows.None? || rows.value == [] ==> after.checkpointVersion == saved.markers.checkpointVersion)
    ensures var after := AppliedState(cached, indexed, rows);
            && CarriesOver(cached.markers, after)
            && after.conversationGeneration == cached.markers.conversationGeneration
            && after.checkpointVersion == cached.markers.checkpointVersion
    ensures var after := HydratedState(saved, rows);
            && CarriesOver(saved.markers, after)
            && after.conversationGeneration == saved.markers.conversationGeneration
            && (Rebuilds(saved, rows) ==>
                  after.checkpointVersion >= 4 && after.checkpointVersion >= saved.markers.checkpointVersion
                  && after.checkpointVersion in {4, saved.markers.checkpointVersion})
            && (!Rebuilds(saved, rows) ==> after.checkpointVersion == saved.markers.checkpointVersion)
  {}

  // ---------------------------------------------------------------------------------------
  // The working set
  // ---------------------------------------------------------------------------------------

  function TagsOf(workingSet: seq<WorkingSetEntry>): (tags: seq<string>) {
    seq(|workingSet|, i requires 0 <= i < |workingSet| => workingSet[i].tag)
  }

  /** The last entry with its tag. */
  ghost predicate IsLatest(entries: seq<WorkingSetEntry>, e: WorkingSetEntry) {
    exists j :: 0 <= j < |entries| && entries[j] == e && forall k :: j < k < |entries| ==> entries[k].tag != e.tag
  }

  lemma IsLatestAppend(entries: seq<WorkingSetEntry>, last: WorkingSetEntry, e: WorkingSetEntry)
    ensures IsLatest(entries + [last], e) <==> e == last || (IsLatest(entries, e) && e.tag != last.tag)
  {
    var longer, n := entries + [last], |entries|;
    assert longer[n] == last;
    if IsLatest(entries, e) && e.tag != last.tag {
      var j :| 0 <= j < n && entries[j] == e && forall k :: j < k < n ==> entries[k].tag != e.tag;
      assert longer[j] == e && forall k :: j < k < |longer| ==> longer[k].tag != e.tag;
    }
    if IsLatest(longer, e) && e != last {
      var j :| 0 <= j < |longer| && longer[j] == e && forall k :: j < k < |longer| ==> longer[k].tag != e.tag;
      assert entries[j] == e && forall k :: j < k < n ==> longer[k] == entries[k];
    }
  }

  lemma {:induction false} UpsertAllAppend(workingSet: seq<WorkingSetEntry>, more: seq<WorkingSetEntry>, e: WorkingSetEntry)
    ensures UpsertAll(workingSet, more + [e]) == Upsert(UpsertAll(workingSet, more), e)
    decreases |more|
  {
    if more == [] {
      assert [] + [e] == [e] && [e][1..] == [];
    } else {
      assert (more + [e])[1..] == more[1..] + [e];
      UpsertAllAppend(Upsert(workingSet, more[0]), more[1..], e);
    }
  }

  lemma {:induction false} UpsertIs(workingSet: seq<WorkingSetEntry>, e: WorkingSetEntry)
    requires TagsAreUnique(workingSet)
    ensures forall x :: x in Upsert(workingSet, e) <==> x == e || (x in workingSet && x.tag != e.tag)
  {
    if workingSet != [] {
      var head, rest := workingSet[0], workingSet[1..];
      assert workingSet == [head] + rest;
      forall x | x in rest ensures x.tag != head.tag {
        var i :| 0 <= i < |rest| && rest[i] == x;
        assert workingSet[i + 1] == x;
      }
      if head.tag != e.tag {
        UpsertIs(rest, e);
      }
    }
  }

  lemma {:induction false} UpsertTags(workingSet: seq<WorkingSetEntry>, e: WorkingSetEntry)
    ensures TagsOf(Upsert(workingSet, e)) == TagsOf(workingSet) + (if e.tag in TagsOf(workingSet) then [] else [e.tag])
  {
    if workingSet != [] {
      var head, rest := workingSet[0], workingSet[1..];
      assert TagsOf(workingSet) == [head.tag] + TagsOf(rest);
      if head.tag == e.tag {
        assert TagsOf([e] + rest) == [e.tag] + TagsOf(rest);
      } else {
        UpsertTags(rest, e);
        assert TagsOf([head] + Upsert(rest, e)) == [head.tag] + TagsOf(Upsert(rest, e));
      }
    }
  }

  /**
   * A working set loaded from a list of entries: of each tag the last entry, in the order in which the
   * tags first occur.
   */
  lemma {:induction false} WorkingSetIs(entries: seq<WorkingSetEntry>)
    ensures forall e :: e in UpsertAll([], entries) <==> IsLatest(entries, e)
    ensures TagsAreUnique(UpsertAll([], entries))
    ensures AreFirstOccurrences(TagsOf(entries), TagsOf(UpsertAll([], entries)))
  {
    UpsertAllIsDictionary([], entries);
    LoadedTags(entries);
    DeduplicatedIs(TagsOf(entries));
    if entries != [] {
      var front, last := entries[..|entries| - 1], entries[|entries| - 1];
      assert entries == front + [last];
      WorkingSetIs(front);
      UpsertAllAppend([], front, last);
      UpsertIs(UpsertAll([], front), last);
      forall e { IsLatestAppend(front, last, e); }
    }
  }

  lemma {:induction false} LoadedTags(entries: seq<WorkingSetEntry>)
    ensures TagsOf(UpsertAll([], entries)) == Deduplicated(TagsOf(entries))
  {
    if entries != [] {
      var front, last := entries[..|entries| - 1], entries[|entries| - 1];
      assert entries == front + [last];
      LoadedTags(front);
      UpsertAllAppend([], front, last);
      UpsertTags(UpsertAll([], front), last);
      assert TagsOf(entries) == TagsOf(front) + [last.tag];
    }
  }
}
