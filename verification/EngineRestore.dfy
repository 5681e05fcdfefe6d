/** The engine's restore, hydrate and extract methods, proved against module RestoreSpec. */
module EngineRestore {
  import opened Options
  import opened CanonicalRows
  import opened Watermark
  import opened TurnTagIndexing
  import opened RestoreSpec

  class Engine {
    var state: EngineState
    var index: TurnTagIndex
    var workingSet: seq<WorkingSetEntry>
    var restoredWorkingSet: seq<WorkingSetEntry>
    var restoredHistory: seq<HistoryTurn>
    var restoredPending: seq<PendingTurn>
    const generation: int
    const digest: string -> string

    ghost predicate Valid()
      reads this, index
    {
      index.Valid()
    }

    constructor (generation: int, digest: string -> string)
      ensures Valid() && fresh(index)
      ensures state == FRESH_STATE && index.entries == []
      ensures this.generation == generation && this.digest == digest
    {
      this.generation, this.digest := generation, digest;
      state := FRESH_STATE;
      index := new TurnTagIndex();
      workingSet, restoredWorkingSet, restoredHistory, restoredPending := [], [], [], [];
    }

    static method PairPayloadFromRows(rows: seq<Row>) returns (payload: Payload)
      ensures payload == PayloadOf(rows)
    {
      var user, assistant := "", "";
      var userRaw: Option<string>, assistantRaw: Option<string> := None, None;
      assert rows[0..] == rows;
      for i := 0 to |rows|
        invariant user == "" ==> userRaw == None && FirstUser(rows) == FirstUser(rows[i..])
        invariant user != "" ==> FirstUser(rows).Some?
        invariant user != "" ==> user == FirstUser(rows).value.userContent && userRaw == FirstUser(rows).value.userRawContent
        invariant assistant == "" ==> assistantRaw == None && FirstAssistant(rows) == FirstAssistant(rows[i..])
        invariant assistant != "" ==> FirstAssistant(rows).Some?
        invariant assistant != "" ==> assistant == FirstAssistant(rows).value.assistantContent
        invariant assistant != "" ==> assistantRaw == FirstAssistant(rows).value.assistantRawContent
      {
        var row := rows[i];
        assert rows[i..][0] == row && rows[i..][1..] == rows[i + 1..];
        if user == "" && row.userContent != "" {
          user := row.userContent;
          userRaw := row.userRawContent;
        }
        if assistant == "" && row.assistantContent != "" {
          assistant := row.assistantContent;
          assistantRaw := row.assistantRawContent;
        }
      }
      payload := Payload(user, assistant, userRaw, assistantRaw);
    }

    /** One pass over the rows of a turn that collects its index entry. */
    static method BuildEntry(group: Group, digest: string -> string) returns (entry: Entry)
      ensures entry == EntryOf(group, digest)
    {
      var rows := group.rows;
      var payload := PairPayloadFromRows(rows);
      var primaryTag := "_general";
      var sender, sessionDate, canonicalTurnId := "", "", "";
      var tags: seq<string>, factSignals: seq<string>, codeRefs: seq<string> := [], [], [];
      assert rows[0..] == rows;
      for i := 0 to |rows|
        invariant FirstNonEmpty(rows, CanonicalId) == if canonicalTurnId != "" then canonicalTurnId else FirstNonEmpty(rows[i..], CanonicalId)
        invariant FirstNonEmpty(rows, Sender) == if sender != "" then sender else FirstNonEmpty(rows[i..], Sender)
        invariant FirstNonEmpty(rows, SessionDate) == if sessionDate != "" then sessionDate else FirstNonEmpty(rows[i..], SessionDate)
        invariant primaryTag == LastMeaningful(rows[..i])
        invariant tags == Collected(rows[..i], Tags)
        invariant factSignals == Collected(rows[..i], FactSignals)
        invariant codeRefs == Collected(rows[..i], CodeRefs)
      {
        var row := rows[i];
        assert rows[i..][0] == row && rows[i..][1..] == rows[i + 1..];
        assert rows[..i + 1][..i] == rows[..i] && rows[..i + 1][i] == row;
        if canonicalTurnId == "" {
          canonicalTurnId := row.canonicalTurnId;
        }
        if row.primaryTag != "" && row.primaryTag != "_general" {
          primaryTag := row.primaryTag;
        } else if primaryTag == "_general" {
          primaryTag := if row.primaryTag != "" then row.primaryTag else "_general";
        }
        if sender == "" {
          sender := row.sender;
        }
        if sessionDate == "" {
          sessionDate := row.sessionDate;
        }
        tags := tags + row.tags;
        factSignals := factSignals + row.factSignals;
        codeRefs := codeRefs + row.codeRefs;
      }
      assert rows[..|rows|] == rows;
      var distinct := Deduplicated(tags);
      entry := Entry(
        group.number, canonicalTurnId, digest(payload.user + " " + payload.assistant),
        if distinct == [] then [primaryTag] else distinct,
        primaryTag, sessionDate, factSignals, sender, codeRefs);
    }

    /** The watermark the rows show, or nothing when they cannot be read. */
    static method DeriveCompactedPrefixMessages(rows: Option<seq<Row>>) returns (derived: Option<Mark>)
      ensures derived == if rows.Some? then Some(Derived(rows.value)) else None
    {
      if rows.None? {
        return None;
      }
      var pairedRows := GroupCanonicalRowsIntoPairs(rows.value);
      var mark := CanonicalPrefixWatermark(pairedRows);
      return Some(mark);
    }

    /** The highest turn, and the highest tagged turn, that the grouped rows show. */
    static method DeriveProgress(paired: seq<Group>) returns (completed: int, indexed: int)
      requires WellNumbered(paired)
      ensures completed == LastNumber(paired) && indexed == LastNumber(TaggedPairs(paired))
    {
      completed, indexed := -1, -1;
      for i := 0 to |paired|
        invariant completed == LastNumber(paired[..i])
        invariant indexed == LastNumber(TaggedPairs(paired[..i]))
        invariant indexed <= completed
      {
        var pair := paired[i];
        assert paired[..i + 1] == paired[..i] + [pair];
        TaggedPairsAppend(paired[..i], pair);
        completed := Max(completed, pair.number);
        if FullyTagged(pair) {
          indexed := Max(indexed, pair.number);
        }
      }
      assert paired[..|paired|] == paired;
    }

    /** A new index with one entry per given turn, in order, as far as the index accepts them. */
    static method IndexTurns(taggedPairs: seq<Group>, digest: string -> string) returns (index: TurnTagIndex)
      ensures fresh(index) && index.Valid() && index.entries == WithEntries([], EntriesOf(taggedPairs, digest))
    {
      index := new TurnTagIndex();
      ghost var entries := EntriesOf(taggedPairs, digest);
      assert entries[0..] == entries;
      for i := 0 to |taggedPairs|
        invariant fresh(index) && index.Valid()
        invariant WithEntries([], entries) == WithEntries(index.entries, entries[i..])
      {
        assert entries[i..][0] == entries[i] && entries[i..][1..] == entries[i + 1..];
        var entry := BuildEntry(taggedPairs[i], digest);
        index.Append(entry);
      }
    }

    /** Rebuilds index, markers, history and pending turns from the rows, if there are any. */
    method RestoreFromCanonicalRows(rows: Option<seq<Row>>) returns (restored: bool)
      modifies `state, `index, `restoredHistory, `restoredPending
      ensures restored <==> rows.Some? && rows.value != []
      ensures restored ==> RestoredTo(old(state), rows.value) && fresh(index)
      ensures !restored ==> unchanged(this)
    {
      if rows.None? || rows.value == [] {
        return false;
      }
      var pairedRows := GroupCanonicalRowsIntoPairs(rows.value);
      RestoreFromGroups(pairedRows);
      return true;
    }

    ghost predicate RestoredTo(prior: EngineState, rows: seq<Row>)
      reads this, index
    {
      && index.Valid() && index.entries == RestoredEntries(rows, digest)
      && state == RestoredState(prior, rows)
      && restoredHistory == HistoryOf(LivePairs(Groups(rows)))
      && restoredPending == PendingOf(PendingPairs(Groups(rows)))
    }

    method RestoreFromGroups(pairedRows: seq<Group>)
      modifies `state, `index, `restoredHistory, `restoredPending
      ensures fresh(index) && index.Valid()
      ensures index.entries == WithEntries([], EntriesOf(TaggedPairs(pairedRows), digest))
      ensures state == RestoredMarkers(old(state), WatermarkOf(pairedRows), LastNumber(pairedRows), LastNumber(TaggedPairs(pairedRows)))
      ensures restoredHistory == HistoryOf(LivePairs(pairedRows))
      ensures restoredPending == PendingOf(PendingPairs(pairedRows))
    {
      var taggedPairs := TaggedPairs(pairedRows);
      index := IndexTurns(taggedPairs, digest);
      var livePairs := UncompactedPairs(taggedPairs);
      var pendingPairs := PendingPairs(pairedRows);
      var mark := CanonicalPrefixWatermark(pairedRows);
      var lastCompletedTurn := if pairedRows != [] then pairedRows[|pairedRows| - 1].number else -1;
      var lastIndexedTurn := if taggedPairs != [] then taggedPairs[|taggedPairs| - 1].number else -1;
      SetMarkers(mark, lastCompletedTurn, lastIndexedTurn);
      restoredHistory := HistoryOf(livePairs);
      restoredPending := PendingOf(pendingPairs);
    }

    method SetMarkers(mark: Mark, lastCompletedTurn: int, lastIndexedTurn: int)
      modifies this`state
      ensures state == RestoredMarkers(old(state), mark, lastCompletedTurn, lastIndexedTurn)
    {
      state := state.(compactedPrefixMessages := mark.messages);
      state := state.(flushedPrefixMessages := Min(state.flushedPrefixMessages, mark.messages));
      state := state.(lastCompactedTurn := mark.lastTurn);
      state := state.(lastCompletedTurn := Max(state.lastCompletedTurn, lastCompletedTurn));
      state := state.(lastIndexedTurn := Max(state.lastIndexedTurn, lastIndexedTurn));
      state := state.(checkpointVersion := Max(state.checkpointVersion, 4));
    }

    /** Raises the completed, indexed and compacted markers to what index, history and caller show. */
    method UpdateCheckpointMarkers(historyCompleted: int, lastCompleted: Option<int>, lastIndexed: Option<int>)
      modifies this`state
      ensures state == CheckpointMarked(old(state), index.entries, historyCompleted, lastCompleted, lastIndexed)
    {
      var indexed := HighestTurn(index.entries);
      if lastIndexed.Some? {
        indexed := Max(indexed, lastIndexed.value);
      }
      state := state.(lastIndexedTurn := Max(state.lastIndexedTurn, indexed));
      var completed := historyCompleted;
      if lastCompleted.Some? {
        completed := Max(completed, lastCompleted.value);
      }
      completed := Max(completed, state.lastIndexedTurn);
      state := state.(lastCompletedTurn := Max(state.lastCompletedTurn, completed));
      var compactedTurn := state.compactedPrefixMessages / 2 - 1;
      if state.compactedPrefixMessages <= 0 {
        compactedTurn := -1;
      }
      state := state.(lastCompactedTurn := Max(state.lastCompactedTurn, compactedTurn));
    }

    /** Restart from a store checkpoint. */
    method LoadPersistedState(saved: Checkpoint, rows: Option<seq<Row>>)
      requires Valid()
      modifies this, index
      ensures Valid()
      ensures state == LoadedState(saved, generation, old(index.entries), rows)
      ensures index.entries == if rows.Some? && rows.value != [] then RestoredEntries(rows.value, digest)
                               else WithEntries(old(index.entries), saved.entries)
      ensures restoredWorkingSet == saved.workingSet
      ensures restoredHistory == if rows.Some? then HistoryOf(LivePairs(Groups(rows.value))) else []
      ensures restoredPending == if rows.Some? then PendingOf(PendingPairs(Groups(rows.value))) else []
    {
      state := saved.markers.(
        flushedPrefixMessages := RestoredFlushed(saved.markers.compactedPrefixMessages, saved.markers.flushedPrefixMessages, saved.flushedPresent),
        conversationGeneration := Max(saved.markers.conversationGeneration, generation));
      index.AppendAll(saved.entries);
      UpdateCheckpointMarkers(-1, None, None);
      restoredWorkingSet := saved.workingSet;
      var restored := RestoreFromCanonicalRows(rows);
      if !restored {
        restoredHistory := [];
        restoredPending := [];
      }
    }

    /** Restart from a Redis snapshot, whose watermark the rows override. */
    method ApplyCachedState(cached: RedisSnapshot, rows: Option<seq<Row>>)
      requires Valid()
      modifies this, index
      ensures Valid()
      ensures state == AppliedState(cached, old(index.entries), rows)
      ensures index == old(index) && index.entries == WithEntries(old(index.entries), Undated(cached.entries))
      ensures restoredWorkingSet == cached.workingSet
    {
      var compacted := cached.markers.compactedPrefixMessages;
      var count := |cached.entries|;
      state := cached.markers.(
        flushedPrefixMessages := RestoredFlushed(compacted, if cached.flushed.Some? then cached.flushed.value else 0, cached.flushed.Some?),
        lastCompactedTurn := if cached.lastCompacted.Some? then cached.lastCompacted.value
                             else if compacted > 0 then compacted / 2 - 1 else -1,
        lastCompletedTurn := if cached.lastCompleted.Some? then cached.lastCompleted.value else count - 1,
        lastIndexedTurn := if cached.lastIndexed.Some? then cached.lastIndexed.value else count - 1);
      index.AppendAll(Undated(cached.entries));
      UpdateCheckpointMarkers(-1, None, None);
      restoredWorkingSet := cached.workingSet;
      var derived := DeriveCompactedPrefixMessages(rows);
      if derived.Some? {
        var mark := derived.value;
        state := state.(
          compactedPrefixMessages := mark.messages,
          lastCompactedTurn := mark.lastTurn,
          flushedPrefixMessages := Min(state.flushedPrefixMessages, mark.messages));
      }
    }

    /** Loads a session state, then lets the rows correct what they know better. */
    method HydrateFromSessionState(session: SessionState, rows: Option<seq<Row>>)
      requires Valid()
      modifies this
      ensures Valid() && fresh(index)
      ensures state == HydratedState(session, rows)
      ensures index.entries == HydratedEntries(session, rows, digest)
      ensures workingSet == UpsertAll([], session.workingSet)
    {
      state := session.markers.(
        flushedPrefixMessages := RestoredFlushed(session.markers.compactedPrefixMessages, session.markers.flushedPrefixMessages, session.flushedPresent));
      index := new TurnTagIndex();
      index.AppendAll(session.entries);
      LoadWorkingSet(session.workingSet);
      var derived := DeriveCompactedPrefixMessages(rows);
      if derived.Some? {
        CorrectWatermark(derived.value);
      }
      if rows.Some? && rows.value != [] {
        var derivedIndexed := RecoverProgress(rows.value);
        if index.entries == [] && derivedIndexed >= 0 {
          var _ := RestoreFromCanonicalRows(rows);
        }
      }
    }

    method LoadWorkingSet(entries: seq<WorkingSetEntry>)
      modifies this`workingSet
      ensures workingSet == UpsertAll([], entries)
    {
      workingSet := [];
      assert entries[0..] == entries;
      for i := 0 to |entries|
        invariant UpsertAll([], entries) == UpsertAll(workingSet, entries[i..])
      {
        assert entries[i..][0] == entries[i] && entries[i..][1..] == entries[i + 1..];
        workingSet := Upsert(workingSet, entries[i]);
      }
    }

    method CorrectWatermark(mark: Mark)
      modifies this`state
      ensures state == Rederived(old(state), mark)
    {
      var loadedFlushed := state.flushedPrefixMessages;
      state := state.(compactedPrefixMessages := mark.messages, lastCompactedTurn := mark.lastTurn);
      if loadedFlushed == 0 && mark.messages > 0 {
        state := state.(flushedPrefixMessages := mark.messages);
      } else {
        state := state.(flushedPrefixMessages := Min(loadedFlushed, mark.messages));
      }
    }

    method RecoverProgress(rows: seq<Row>) returns (derivedIndexed: int)
      modifies this`state
      ensures state == WithRecovered(old(state), LastNumber(Groups(rows)), LastNumber(TaggedPairs(Groups(rows))))
      ensures derivedIndexed >= 0 <==> TaggedPairs(Groups(rows)) != []
    {
      var paired := GroupCanonicalRowsIntoPairs(rows);
      GroupsAreWellNumbered(rows);
      var derivedCompleted;
      derivedCompleted, derivedIndexed := DeriveProgress(paired);
      TaggedPairsArePairs(paired);
      var tagged := TaggedPairs(paired);
      assert tagged != [] ==> tagged[|tagged| - 1] in paired;
      var loadedCompleted, loadedIndexed := state.lastCompletedTurn, state.lastIndexedTurn;
      if (loadedCompleted < 0 && derivedCompleted >= 0) || (loadedCompleted == 0 && derivedCompleted > 0) {
        state := state.(lastCompletedTurn := derivedCompleted);
      }
      if (loadedIndexed < 0 && derivedIndexed >= 0) || (loadedIndexed == 0 && derivedIndexed > 0) {
        state := state.(lastIndexedTurn := derivedIndexed);
      }
    }

    /** The session state to save for the next request. */
    method ExtractSessionState() returns (session: SessionState)
      ensures session == Extracted(state, index.entries, workingSet)
    {
      session := SessionState(state, true, index.entries, workingSet);
    }
  }

  lemma {:induction false} TaggedPairsAppend(groups: seq<Group>, group: Group)
    ensures TaggedPairs(groups + [group]) == TaggedPairs(groups) + (if FullyTagged(group) then [group] else [])
  {
    if groups == [] {
      assert [] + [group] == [group] && [group][1..] == [];
    } else {
      assert (groups + [group])[1..] == groups[1..] + [group];
      TaggedPairsAppend(groups[1..], group);
    }
  }

  lemma {:induction false} TaggedPairsArePairs(groups: seq<Group>)
    ensures forall group :: group in TaggedPairs(groups) ==> group in groups
  {
    if groups != [] {
      TaggedPairsArePairs(groups[1..]);
    }
  }
}
