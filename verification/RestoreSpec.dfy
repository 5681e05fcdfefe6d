/**
 * What a restart computes from canonical rows and from each of the three cached forms of the
 * engine state: a store checkpoint, a Redis snapshot, and a session state. Functions only; the
 * engine's methods are proved against them in module Engine.
 */
module RestoreSpec {
  import opened Options
  import opened CanonicalRows
  import opened Watermark
  import opened TurnTagIndexing

  /** The markers and counters of the shared engine state that restore paths read and write. */
  datatype EngineState = EngineState(
    compactedPrefixMessages: int,
    flushedPrefixMessages: int,
    lastRequestTime: real,
    lastCompactedTurn: int,
    lastCompletedTurn: int,
    lastIndexedTurn: int,
    checkpointVersion: int,
    conversationGeneration: int,
    toolTagCounter: int,
    splitProcessedTags: set<string>,
    trailingFingerprint: string,
    provider: string)

  const FRESH_STATE := EngineState(0, 0, 0.0, -1, -1, -1, 0, 0, 0, {}, "", "")

  datatype DepthLevel = NoDepth | Summary | Segments | Full

  datatype WorkingSetEntry = WorkingSetEntry(tag: string, depth: DepthLevel, tokens: int, lastAccessedTurn: int)

  /** A restored uncompacted turn, and a restored turn that still has to be tagged. */
  datatype HistoryTurn = HistoryTurn(turnNumber: int, user: string, assistant: string)
  datatype PendingTurn = PendingTurn(turnNumber: int, payload: Payload)
  datatype Payload = Payload(user: string, assistant: string, userRaw: Option<string>, assistantRaw: Option<string>)

  function Min(a: int, b: int): int { if a <= b then a else b }
  function Max(a: int, b: int): int { if a >= b then a else b }

  // ---------------------------------------------------------------------------------------
  // Turns into index entries and payloads
  // ---------------------------------------------------------------------------------------

  datatype TextField = CanonicalId | SessionDate | Sender
  datatype ListField = Tags | FactSignals | CodeRefs

  function Text(row: Row, field: TextField): string {
    match field
    case CanonicalId => row.canonicalTurnId
    case SessionDate => row.sessionDate
    case Sender => row.sender
  }

  function Items(row: Row, field: ListField): seq<string> {
    match field
    case Tags => row.tags
    case FactSignals => row.factSignals
    case CodeRefs => row.codeRefs
  }

  /** The first non-empty value of a field, or the empty string. */
  function FirstNonEmpty(rows: seq<Row>, field: TextField): string {
    if rows == [] then ""
    else if Text(rows[0], field) != "" then Text(rows[0], field)
    else FirstNonEmpty(rows[1..], field)
  }

  /** The last primary tag that is neither empty nor the general one. */
  function LastMeaningful(rows: seq<Row>): string {
    if rows == [] then "_general"
    else
      var last := rows[|rows| - 1].primaryTag;
      if last != "" && last != "_general" then last else LastMeaningful(rows[..|rows| - 1])
  }

  function Collected(rows: seq<Row>, field: ListField): seq<string> {
    if rows == [] then [] else Collected(rows[..|rows| - 1], field) + Items(rows[|rows| - 1], field)
  }

  /** First occurrences, in order. */
  function Deduplicated(values: seq<string>): (distinct: seq<string>)
    ensures forall v :: v in distinct <==> v in values
    ensures forall i, j :: 0 <= i < j < |distinct| ==> distinct[i] != distinct[j]
  {
    if values == [] then []
    else
      var front, last := values[..|values| - 1], values[|values| - 1];
      assert values == front + [last];
      if last in front then Deduplicated(front) else Deduplicated(front) + [last]
  }

  /** The contents of a turn: the first user text and the first assistant text, with their raw forms. */
  function PayloadOf(rows: seq<Row>): Payload {
    var user, assistant := FirstUser(rows), FirstAssistant(rows);
    Payload(
      if user.Some? then user.value.userContent else "",
      if assistant.Some? then assistant.value.assistantContent else "",
      if user.Some? then user.value.userRawContent else None,
      if assistant.Some? then assistant.value.assistantRawContent else None)
  }

  function FirstUser(rows: seq<Row>): (first: Option<Row>)
    ensures first.Some? ==> first.value in rows && first.value.HasUser()
  {
    if rows == [] then None else if rows[0].HasUser() then Some(rows[0]) else FirstUser(rows[1..])
  }

  function FirstAssistant(rows: seq<Row>): (first: Option<Row>)
    ensures first.Some? ==> first.value in rows && first.value.HasAssistant()
  {
    if rows == [] then None else if rows[0].HasAssistant() then Some(rows[0]) else FirstAssistant(rows[1..])
  }

  /** The index entry of a turn. `digest` stands for the message hash. */
  function EntryOf(group: Group, digest: string -> string): Entry {
    var rows := group.rows;
    var payload := PayloadOf(rows);
    var tags := Deduplicated(Collected(rows, Tags));
    Entry(
      group.number,
      FirstNonEmpty(rows, CanonicalId),
      digest(payload.user + " " + payload.assistant),
      if tags == [] then [LastMeaningful(rows)] else tags,
      LastMeaningful(rows),
      FirstNonEmpty(rows, SessionDate),
      Collected(rows, FactSignals),
      FirstNonEmpty(rows, Sender),
      Collected(rows, CodeRefs))
  }

  predicate FullyTagged(group: Group) {
    group.rows != [] && forall row | row in group.rows :: row.IsTagged()
  }

  function TaggedPairs(groups: seq<Group>): seq<Group> {
    if groups == [] then [] else (if FullyTagged(groups[0]) then [groups[0]] else []) + TaggedPairs(groups[1..])
  }

  function PendingPairs(groups: seq<Group>): seq<Group> {
    if groups == [] then [] else (if FullyTagged(groups[0]) then [] else [groups[0]]) + PendingPairs(groups[1..])
  }

  function CompactedPairs(groups: seq<Group>): seq<Group> {
    if groups == [] then [] else (if FullyCompacted(groups[0]) then [groups[0]] else []) + CompactedPairs(groups[1..])
  }

  function UncompactedPairs(groups: seq<Group>): seq<Group> {
    if groups == [] then [] else (if FullyCompacted(groups[0]) then [] else [groups[0]]) + UncompactedPairs(groups[1..])
  }

  function LivePairs(groups: seq<Group>): seq<Group> {
    UncompactedPairs(TaggedPairs(groups))
  }

  function EntriesOf(groups: seq<Group>, digest: string -> string): (entries: seq<Entry>)
    ensures |entries| == |groups| && forall i :: 0 <= i < |groups| ==> entries[i] == EntryOf(groups[i], digest)
  {
    seq(|groups|, i requires 0 <= i < |groups| => EntryOf(groups[i], digest))
  }

  function HistoryOf(groups: seq<Group>): (history: seq<HistoryTurn>)
    ensures |history| == |groups|
    ensures forall i :: 0 <= i < |groups| ==> history[i].turnNumber == groups[i].number
  {
    seq(|groups|, i requires 0 <= i < |groups| =>
      HistoryTurn(groups[i].number, PayloadOf(groups[i].rows).user, PayloadOf(groups[i].rows).assistant))
  }

  function PendingOf(groups: seq<Group>): (pending: seq<PendingTurn>)
    ensures |pending| == |groups|
    ensures forall i :: 0 <= i < |groups| ==> pending[i].turnNumber == groups[i].number
  {
    seq(|groups|, i requires 0 <= i < |groups| => PendingTurn(groups[i].number, PayloadOf(groups[i].rows)))
  }

  function LastNumber(groups: seq<Group>): int {
    if groups == [] then -1 else groups[|groups| - 1].number
  }

  // ---------------------------------------------------------------------------------------
  // Restoring from rows
  // ---------------------------------------------------------------------------------------

  /** Markers after a restore: watermark from the rows, flush marker clamped, the others only raised. */
  function RestoredMarkers(state: EngineState, mark: Mark, completed: int, indexed: int): EngineState {
    state.(
      compactedPrefixMessages := mark.messages,
      flushedPrefixMessages := Min(state.flushedPrefixMessages, mark.messages),
      lastCompactedTurn := mark.lastTurn,
      lastCompletedTurn := Max(state.lastCompletedTurn, completed),
      lastIndexedTurn := Max(state.lastIndexedTurn, indexed),
      checkpointVersion := Max(state.checkpointVersion, 4))
  }

  ghost function RestoredState(state: EngineState, rows: seq<Row>): EngineState {
    RestoredMarkers(state, Derived(rows), LastNumber(Groups(rows)), LastNumber(TaggedPairs(Groups(rows))))
  }

  function RestoredEntries(rows: seq<Row>, digest: string -> string): seq<Entry> {
    WithEntries([], EntriesOf(TaggedPairs(Groups(rows)), digest))
  }

  // ---------------------------------------------------------------------------------------
  // The cached forms
  // ---------------------------------------------------------------------------------------

  /** A missing flush marker falls back to the compaction marker; a stored zero stays zero. */
  function RestoredFlushed(compacted: int, flushed: int, present: bool): int {
    if !present then compacted else flushed
  }

  datatype SessionState = SessionState(
    markers: EngineState,
    flushedPresent: bool,
    entries: seq<Entry>,
    workingSet: seq<WorkingSetEntry>)

  /** The store checkpoint holds the same markers. */
  type Checkpoint = SessionState

  /** A Redis snapshot: a dictionary, so some markers may be missing from it. */
  datatype RedisSnapshot = RedisSnapshot(
    markers: EngineState,
    flushed: Option<int>,
    lastCompacted: Option<int>,
    lastCompleted: Option<int>,
    lastIndexed: Option<int>,
    entries: seq<Entry>,
    workingSet: seq<WorkingSetEntry>)

  function HighestTurn(entries: seq<Entry>): int {
    if entries == [] then -1
    else
      var rest := entries[1..];
      if rest == [] then entries[0].turnNumber else Max(entries[0].turnNumber, HighestTurn(rest))
  }

  /** Checkpoint markers after a look at the index, the history and the caller's own claims. */
  function CheckpointMarked(state: EngineState, entries: seq<Entry>, historyCompleted: int,
                            lastCompleted: Option<int>, lastIndexed: Option<int>): EngineState {
    var highest := HighestTurn(entries);
    var indexed := Max(state.lastIndexedTurn, if lastIndexed.Some? then Max(highest, lastIndexed.value) else highest);
    var claimed := if lastCompleted.Some? then Max(historyCompleted, lastCompleted.value) else historyCompleted;
    var completed := Max(state.lastCompletedTurn, Max(claimed, indexed));
    var compactedTurn := if state.compactedPrefixMessages <= 0 then -1 else state.compactedPrefixMessages / 2 - 1;
    state.(lastIndexedTurn := indexed, lastCompletedTurn := completed,
           lastCompactedTurn := Max(state.lastCompactedTurn, compactedTurn))
  }

  function MarkedByIndex(state: EngineState, entries: seq<Entry>): EngineState {
    CheckpointMarked(state, entries, -1, None, None)
  }

  // ---- Store checkpoint -----------------------------------------------------------------

  function CheckpointState(saved: Checkpoint, generation: int, entries: seq<Entry>): EngineState {
    var markers := saved.markers;
    MarkedByIndex(
      markers.(
        flushedPrefixMessages := RestoredFlushed(markers.compactedPrefixMessages, markers.flushedPrefixMessages, saved.flushedPresent),
        conversationGeneration := Max(markers.conversationGeneration, generation)),
      entries)
  }

  /** The state after a restart from a checkpoint; `None` means the rows could not be read. */
  ghost function LoadedState(saved: Checkpoint, generation: int, indexed: seq<Entry>, rows: Option<seq<Row>>): EngineState {
    var state := CheckpointState(saved, generation, WithEntries(indexed, saved.entries));
    if rows.Some? && rows.value != [] then RestoredState(state, rows.value) else state
  }

  // ---- Redis snapshot -------------------------------------------------------------------

  function SnapshotState(cached: RedisSnapshot, entries: seq<Entry>): EngineState {
    var markers := cached.markers;
    var compacted := markers.compactedPrefixMessages;
    var count := |cached.entries|;
    MarkedByIndex(
      markers.(
        flushedPrefixMessages := RestoredFlushed(compacted, if cached.flushed.Some? then cached.flushed.value else 0, cached.flushed.Some?),
        lastCompactedTurn := if cached.lastCompacted.Some? then cached.lastCompacted.value
                             else if compacted > 0 then compacted / 2 - 1 else -1,
        lastCompletedTurn := if cached.lastCompleted.Some? then cached.lastCompleted.value else count - 1,
        lastIndexedTurn := if cached.lastIndexed.Some? then cached.lastIndexed.value else count - 1),
      entries)
  }

  /** Index entries of a snapshot come back without their session dates. */
  function Undated(entries: seq<Entry>): (undated: seq<Entry>)
    ensures |undated| == |entries|
    ensures forall i :: 0 <= i < |entries| ==> undated[i] == entries[i].(sessionDate := "")
  {
    if entries == [] then [] else [entries[0].(sessionDate := "")] + Undated(entries[1..])
  }

  ghost function AppliedState(cached: RedisSnapshot, indexed: seq<Entry>, rows: Option<seq<Row>>): EngineState {
    var state := SnapshotState(cached, WithEntries(indexed, Undated(cached.entries)));
    if rows.None? then state
    else
      var mark := Derived(rows.value);
      state.(
        compactedPrefixMessages := mark.messages,
        lastCompactedTurn := mark.lastTurn,
        flushedPrefixMessages := Min(state.flushedPrefixMessages, mark.messages))
  }

  // ---- Session state --------------------------------------------------------------------

  function SessionMarkers(session: SessionState): EngineState {
    var markers := session.markers;
    markers.(flushedPrefixMessages := RestoredFlushed(markers.compactedPrefixMessages, markers.flushedPrefixMessages, session.flushedPresent))
  }

  /** The markers with the watermark re-derived; a loaded flush marker of 0 is not believed. */
  function Rederived(state: EngineState, mark: Mark): EngineState {
    var flushed := state.flushedPrefixMessages;
    state.(
      compactedPrefixMessages := mark.messages,
      lastCompactedTurn := mark.lastTurn,
      flushedPrefixMessages := if flushed == 0 && mark.messages > 0 then mark.messages else Min(flushed, mark.messages))
  }

  /** A marker at its sentinel value gives way to a derived one that shows progress. */
  function Recovered(loaded: int, derived: int): int {
    if (loaded < 0 && derived >= 0) || (loaded == 0 && derived > 0) then derived else loaded
  }

  function WithRecovered(state: EngineState, completed: int, indexed: int): EngineState {
    state.(
      lastCompletedTurn := Recovered(state.lastCompletedTurn, completed),
      lastIndexedTurn := Recovered(state.lastIndexedTurn, indexed))
  }

  /** Whether hydration rebuilds the index from rows: it came up empty and some turn is tagged. */
  predicate Rebuilds(session: SessionState, rows: Option<seq<Row>>) {
    rows.Some? && WithEntries([], session.entries) == [] && TaggedPairs(Groups(rows.value)) != []
  }

  ghost function HydratedState(session: SessionState, rows: Option<seq<Row>>): EngineState {
    var state := SessionMarkers(session);
    if rows.None? then state
    else
      var state1 := Rederived(state, Derived(rows.value));
      var state2 := WithRecovered(state1, LastNumber(Groups(rows.value)), LastNumber(TaggedPairs(Groups(rows.value))));
      if Rebuilds(session, rows) then RestoredState(state2, rows.value) else state2
  }

  function HydratedEntries(session: SessionState, rows: Option<seq<Row>>, digest: string -> string): seq<Entry> {
    if Rebuilds(session, rows) then RestoredEntries(rows.value, digest) else WithEntries([], session.entries)
  }

  /** A dictionary by tag, in insertion order: a repeated tag replaces the value in place. */
  function Upsert(workingSet: seq<WorkingSetEntry>, e: WorkingSetEntry): seq<WorkingSetEntry> {
    if workingSet == [] then [e]
    else if workingSet[0].tag == e.tag then [e] + workingSet[1..]
    else [workingSet[0]] + Upsert(workingSet[1..], e)
  }

  function UpsertAll(workingSet: seq<WorkingSetEntry>, more: seq<WorkingSetEntry>): seq<WorkingSetEntry>
    decreases |more|
  {
    if more == [] then workingSet else UpsertAll(Upsert(workingSet, more[0]), more[1..])
  }

  function Extracted(state: EngineState, entries: seq<Entry>, workingSet: seq<WorkingSetEntry>): SessionState {
    SessionState(state, true, entries, workingSet)
  }
}
