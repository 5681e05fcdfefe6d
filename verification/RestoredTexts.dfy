/**
 * What a restored turn contains, said of its rows alone: which text stands in which role, in the
 * history, in the turns still to be tagged and in the index entries.
 */
module RestoredTexts {
  import opened Options
  import opened CanonicalRows
  import opened TurnTagIndexing
  import opened RestoreSpec

  // ---------------------------------------------------------------------------------------
  // User and assistant texts
  // ---------------------------------------------------------------------------------------

  /** Row `j` is the first with user text, and this is its text and raw form; or no row has any. */
  ghost predicate IsUserText(rows: seq<Row>, text: string, raw: Option<string>) {
    || (exists j :: 0 <= j < |rows| && FirstUserAt(rows, j) && text == rows[j].userContent && raw == rows[j].userRawContent)
    || (text == "" && raw == None && forall j :: 0 <= j < |rows| ==> rows[j].userContent == "")
  }

  ghost predicate FirstUserAt(rows: seq<Row>, j: nat)
    requires j < |rows|
  {
    rows[j].userContent != "" && forall k :: 0 <= k < j ==> rows[k].userContent == ""
  }

  ghost predicate IsAssistantText(rows: seq<Row>, text: string, raw: Option<string>) {
    || (exists j :: 0 <= j < |rows| && FirstAssistantAt(rows, j) && text == rows[j].assistantContent && raw == rows[j].assistantRawContent)
    || (text == "" && raw == None && forall j :: 0 <= j < |rows| ==> rows[j].assistantContent == "")
  }

  ghost predicate FirstAssistantAt(rows: seq<Row>, j: nat)
    requires j < |rows|
  {
    rows[j].assistantContent != "" && forall k :: 0 <= k < j ==> rows[k].assistantContent == ""
  }

  lemma {:induction false} FirstUserIs(rows: seq<Row>)
    ensures var first := FirstUser(rows);
            if first.Some? then IsUserText(rows, first.value.userContent, first.value.userRawContent) else IsUserText(rows, "", None)
  {
    if rows != [] && !rows[0].HasUser() {
      FirstUserIs(rows[1..]);
      if FirstUser(rows[1..]).Some? {
        var rest := rows[1..];
        var first := FirstUser(rest).value;
        var j :| 0 <= j < |rest| && FirstUserAt(rest, j) && first.userContent == rest[j].userContent && first.userRawContent == rest[j].userRawContent;
        assert forall k :: 0 <= k < |rest| ==> rest[k] == rows[k + 1];
        assert FirstUserAt(rows, j + 1);
      }
    } else if rows != [] {
      assert FirstUserAt(rows, 0);
    }
  }

  lemma {:induction false} FirstAssistantIs(rows: seq<Row>)
    ensures var first := FirstAssistant(rows);
            if first.Some? then IsAssistantText(rows, first.value.assistantContent, first.value.assistantRawContent)
            else IsAssistantText(rows, "", None)
  {
    if rows != [] && !rows[0].HasAssistant() {
      FirstAssistantIs(rows[1..]);
      if FirstAssistant(rows[1..]).Some? {
        var rest := rows[1..];
        var first := FirstAssistant(rest).value;
        var j :| 0 <= j < |rest| && FirstAssistantAt(rest, j) && first.assistantContent == rest[j].assistantContent
                 && first.assistantRawContent == rest[j].assistantRawContent;
        assert forall k :: 0 <= k < |rest| ==> rest[k] == rows[k + 1];
        assert FirstAssistantAt(rows, j + 1);
      }
    } else if rows != [] {
      assert FirstAssistantAt(rows, 0);
    }
  }

  ghost predicate HoldsTexts(rows: seq<Row>, payload: Payload) {
    IsUserText(rows, payload.user, payload.userRaw) && IsAssistantText(rows, payload.assistant, payload.assistantRaw)
  }

  /** The first texts are unique, so what holds them is determined. */
  lemma TextsAreUnique(rows: seq<Row>, a: Payload, b: Payload)
    requires HoldsTexts(rows, a) && HoldsTexts(rows, b)
    ensures a == b
  {}

  lemma PayloadHoldsTexts(rows: seq<Row>)
    ensures HoldsTexts(rows, PayloadOf(rows))
  {
    FirstUserIs(rows);
    FirstAssistantIs(rows);
  }

  /**
   * The restored history: turn by turn the live turns, each with the text of its first row that has
   * user text as user text, and of its first row that has assistant text as assistant text.
   */
  lemma HistoryHoldsTexts(rows: seq<Row>)
    ensures var live, history := LivePairs(Groups(rows)), HistoryOf(LivePairs(Groups(rows)));
            && |history| == |live|
            && forall i :: 0 <= i < |live| ==>
                 && history[i].turnNumber == live[i].number
                 && (exists raw :: IsUserText(live[i].rows, history[i].user, raw))
                 && (exists raw :: IsAssistantText(live[i].rows, history[i].assistant, raw))
  {
    var live, history := LivePairs(Groups(rows)), HistoryOf(LivePairs(Groups(rows)));
    forall i | 0 <= i < |live|
      ensures exists raw :: IsUserText(live[i].rows, history[i].user, raw)
      ensures exists raw :: IsAssistantText(live[i].rows, history[i].assistant, raw)
    {
      PayloadHoldsTexts(live[i].rows);
      assert IsUserText(live[i].rows, history[i].user, PayloadOf(live[i].rows).userRaw);
      assert IsAssistantText(live[i].rows, history[i].assistant, PayloadOf(live[i].rows).assistantRaw);
    }
  }

  /** The turns still to be tagged: the same with the raw forms of the same rows. */
  lemma PendingHoldsTexts(rows: seq<Row>)
    ensures var pending, turns := PendingPairs(Groups(rows)), PendingOf(PendingPairs(Groups(rows)));
            && |turns| == |pending|
            && forall i :: 0 <= i < |pending| ==>
                 turns[i].turnNumber == pending[i].number && HoldsTexts(pending[i].rows, turns[i].payload)
  {
    var pending := PendingPairs(Groups(rows));
    forall i | 0 <= i < |pending| {
      PayloadHoldsTexts(pending[i].rows);
    }
  }

  // ---------------------------------------------------------------------------------------
  // The fields of an index entry
  // ---------------------------------------------------------------------------------------

  /** `value` is the first non-empty one, or all are empty and so is it. */
  ghost predicate IsFirstNonEmpty(values: seq<string>, value: string) {
    || (exists j :: 0 <= j < |values| && value == values[j] != "" && forall k :: 0 <= k < j ==> values[k] == "")
    || (value == "" && forall j :: 0 <= j < |values| ==> values[j] == "")
  }

  ghost predicate IsMeaningful(tag: string) {
    tag != "" && tag != "_general"
  }

  /** The last meaningful one, or the general one if none is. */
  ghost predicate IsLastMeaningful(values: seq<string>, value: string) {
    || (exists j :: 0 <= j < |values| && value == values[j] && IsMeaningful(value) && forall k :: j < k < |values| ==> !IsMeaningful(values[k]))
    || (value == "_general" && forall j :: 0 <= j < |values| ==> !IsMeaningful(values[j]))
  }

  function Senders(rows: seq<Row>): (values: seq<string>) {
    seq(|rows|, i requires 0 <= i < |rows| => rows[i].sender)
  }

  function SessionDates(rows: seq<Row>): (values: seq<string>) {
    seq(|rows|, i requires 0 <= i < |rows| => rows[i].sessionDate)
  }

  function CanonicalIds(rows: seq<Row>): (values: seq<string>) {
    seq(|rows|, i requires 0 <= i < |rows| => rows[i].canonicalTurnId)
  }

  function PrimaryTags(rows: seq<Row>): (values: seq<string>) {
    seq(|rows|, i requires 0 <= i < |rows| => rows[i].primaryTag)
  }

  lemma {:induction false} FirstNonEmptyIs(rows: seq<Row>, field: TextField, values: seq<string>)
    requires |values| == |rows| && forall i :: 0 <= i < |rows| ==> values[i] == Text(rows[i], field)
    ensures IsFirstNonEmpty(values, FirstNonEmpty(rows, field))
  {
    if rows != [] && values[0] == "" {
      FirstNonEmptyIs(rows[1..], field, values[1..]);
      var value := FirstNonEmpty(rows, field);
      if value != "" {
        var j :| 0 <= j < |values[1..]| && value == values[1..][j] != "" && forall k :: 0 <= k < j ==> values[1..][k] == "";
        assert forall k :: 0 < k < |values| ==> values[k] == values[1..][k - 1];
        assert value == values[j + 1];
      } else {
        assert forall k :: 0 < k < |values| ==> values[k] == values[1..][k - 1];
      }
    }
  }

  lemma LastMeaningfulAppend(values: seq<string>, last: string, value: string)
    requires IsLastMeaningful(values, value)
    ensures IsLastMeaningful(values + [last], if IsMeaningful(last) then last else value)
  {
    var longer := values + [last];
    if IsMeaningful(last) {
      assert longer[|values|] == last;
    } else if j :| 0 <= j < |values| && value == values[j] && IsMeaningful(value) && forall k :: j < k < |values| ==> !IsMeaningful(values[k]) {
      assert longer[j] == value;
      assert forall k :: j < k < |longer| ==> !IsMeaningful(longer[k]);
    } else {
      assert forall k :: 0 <= k < |longer| ==> !IsMeaningful(longer[k]);
    }
  }

  lemma {:induction false} LastMeaningfulIs(rows: seq<Row>)
    ensures IsLastMeaningful(PrimaryTags(rows), LastMeaningful(rows))
  {
    if rows != [] {
      var n := |rows| - 1;
      LastMeaningfulIs(rows[..n]);
      LastMeaningfulAppend(PrimaryTags(rows[..n]), rows[n].primaryTag, LastMeaningful(rows[..n]));
      assert PrimaryTags(rows) == PrimaryTags(rows[..n]) + [rows[n].primaryTag];
    }
  }

  /**
   * An entry rebuilt from a turn: the first ids, senders and session dates that are not empty, the
   * last meaningful primary tag, and the digest of the two texts in that order.
   */
  lemma EntryHoldsFields(group: Group, digest: string -> string, payload: Payload)
    requires HoldsTexts(group.rows, payload)
    ensures var entry, rows := EntryOf(group, digest), group.rows;
            && entry.turnNumber == group.number
            && IsFirstNonEmpty(CanonicalIds(rows), entry.canonicalTurnId)
            && IsFirstNonEmpty(SessionDates(rows), entry.sessionDate)
            && IsFirstNonEmpty(Senders(rows), entry.sender)
            && IsLastMeaningful(PrimaryTags(rows), entry.primaryTag)
            && entry.messageHash == digest(payload.user + " " + payload.assistant)
  {
    PayloadHoldsTexts(group.rows);
    TextsAreUnique(group.rows, payload, PayloadOf(group.rows));
    FirstNonEmptyIs(group.rows, CanonicalId, CanonicalIds(group.rows));
    FirstNonEmptyIs(group.rows, SessionDate, SessionDates(group.rows));
    FirstNonEmptyIs(group.rows, Sender, Senders(group.rows));
    LastMeaningfulIs(group.rows);
  }

  // ---- Lists ----------------------------------------------------------------------------

  /** All values of a list field, row after row. */
  ghost function Concatenated(lists: seq<seq<string>>): seq<string> {
    if lists == [] then [] else lists[0] + Concatenated(lists[1..])
  }

  function TagLists(rows: seq<Row>): (lists: seq<seq<string>>) {
    seq(|rows|, i requires 0 <= i < |rows| => rows[i].tags)
  }

  function SignalLists(rows: seq<Row>): (lists: seq<seq<string>>) {
    seq(|rows|, i requires 0 <= i < |rows| => rows[i].factSignals)
  }

  function CodeLists(rows: seq<Row>): (lists: seq<seq<string>>) {
    seq(|rows|, i requires 0 <= i < |rows| => rows[i].codeRefs)
  }

  lemma {:induction false} ConcatenatedAppend(lists: seq<seq<string>>, last: seq<string>)
    ensures Concatenated(lists + [last]) == Concatenated(lists) + last
  {
    if lists == [] {
      assert [] + [last] == [last] && [last][1..] == [];
    } else {
      assert (lists + [last])[1..] == lists[1..] + [last];
      ConcatenatedAppend(lists[1..], last);
    }
  }

  lemma {:induction false} CollectedIs(rows: seq<Row>, field: ListField, lists: seq<seq<string>>)
    requires |lists| == |rows| && forall i :: 0 <= i < |rows| ==> lists[i] == Items(rows[i], field)
    ensures Collected(rows, field) == Concatenated(lists)
  {
    if rows != [] {
      var n := |rows| - 1;
      CollectedIs(rows[..n], field, lists[..n]);
      assert lists == lists[..n] + [lists[n]];
      ConcatenatedAppend(lists[..n], lists[n]);
    }
  }

  /** `value` occurs, and `other` does not occur up to there. */
  ghost predicate OccursBefore(values: seq<string>, value: string, other: string) {
    exists p :: 0 <= p < |values| && values[p] == value && forall q :: 0 <= q <= p ==> values[q] != other
  }

  /** The same values, each once, in the order of their first occurrences. */
  ghost predicate AreFirstOccurrences(values: seq<string>, distinct: seq<string>) {
    && (forall v :: v in distinct <==> v in values)
    && forall i, j :: 0 <= i < j < |distinct| ==> OccursBefore(values, distinct[i], distinct[j])
  }

  lemma OccursEarlier(front: seq<string>, last: string, value: string, other: string)
    requires OccursBefore(front, value, other)
    ensures OccursBefore(front + [last], value, other)
  {
    var p :| 0 <= p < |front| && front[p] == value && forall q :: 0 <= q <= p ==> front[q] != other;
    assert (front + [last])[p] == value;
  }

  lemma {:induction false} DeduplicatedIs(values: seq<string>)
    ensures AreFirstOccurrences(values, Deduplicated(values))
  {
    if values != [] {
      var front, last := values[..|values| - 1], values[|values| - 1];
      var before, distinct := Deduplicated(front), Deduplicated(values);
      assert values == front + [last];
      DeduplicatedIs(front);
      forall i, j | 0 <= i < j < |distinct| ensures OccursBefore(values, distinct[i], distinct[j]) {
        if j < |before| {
          OccursEarlier(front, last, distinct[i], distinct[j]);
        } else {
          assert distinct[i] in front;
          var p :| 0 <= p < |front| && front[p] == distinct[i];
          assert values[p] == distinct[i];
        }
      }
    }
  }

  /**
   * The lists of an entry: fact signals and code references of all rows in row order, and the tags of
   * all rows once each by first occurrence, or else the primary tag alone.
   */
  lemma EntryHoldsLists(group: Group, digest: string -> string)
    ensures var entry, rows := EntryOf(group, digest), group.rows;
            && entry.factSignals == Concatenated(SignalLists(rows))
            && entry.codeRefs == Concatenated(CodeLists(rows))
            && (Concatenated(TagLists(rows)) == [] ==> entry.tags == [entry.primaryTag])
            && (Concatenated(TagLists(rows)) != [] ==> AreFirstOccurrences(Concatenated(TagLists(rows)), entry.tags))
  {
    CollectedIs(group.rows, FactSignals, SignalLists(group.rows));
    CollectedIs(group.rows, CodeRefs, CodeLists(group.rows));
    CollectedIs(group.rows, Tags, TagLists(group.rows));
    var tags := Collected(group.rows, Tags);
    DeduplicatedIs(tags);
    if tags != [] {
      assert tags[0] in Deduplicated(tags);
    }
  }
}
