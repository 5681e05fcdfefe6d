/**
 * Turning a compaction watermark into an offset into the in-memory history, which the proxy may
 * have trimmed to a tail of the conversation.
 */
module HistoryWindow {
  import opened Options
  import opened CanonicalRows
  import opened RestoreSpec

  /**
   * The index from which history is still to be processed. `totalTurnsIndexed` tells a trimmed
   * window from a restart; `watermark` overrides the compaction marker.
   */
  function HistoryOffset(state: EngineState, historyLen: nat, totalTurnsIndexed: Option<int>, watermark: Option<int>): int {
    var ct := if watermark.Some? then watermark.value else state.compactedPrefixMessages;
    if ct < historyLen then ct
    else if totalTurnsIndexed.None? then 0
    else
      var historyTurns := historyLen / 2;
      var firstTurnInHistory := totalTurnsIndexed.value - historyTurns;
      var compactedTurn := ct / 2;
      if compactedTurn <= firstTurnInHistory then 0
      else Min((compactedTurn - firstTurnInHistory) * 2, historyLen)
  }

  /** A conversation of `turns` two-message turns, possibly with one more user message at the end. */
  ghost predicate IsConversation<T>(conversation: seq<T>, turns: nat) {
    |conversation| == 2 * turns || |conversation| == 2 * turns + 1
  }

  /** The boundary in force: the override where there is one, the compaction marker otherwise. */
  function Boundary(state: EngineState, watermark: Option<int>): int {
    if watermark.Some? then watermark.value else state.compactedPrefixMessages
  }

  /** What is left to process of the tail that starts at message `cut`. */
  ghost function LeftToProcess<T>(conversation: seq<T>, cut: nat, state: EngineState, turns: nat, watermark: Option<int>): seq<T>
    requires cut <= |conversation| && IsConversation(conversation, turns)
  {
    var window := conversation[cut..];
    var offset := HistoryOffset(state, |window|, Some(turns), watermark);
    if 0 <= offset <= |window| then window[offset..] else []
  }

  /**
   * The window theorem, with its exact condition. For a tail cut on a turn boundary and an even
   * watermark within the indexed turns, the marker's or an override, slicing at the offset leaves
   * exactly the messages of the conversation that are neither trimmed nor below the watermark, if and
   * only if the watermark is at least the window length, or the window is the whole conversation, or
   * the watermark is 0.
   */
  lemma WindowIsExactIff<T>(conversation: seq<T>, turns: nat, k: nat, state: EngineState, watermark: Option<int>)
    requires IsConversation(conversation, turns) && 2 * k <= |conversation|
    requires var ct := Boundary(state, watermark); 0 <= ct <= 2 * turns && ct % 2 == 0
    ensures var ct, cut := Boundary(state, watermark), 2 * k;
            LeftToProcess(conversation, cut, state, turns, watermark) == conversation[Max(ct, cut)..]
            <==> ct >= |conversation| - cut || cut == 0 || ct == 0
  {
    var ct, cut := Boundary(state, watermark), 2 * k;
    var window := conversation[cut..];
    var offset := HistoryOffset(state, |window|, Some(turns), watermark);
    assert 0 <= offset <= |window|;
    assert window[offset..] == conversation[cut + offset..];
    assert ct / 2 * 2 == ct;
    if cut + offset != Max(ct, cut) {
      assert |conversation[cut + offset..]| != |conversation[Max(ct, cut)..]|;
    }
  }

  /**
   * Outside that condition the offset is too large: of a trimmed window longer than the watermark
   * it drops as many messages as are below the watermark, though they were trimmed away or lie before
   * it, so the lesser of the watermark and the cut is skipped without cause.
   */
  lemma LongWindowSkipsUncompacted<T>(conversation: seq<T>, turns: nat, k: nat, state: EngineState, watermark: Option<int>)
    requires IsConversation(conversation, turns) && 2 * k <= |conversation|
    requires var ct := Boundary(state, watermark); 0 < ct <= 2 * turns && ct % 2 == 0
    requires k > 0 && Boundary(state, watermark) < |conversation| - 2 * k
    ensures var ct, cut := Boundary(state, watermark), 2 * k;
            && LeftToProcess(conversation, cut, state, turns, watermark) == conversation[cut + ct..]
            && cut + ct == Max(ct, cut) + Min(ct, cut)
  {
    var ct := Boundary(state, watermark);
    var window := conversation[2 * k..];
    assert window[ct..] == conversation[2 * k + ct..];
  }

  /** What is left of that tail when nothing is known about indexed turns. */
  ghost function LeftUncovered<T>(conversation: seq<T>, cut: nat, state: EngineState, watermark: Option<int>): seq<T>
    requires cut <= |conversation|
  {
    var window := conversation[cut..];
    var offset := HistoryOffset(state, |window|, None, watermark);
    if 0 <= offset <= |window| then window[offset..] else []
  }

  /**
   * Without index coverage, for any tail and any watermark: the slice leaves exactly the messages
   * that are neither trimmed nor compacted if and only if, for a history longer than the watermark,
   * nothing was trimmed or nothing is compacted, and otherwise the whole history is uncompacted. So
   * treating a history as fresh is right for one rebuilt from behind the watermark only.
   */
  lemma UncoveredWindowIsExactIff<T>(conversation: seq<T>, cut: nat, state: EngineState, watermark: Option<int>)
    requires cut <= |conversation|
    requires var ct := Boundary(state, watermark); 0 <= ct <= |conversation|
    ensures var ct := Boundary(state, watermark);
            LeftUncovered(conversation, cut, state, watermark) == conversation[Max(ct, cut)..]
            <==> if ct < |conversation| - cut then cut == 0 || ct == 0 else ct <= cut
  {
    var ct := Boundary(state, watermark);
    var window := conversation[cut..];
    var offset := if ct < |window| then ct else 0;
    assert LeftUncovered(conversation, cut, state, watermark) == window[offset..] == conversation[cut + offset..];
    assert |conversation[cut + offset..]| == |conversation[Max(ct, cut)..]| <==> cut + offset == Max(ct, cut);
  }
}
