/**
 * Generation fencing: every write through a conversation's store view is checked against the
 * durable lifecycle record, so that a worker left over from before a deletion cannot write into
 * the conversation that was created again under the same id.
 */
module Fencing {

  /** The durable lifecycle record of one conversation. */
  datatype Life = Life(generation: nat, deleted: bool)

  type Lifecycle = map<string, Life>

  /** A write that reached the store. */
  datatype Landed = Landed(view: nat, conversation: string, generation: int)

  // ---------------------------------------------------------------------------------------
  // The lifecycle table
  // ---------------------------------------------------------------------------------------

  function GenerationOf(table: Lifecycle, id: string): nat {
    if id in table then table[id].generation else 0
  }

  function Activated(table: Lifecycle, id: string): Lifecycle {
    table[id := Life(GenerationOf(table, id), false)]
  }

  function DeletionBegun(table: Lifecycle, id: string): Lifecycle {
    table[id := Life(GenerationOf(table, id) + 1, true)]
  }

  predicate IsCurrent(table: Lifecycle, id: string, generation: int) {
    if id in table then table[id].generation == generation && !table[id].deleted else generation == 0
  }

  /** After an activation exactly the generation it returned is current. */
  lemma ActivationMakesCurrent(table: Lifecycle, id: string, generation: int)
    ensures IsCurrent(Activated(table, id), id, generation) <==> generation == GenerationOf(table, id)
  {}

  /**
   * From the beginning of a deletion to the next activation no generation is current, and after it
   * none that was current before; other conversations are not affected.
   */
  lemma DeletionUnseatsAll(table: Lifecycle, id: string, other: string, generation: int)
    ensures !IsCurrent(DeletionBegun(table, id), id, generation)
    ensures IsCurrent(table, id, generation) ==> !IsCurrent(Activated(DeletionBegun(table, id), id), id, generation)
    ensures other != id ==> (IsCurrent(DeletionBegun(table, id), other, generation) <==> IsCurrent(table, other, generation))
  {}

  class LifecycleStore {
    var table: Lifecycle
    var landed: seq<Landed>

    constructor ()
      ensures table == map[] && landed == []
    {
      table, landed := map[], [];
    }

    method ActivateConversation(id: string) returns (generation: nat)
      modifies `table
      ensures table == Activated(old(table), id) && generation == GenerationOf(old(table), id)
    {
      if id !in table {
        table := table[id := Life(0, false)];
        return 0;
      }
      generation := table[id].generation;
      table := table[id := Life(generation, false)];
    }

    method BeginConversationDeletion(id: string) returns (generation: nat)
      modifies `table
      ensures table == DeletionBegun(old(table), id) && generation == GenerationOf(table, id)
    {
      generation := if id in table then table[id].generation + 1 else 1;
      table := table[id := Life(generation, true)];
    }

    method IsConversationGenerationCurrent(id: string, generation: int) returns (current: bool)
      ensures current == IsCurrent(table, id, generation)
    {
      if id !in table {
        return generation == 0;
      }
      return table[id].generation == generation && !table[id].deleted;
    }

    method ApplyWrite(write: Landed)
      modifies `landed
      ensures landed == old(landed) + [write]
    {
      landed := landed + [write];
    }
  }

  /** A store wrapper bound to one conversation and to the generation it was opened under. */
  class ConversationStoreView {
    const store: LifecycleStore
    const conversationId: string
    const number: nat
    var generation: int

    constructor (store: LifecycleStore, conversationId: string, generation: int, number: nat)
      ensures this.store == store && this.conversationId == conversationId
      ensures this.generation == generation && this.number == number
    {
      this.store, this.conversationId, this.generation, this.number := store, conversationId, generation, number;
    }

    method RefreshGeneration() returns (now: int)
      modifies `generation, store`table
      ensures store.table == Activated(old(store.table), conversationId)
      ensures now == generation == GenerationOf(old(store.table), conversationId)
    {
      generation := store.ActivateConversation(conversationId);
      now := generation;
    }

    /** A guarded call: the write lands if the view is current, and is suppressed otherwise. */
    method GuardedWrite() returns (accepted: bool)
      modifies store`landed
      ensures accepted == IsCurrent(store.table, conversationId, generation)
      ensures store.landed == if accepted then old(store.landed) + [Landed(number, conversationId, generation)] else old(store.landed)
    {
      accepted := store.IsConversationGenerationCurrent(conversationId, generation);
      if accepted {
        store.ApplyWrite(Landed(number, conversationId, generation));
      }
    }
  }

  // ---------------------------------------------------------------------------------------
  // Interleavings
  // ---------------------------------------------------------------------------------------

  datatype View = View(conversation: string, generation: int)

  /** The lifecycle table, all views ever opened, and the log of writes that landed. */
  datatype Fence = Fence(table: Lifecycle, views: seq<View>, landed: seq<Landed>)

  datatype Step =
    | Open(conversation: string)
    | Delete(conversation: string)
    | Refresh(view: nat)
    | Write(view: nat)

  predicate Enabled(fence: Fence, step: Step) {
    match step
    case Open(_) => true
    case Delete(_) => true
    case Refresh(v) => v < |fence.views|
    case Write(v) => v < |fence.views|
  }

  /** One atomic step; opening a view activates its conversation, as engine start-up does. */
  function Next(fence: Fence, step: Step): Fence
    requires Enabled(fence, step)
  {
    match step
    case Open(c) =>
      fence.(table := Activated(fence.table, c), views := fence.views + [View(c, GenerationOf(fence.table, c))])
    case Delete(c) =>
      fence.(table := DeletionBegun(fence.table, c))
    case Refresh(v) =>
      var c := fence.views[v].conversation;
      fence.(table := Activated(fence.table, c), views := fence.views[v := View(c, GenerationOf(fence.table, c))])
    case Write(v) =>
      var view := fence.views[v];
      if IsCurrent(fence.table, view.conversation, view.generation)
      then fence.(landed := fence.landed + [Landed(v, view.conversation, view.generation)])
      else fence
  }

  predicate AllEnabled(fence: Fence, steps: seq<Step>)
    decreases |steps|
  {
    steps == [] || (Enabled(fence, steps[0]) && AllEnabled(Next(fence, steps[0]), steps[1..]))
  }

  function Run(fence: Fence, steps: seq<Step>): Fence
    requires AllEnabled(fence, steps)
    decreases |steps|
  {
    if steps == [] then fence else Run(Next(fence, steps[0]), steps[1..])
  }

  /** No view and no landed write is ahead of its conversation, and a writing view was opened. */
  ghost predicate Sound(fence: Fence) {
    && (forall v :: 0 <= v < |fence.views| ==>
          fence.views[v].conversation in fence.table
          && fence.views[v].generation <= GenerationOf(fence.table, fence.views[v].conversation))
    && (forall i :: 0 <= i < |fence.landed| ==> fence.landed[i].generation <= GenerationOf(fence.table, fence.landed[i].conversation))
    && (forall i :: 0 <= i < |fence.landed| ==>
          fence.landed[i].view < |fence.views| && fence.views[fence.landed[i].view].conversation == fence.landed[i].conversation)
    && InGenerationOrder(fence.landed)
  }

  /** Per conversation, the generations of the landed writes never decrease along the log. */
  ghost predicate InGenerationOrder(landed: seq<Landed>) {
    forall i, j :: 0 <= i < j < |landed| && landed[i].conversation == landed[j].conversation
                   ==> landed[i].generation <= landed[j].generation
  }

  lemma {:induction false} StepKeepsSound(fence: Fence, step: Step)
    requires Sound(fence) && Enabled(fence, step)
    ensures Sound(Next(fence, step))
  {
    var after := Next(fence, step);
    if step.Write? && |after.landed| > |fence.landed| {
      assert forall i :: 0 <= i < |fence.landed| ==> after.landed[i] == fence.landed[i];
    }
  }

  /** From nothing, over any interleaving, writes of an older generation never land after newer ones. */
  lemma {:induction false} RunKeepsSound(fence: Fence, steps: seq<Step>)
    requires Sound(fence) && AllEnabled(fence, steps)
    ensures Sound(Run(fence, steps))
    decreases |steps|
  {
    if steps != [] {
      StepKeepsSound(fence, steps[0]);
      RunKeepsSound(Next(fence, steps[0]), steps[1..]);
    }
  }

  const EMPTY_FENCE := Fence(map[], [], [])

  lemma LogIsInGenerationOrder(steps: seq<Step>)
    requires AllEnabled(EMPTY_FENCE, steps)
    ensures InGenerationOrder(Run(EMPTY_FENCE, steps).landed)
  {
    RunKeepsSound(EMPTY_FENCE, steps);
  }

  /** The writes of view `v` in a log. */
  ghost function WritesOf(landed: seq<Landed>, v: nat): seq<Landed> {
    if landed == [] then []
    else
      var n := |landed| - 1;
      WritesOf(landed[..n], v) + (if landed[n].view == v then [landed[n]] else [])
  }

  /** The writes into a conversation in a log. */
  ghost function WritesInto(landed: seq<Landed>, c: string): seq<Landed> {
    if landed == [] then []
    else
      var n := |landed| - 1;
      WritesInto(landed[..n], c) + (if landed[n].conversation == c then [landed[n]] else [])
  }

  /** View `v` was opened under an earlier generation than its conversation now has. */
  ghost predicate IsStale(fence: Fence, v: nat)
    requires v < |fence.views|
  {
    fence.views[v].generation < GenerationOf(fence.table, fence.views[v].conversation)
  }

  lemma {:induction false} StaleNeverLands(fence: Fence, steps: seq<Step>, v: nat)
    requires AllEnabled(fence, steps) && v < |fence.views| && IsStale(fence, v)
    requires fence.views[v].conversation in fence.table
    requires Refresh(v) !in steps
    ensures WritesOf(Run(fence, steps).landed, v) == WritesOf(fence.landed, v)
    decreases |steps|
  {
    if steps != [] {
      var step, next := steps[0], Next(fence, steps[0]);
      assert forall s :: s in steps[1..] ==> s in steps;
      assert IsStale(next, v);
      if step.Write? && next.landed != fence.landed {
        assert next.landed[..|fence.landed|] == fence.landed;
        assert step.view != v;
      }
      StaleNeverLands(next, steps[1..], v);
    }
  }

  /**
   * The fence: once a deletion of its conversation has begun, a view opened before it never lands
   * another write, whatever else happens, until that very view is refreshed.
   */
  lemma DeletionFencesOldViews(fence: Fence, c: string, v: nat, steps: seq<Step>)
    requires Sound(fence) && v < |fence.views| && fence.views[v].conversation == c
    requires AllEnabled(Next(fence, Delete(c)), steps) && Refresh(v) !in steps
    ensures WritesOf(Run(Next(fence, Delete(c)), steps).landed, v) == WritesOf(fence.landed, v)
  {
    StaleNeverLands(Next(fence, Delete(c)), steps, v);
  }

  /** A step that neither opens nor refreshes a view of a deleted conversation. */
  predicate LeavesDeleted(fence: Fence, c: string, step: Step) {
    && step != Open(c)
    && (step.Refresh? && step.view < |fence.views| ==> fence.views[step.view].conversation != c)
  }

  predicate AllLeaveDeleted(fence: Fence, c: string, steps: seq<Step>)
    requires AllEnabled(fence, steps)
    decreases |steps|
  {
    steps == [] || (LeavesDeleted(fence, c, steps[0]) && AllLeaveDeleted(Next(fence, steps[0]), c, steps[1..]))
  }

  /** A conversation is quiet while deleted: no view at all writes into it until it is activated. */
  lemma {:induction false} DeletedIsQuiet(fence: Fence, c: string, steps: seq<Step>)
    requires AllEnabled(fence, steps) && AllLeaveDeleted(fence, c, steps)
    requires c in fence.table && fence.table[c].deleted
    ensures WritesInto(Run(fence, steps).landed, c) == WritesInto(fence.landed, c)
    decreases |steps|
  {
    if steps != [] {
      DeletedIsQuiet(Next(fence, steps[0]), c, steps[1..]);
    }
  }

  /** A write lands if and only if its view is neither outdated nor of a deleted conversation. */
  lemma WriteLandsIff(fence: Fence, v: nat)
    requires Sound(fence) && v < |fence.views|
    ensures var c := fence.views[v].conversation;
            var after := Next(fence, Write(v));
            && after.table == fence.table && after.views == fence.views
            && (if !IsStale(fence, v) && !fence.table[c].deleted
                then after.landed == fence.landed + [Landed(v, c, GenerationOf(fence.table, c))]
                else after.landed == fence.landed)
  {
  }

  /**
   * The way back in: a view can write at once after it is opened or refreshed, whatever happened
   * before, and no other view is touched by that.
   */
  lemma RefreshedCanWrite(fence: Fence, v: nat, c: string)
    requires Sound(fence) && v < |fence.views|
    ensures var after := Next(fence, Refresh(v));
            && |after.views| == |fence.views| && after.landed == fence.landed
            && after.views[v].conversation == fence.views[v].conversation
            && !IsStale(after, v) && !after.table[after.views[v].conversation].deleted
            && forall w :: 0 <= w < |fence.views| && w != v ==> after.views[w] == fence.views[w]
    ensures var after := Next(fence, Open(c));
            && |after.views| == |fence.views| + 1 && after.landed == fence.landed
            && after.views[|fence.views|].conversation == c
            && !IsStale(after, |fence.views|) && !after.table[c].deleted
            && forall w :: 0 <= w < |fence.views| ==> after.views[w] == fence.views[w]
  {
  }
}
