/**
 * The alias table as the store keeps it, with the two lookups the resolver uses and the two
 * writes that emit a cross-worker invalidation event.
 */
module AliasStore {
  import opened Collections
  import opened Options
  import opened IdOrder
  import opened AliasGraph
  import opened ReverseDependents
  import opened AliasEviction

  datatype AliasEvent =
    | AliasCreated(source: Id, target: Id, reverseDependents: seq<Id>)
    | AliasDeleted(aliasId: Id, reverseDependents: seq<Id>)

  /** No event is built without a callback. Building one can raise: a new target is resolved first. */
  datatype EventResult = NoCallback | Emitted(event: AliasEvent) | Raised(reason: Reason, chain: seq<Id>)

  /** Every id whose resolution differs between the two tables is `x` or is listed. */
  ghost predicate Covers(before: Edges, after: Edges, x: Id, listed: seq<Id>) {
    forall id :: Walk(before, id, DEFAULT_MAX_HOPS) != Walk(after, id, DEFAULT_MAX_HOPS) ==> id == x || id in listed
  }

  class Store {
    var edges: Edges

    constructor ()
      ensures edges == map[]
    {
      edges := map[];
    }

    method ResolveConversationAlias(id: Id) returns (target: Option<Id>)
      ensures target == if id in edges then Some(edges[id]) else None
    {
      if id in edges {
        target := Some(edges[id]);
      } else {
        target := None;
      }
    }

    /** The inverse lookup: ascending, and exactly the ids that the lookup above takes to the target. */
    method ListConversationAliasesByTarget(target: Id) returns (sources: seq<Id>)
      ensures Ascending(sources)
      ensures forall id :: id in sources <==> id in edges && edges[id] == target
    {
      sources := Sorted(Incoming(edges, target));
    }

    /** The walk, hop by hop, with its set of seen ids and its chain. */
    method WalkConversationAliasChain(conversationId: Id, maxHops: nat) returns (result: WalkResult)
      ensures result == Walk(edges, conversationId, maxHops)
    {
      if conversationId == "" {
        return Resolved(conversationId);
      }
      var seen := {conversationId};
      var chain := [conversationId];
      var current := conversationId;
      for hop := 0 to maxHops
        invariant chain != [] && current == chain[|chain| - 1]
        invariant seen == Elements(chain)
        invariant WalkFrom(edges, chain, maxHops - hop) == Walk(edges, conversationId, maxHops)
      {
        var next := ResolveConversationAlias(current);
        if next == None || next.value == "" {
          return Resolved(current);
        }
        if next.value in seen {
          chain := chain + [next.value];
          return Failed(Cycle, chain);
        }
        seen := seen + {next.value};
        chain := chain + [next.value];
        current := next.value;
      }
      return Failed(MaxHops, chain);
    }

    /** The bounded breadth-first search over incoming aliases; `warned` is its truncation warning. */
    method ComputeReverseDependents(targetId: Id, maxHops: nat) returns (out: seq<Id>, warned: bool)
      ensures out == Dependents(edges, targetId, maxHops)
      ensures warned <==> Truncated(edges, targetId, maxHops)
    {
      var seen := {targetId};
      out := [];
      warned := false;
      var frontier := [targetId];
      var hop := 0;
      while hop < maxHops && frontier != []
        invariant hop <= maxHops
        invariant Dependents(edges, targetId, maxHops) == out + Search(edges, frontier, seen, maxHops - hop)
        invariant Truncated(edges, targetId, maxHops) <==> warned || SearchCutShort(edges, frontier, seen, maxHops - hop)
      {
        var nextFrontier, cut := ExpandLevel(frontier, seen);
        ghost var rest := SearchStep(edges, frontier, seen, maxHops - hop);
        Reassociate(out, nextFrontier, rest);
        seen := seen + Elements(nextFrontier);
        out := out + nextFrontier;
        warned := warned || cut;
        frontier := nextFrontier;
        hop := hop + 1;
      }
    }

    /** The middle loop of the search, over the nodes of one frontier. */
    method ExpandLevel(frontier: seq<Id>, seenBefore: set<Id>) returns (nextFrontier: seq<Id>, cut: bool)
      ensures nextFrontier == Level(edges, frontier, seenBefore)
      ensures cut <==> LevelCutShort(edges, frontier, seenBefore)
    {
      var seen := seenBefore;
      nextFrontier := [];
      cut := false;
      assert frontier[0..] == frontier;
      for n := 0 to |frontier|
        invariant Level(edges, frontier, seenBefore) == nextFrontier + Level(edges, frontier[n..], seen)
        invariant LevelCutShort(edges, frontier, seenBefore) <==> cut || LevelCutShort(edges, frontier[n..], seen)
      {
        assert frontier[n..][0] == frontier[n] && frontier[n..][1..] == frontier[n + 1..];
        var children, nodeCut := KeepChildren(frontier[n], seen);
        seen := seen + Elements(children);
        ghost var rest := Level(edges, frontier[n + 1..], seen);
        assert nextFrontier + (children + rest) == (nextFrontier + children) + rest;
        nextFrontier := nextFrontier + children;
        cut := cut || nodeCut;
      }
    }

    /** The innermost loop of the search, over the sorted sources of one node. */
    method KeepChildren(node: Id, seenBefore: set<Id>) returns (children: seq<Id>, cut: bool)
      ensures children == Children(edges, node, seenBefore)
      ensures cut <==> CutShort(Sorted(Incoming(edges, node)), seenBefore, 0)
    {
      var incoming := ListConversationAliasesByTarget(node);
      AscendingIsUnique(incoming, Sorted(Incoming(edges, node)));
      children, cut := KeepUnseen(incoming, seenBefore);
    }

    static method KeepUnseen(incoming: seq<Id>, seenBefore: set<Id>) returns (children: seq<Id>, cut: bool)
      ensures children == Keep(incoming, seenBefore, 0)
      ensures cut <==> CutShort(incoming, seenBefore, 0)
    {
      var seen := seenBefore;
      children := [];
      assert incoming[0..] == incoming;
      for k := 0 to |incoming|
        invariant Keep(incoming, seenBefore, 0) == children + Keep(incoming[k..], seen, |children|)
        invariant CutShort(incoming, seenBefore, 0) <==> CutShort(incoming[k..], seen, |children|)
      {
        var src := incoming[k];
        ghost var kept := |children|;
        assert incoming[k..][0] == src && incoming[k..][1..] == incoming[k + 1..];
        if src in seen {
          continue;
        }
        if |children| >= MAX_REVERSE_DEPENDENT_FAN_OUT {
          return children, true;
        }
        ghost var rest := Keep(incoming[k + 1..], seen + {src}, kept + 1);
        assert Keep(incoming[k..], seen, kept) == [src] + rest;
        assert children + ([src] + rest) == (children + [src]) + rest;
        seen := seen + {src};
        children := children + [src];
      }
      cut := false;
    }

    /**
     * Inserts or retargets an alias, then builds the event from the new table, if anyone asked for
     * it. The event names everything whose resolution changed; but if the new target does not
     * resolve, building the event raises although the alias is already stored.
     */
    method SaveConversationAlias(aliasId: Id, targetId: Id, callback: bool) returns (result: EventResult, warned: bool)
      modifies this
      ensures edges == old(edges)[aliasId := targetId]
      ensures result.NoCallback? <==> !callback
      ensures result.Emitted? <==> callback && Walk(edges, targetId, DEFAULT_MAX_HOPS).Resolved?
      ensures result.Emitted? ==>
        && result.event == AliasCreated(aliasId, Walk(edges, targetId, DEFAULT_MAX_HOPS).terminal,
                                        Dependents(old(edges), aliasId, DEFAULT_MAX_HOPS))
        && (!warned ==> Covers(old(edges), edges, aliasId, result.event.reverseDependents))
      ensures result.Emitted? ==> (warned <==> Truncated(old(edges), aliasId, DEFAULT_MAX_HOPS))
      ensures result.Raised? ==> Walk(edges, targetId, DEFAULT_MAX_HOPS) == Failed(result.reason, result.chain)
      ensures result.Raised? ==>
        (SomeResolutionChanges(old(edges), edges) <==> aliasId != "" && !(aliasId in old(edges) && old(edges)[aliasId] == targetId))
    {
      ghost var before := edges;
      warned := false;
      edges := edges[aliasId := targetId];
      if !callback {
        return NoCallback, warned;
      }
      var resolved := WalkConversationAliasChain(targetId, DEFAULT_MAX_HOPS);
      if resolved.Failed? {
        UnannouncedChangeIff(before, aliasId, targetId);
        return Raised(resolved.reason, resolved.chain), warned;
      }
      var dependents;
      dependents, warned := ComputeReverseDependents(aliasId, DEFAULT_MAX_HOPS);
      CoveredByDependents(before, edges, aliasId);
      return Emitted(AliasCreated(aliasId, resolved.terminal, dependents)), warned;
    }

    /** Builds the event from the table as it is, if anyone asked for it, then deletes the alias. */
    method DeleteConversationAlias(aliasId: Id, callback: bool) returns (result: EventResult, warned: bool)
      modifies this
      ensures edges == old(edges) - {aliasId}
      ensures !callback ==> result == NoCallback
      ensures callback ==>
        && result == Emitted(AliasDeleted(aliasId, Dependents(old(edges), aliasId, DEFAULT_MAX_HOPS)))
        && result.event.reverseDependents == Dependents(edges, aliasId, DEFAULT_MAX_HOPS)
        && (warned <==> Truncated(old(edges), aliasId, DEFAULT_MAX_HOPS))
        && (!warned ==> Covers(old(edges), edges, aliasId, result.event.reverseDependents))
    {
      ghost var before := edges;
      var dependents: seq<Id> := [];
      warned := false;
      if callback {
        dependents, warned := ComputeReverseDependents(aliasId, DEFAULT_MAX_HOPS);
      }
      edges := map id | id in edges && id != aliasId :: edges[id];
      assert edges == before - {aliasId};
      CoveredByDependents(before, edges, aliasId);
      result := if callback then Emitted(AliasDeleted(aliasId, dependents)) else NoCallback;
    }
  }

  lemma SearchStep(edges: Edges, frontier: seq<Id>, seen: set<Id>, hops: nat) returns (rest: seq<Id>)
    requires hops > 0 && frontier != []
    ensures var next := Level(edges, frontier, seen);
            && rest == Search(edges, next, seen + Elements(next), hops - 1)
            && Search(edges, frontier, seen, hops) == next + rest
            && SearchCutShort(edges, frontier, seen, hops)
               == (LevelCutShort(edges, frontier, seen) || SearchCutShort(edges, next, seen + Elements(next), hops - 1))
  {
    var next := Level(edges, frontier, seen);
    rest := Search(edges, next, seen + Elements(next), hops - 1);
  }

  lemma CoveredByDependents(before: Edges, after: Edges, x: Id)
    requires DifferOnlyAt(before, after, x)
    ensures Dependents(before, x, DEFAULT_MAX_HOPS) == Dependents(after, x, DEFAULT_MAX_HOPS)
    ensures Truncated(before, x, DEFAULT_MAX_HOPS) == Truncated(after, x, DEFAULT_MAX_HOPS)
    ensures !Truncated(before, x, DEFAULT_MAX_HOPS) ==> Covers(before, after, x, Dependents(before, x, DEFAULT_MAX_HOPS))
  {
    DependentsIgnoreOwnEdge(before, after, x, DEFAULT_MAX_HOPS);
    if !Truncated(before, x, DEFAULT_MAX_HOPS) {
      forall id | Walk(before, id, DEFAULT_MAX_HOPS) != Walk(after, id, DEFAULT_MAX_HOPS)
        ensures id == x || id in Dependents(before, x, DEFAULT_MAX_HOPS)
      {
        EvictionIsComplete(before, after, x, DEFAULT_MAX_HOPS, DEFAULT_MAX_HOPS, id);
      }
    }
  }

  ghost predicate SomeResolutionChanges(before: Edges, after: Edges) {
    exists id :: Walk(before, id, DEFAULT_MAX_HOPS) != Walk(after, id, DEFAULT_MAX_HOPS)
  }

  /** What an id resolves to is what its target resolves to. */
  lemma ResolvesAsItsTarget(edges: Edges, a: Id, terminal: Id)
    requires a != "" && a in Live(edges) && Walk(edges, a, DEFAULT_MAX_HOPS) == Resolved(terminal)
    ensures Walk(edges, edges[a], DEFAULT_MAX_HOPS) == Resolved(terminal)
  {
    var next := edges[a];
    WalkClassified(edges, a, DEFAULT_MAX_HOPS);
    WalkClassified(edges, next, DEFAULT_MAX_HOPS);
    var d: nat :| d < DEFAULT_MAX_HOPS && Hop(Live(edges), a, d) == Some(terminal);
    assert Hop(Live(edges), next, d - 1) == Some(terminal);
    assert EndsAt(Live(edges), next, DEFAULT_MAX_HOPS, terminal);
  }

  /** The second id that a failed walk reports is the target of the first. */
  lemma FailureReportsTarget(edges: Edges, a: Id)
    requires a != "" && Walk(edges, a, DEFAULT_MAX_HOPS).Failed?
    ensures var chain := Walk(edges, a, DEFAULT_MAX_HOPS).chain;
            |chain| >= 2 && a in edges && edges[a] == chain[1]
  {
    FailedWalkReportsItsPath(edges, a, DEFAULT_MAX_HOPS);
    var chain := Walk(edges, a, DEFAULT_MAX_HOPS).chain;
    assert Hop(Live(edges), a, 1) == Some(chain[1]);
    assert a in Live(edges) && Hop(Live(edges), a, 1) == Hop(Live(edges), edges[a], 0);
  }

  /** If an edge is new and its target does not resolve, then the resolution of its source changes. */
  lemma NewEdgeIntoFailure(before: Edges, a: Id, target: Id)
    requires a != "" && !(a in before && before[a] == target)
    requires Walk(before[a := target], target, DEFAULT_MAX_HOPS).Failed?
    ensures Walk(before, a, DEFAULT_MAX_HOPS) != Walk(before[a := target], a, DEFAULT_MAX_HOPS)
  {
    var after := before[a := target];
    if Walk(after, a, DEFAULT_MAX_HOPS).Resolved? {
      ResolvesAsItsTarget(after, a, Walk(after, a, DEFAULT_MAX_HOPS).terminal);
    }
    FailureReportsTarget(after, a);
    if Walk(before, a, DEFAULT_MAX_HOPS) == Walk(after, a, DEFAULT_MAX_HOPS) {
      FailureReportsTarget(before, a);
    }
  }

  /**
   * "Every committed change of resolution is announced" fails for a save exactly when its target
   * does not resolve in the new table, its alias is not the empty id, and the edge is really new.
   */
  lemma UnannouncedChangeIff(before: Edges, a: Id, target: Id)
    ensures var after := before[a := target];
            SomeResolutionChanges(before, after) && Walk(after, target, DEFAULT_MAX_HOPS).Failed? <==>
            && Walk(after, target, DEFAULT_MAX_HOPS).Failed?
            && a != "" && !(a in before && before[a] == target)
  {
    var after := before[a := target];
    if Walk(after, target, DEFAULT_MAX_HOPS).Failed? {
      if a in before && before[a] == target {
        assert after == before;
      } else if a == "" {
        forall id ensures Walk(before, id, DEFAULT_MAX_HOPS) == Walk(after, id, DEFAULT_MAX_HOPS) {
          EdgeOutOfEmptyIsIdle(before, after, id);
        }
      } else {
        NewEdgeIntoFailure(before, a, target);
      }
    }
  }

  /** No walk asks for the edge out of the empty id. */
  lemma EdgeOutOfEmptyIsIdle(before: Edges, after: Edges, id: Id)
    requires DifferOnlyAt(before, after, "")
    ensures Walk(before, id, DEFAULT_MAX_HOPS) == Walk(after, id, DEFAULT_MAX_HOPS)
  {
    if id != "" && Walk(before, id, DEFAULT_MAX_HOPS) != Walk(after, id, DEFAULT_MAX_HOPS) {
      ChangedWalkPasses(before, after, "", id, DEFAULT_MAX_HOPS);
      var j: nat :| j < DEFAULT_MAX_HOPS && Hop(Live(before), id, j) == Some("");
      NeverAtEmpty(before, id, j);
    }
  }

  /**
   * Such a save: pointing `a` at itself changes what `b` resolves to, but the target no longer
   * resolves, so there is no event.
   */
  lemma UnannouncedChange()
    ensures var before: Edges := map["b" := "a"];
            var after := before["a" := "a"];
            && Walk(before, "b", DEFAULT_MAX_HOPS) == Resolved("a")
            && Walk(after, "b", DEFAULT_MAX_HOPS) == Failed(Cycle, ["b", "a", "a"])
            && Walk(after, "a", DEFAULT_MAX_HOPS) == Failed(Cycle, ["a", "a"])
  {
    var before: Edges := map["b" := "a"];
    var after := before["a" := "a"];
    assert WalkFrom(before, ["b", "a"], 7) == Resolved("a");
    assert ["b"] + ["a"] == ["b", "a"];
    assert Walk(before, "b", 8) == WalkFrom(before, ["b", "a"], 7);
    assert WalkFrom(after, ["b", "a"], 7) == Failed(Cycle, ["b", "a", "a"]);
    assert Walk(after, "b", 8) == WalkFrom(after, ["b", "a"], 7);
  }
}
