/**
 * What the eviction list is for. When the edge out of one id changes, the list computed for that
 * id does not depend on when it was computed, and it covers every walk whose outcome changed.
 */
module AliasEviction {
  import opened Options
  import opened IdOrder
  import opened AliasGraph
  import opened ReverseDependents

  // ---------------------------------------------------------------------------------------
  // The list does not depend on the edge out of its own target
  // ---------------------------------------------------------------------------------------

  ghost function Without(ids: seq<Id>, x: Id): seq<Id> {
    if ids == [] then []
    else (if ids[0] == x then [] else [ids[0]]) + Without(ids[1..], x)
  }

  lemma {:induction false} WithoutIsAscending(ids: seq<Id>, x: Id)
    requires Ascending(ids)
    ensures Ascending(Without(ids, x))
    ensures forall id :: id in Without(ids, x) <==> id in ids && id != x
  {
    if ids != [] {
      var rest := Without(ids[1..], x);
      WithoutIsAscending(ids[1..], x);
      assert ids == [ids[0]] + ids[1..];
      forall id | id in rest ensures Below(ids[0], id) {
        var j :| 0 <= j < |ids[1..]| && ids[1..][j] == id;
        assert ids[j + 1] == id;
      }
    }
  }

  lemma {:induction false} KeepSkipsSeen(ids: seq<Id>, x: Id, seen: set<Id>, kept: nat)
    requires x in seen
    ensures Keep(ids, seen, kept) == Keep(Without(ids, x), seen, kept)
    ensures CutShort(ids, seen, kept) == CutShort(Without(ids, x), seen, kept)
  {
    if ids != [] {
      KeepSkipsSeen(ids[1..], x, seen, kept);
      KeepSkipsSeen(ids[1..], x, seen + {ids[0]}, kept + 1);
      var rest := Without(ids[1..], x);
      if ids[0] == x {
        assert Without(ids, x) == rest;
      } else {
        assert Without(ids, x)[1..] == rest;
      }
    }
  }

  lemma SameChildren(before: Edges, after: Edges, x: Id, node: Id, seen: set<Id>)
    requires DifferOnlyAt(before, after, x) && x in seen
    ensures Children(before, node, seen) == Children(after, node, seen)
    ensures CutShort(Sorted(Incoming(before, node)), seen, 0) == CutShort(Sorted(Incoming(after, node)), seen, 0)
  {
    var a, b := Sorted(Incoming(before, node)), Sorted(Incoming(after, node));
    WithoutIsAscending(a, x);
    WithoutIsAscending(b, x);
    AscendingIsUnique(Without(a, x), Without(b, x));
    KeepSkipsSeen(a, x, seen, 0);
    KeepSkipsSeen(b, x, seen, 0);
  }

  lemma {:induction false} SameLevel(before: Edges, after: Edges, x: Id, frontier: seq<Id>, seen: set<Id>)
    requires DifferOnlyAt(before, after, x) && x in seen
    ensures Level(before, frontier, seen) == Level(after, frontier, seen)
    ensures LevelCutShort(before, frontier, seen) == LevelCutShort(after, frontier, seen)
  {
    if frontier != [] {
      SameChildren(before, after, x, frontier[0], seen);
      SameLevel(before, after, x, frontier[1..], seen + Elements(Children(before, frontier[0], seen)));
    }
  }

  lemma {:induction false} SameSearch(before: Edges, after: Edges, x: Id, frontier: seq<Id>, seen: set<Id>, hops: nat)
    requires DifferOnlyAt(before, after, x) && x in seen
    ensures Search(before, frontier, seen, hops) == Search(after, frontier, seen, hops)
    ensures SearchCutShort(before, frontier, seen, hops) == SearchCutShort(after, frontier, seen, hops)
    decreases hops
  {
    if hops > 0 && frontier != [] {
      SameLevel(before, after, x, frontier, seen);
      var next := Level(before, frontier, seen);
      SameSearch(before, after, x, next, seen + Elements(next), hops - 1);
    }
  }

  /**
   * Adding, retargeting or deleting the edge out of `x` leaves the list computed for `x`
   * identical, order and truncation included: before and after the change are equivalent.
   */
  lemma DependentsIgnoreOwnEdge(before: Edges, after: Edges, x: Id, maxHops: nat)
    requires DifferOnlyAt(before, after, x)
    ensures Dependents(before, x, maxHops) == Dependents(after, x, maxHops)
    ensures Truncated(before, x, maxHops) == Truncated(after, x, maxHops)
  {
    SameSearch(before, after, x, [x], {x}, maxHops);
  }

  // ---------------------------------------------------------------------------------------
  // Eviction covers every changed walk
  // ---------------------------------------------------------------------------------------

  /** `start` gets to `x` along followed edges in fewer than `maxHops` hops. */
  ghost predicate Passes(edges: Edges, start: Id, x: Id, maxHops: nat) {
    exists j: nat :: j < maxHops && Hop(Live(edges), start, j) == Some(x)
  }

  /** Only a walk that asks for the edge out of `x` can notice that it changed. */
  lemma ChangedWalkPasses(before: Edges, after: Edges, x: Id, start: Id, maxHops: nat)
    requires DifferOnlyAt(before, after, x)
    requires Walk(before, start, maxHops) != Walk(after, start, maxHops)
    ensures Passes(before, start, x, maxHops)
  {
    if !Passes(before, start, x, maxHops) {
      WalkIgnoresUnvisited(before, after, x, start, [start], maxHops);
    }
  }

  /**
   * Eviction is complete: with an uncut search at least as deep as the walk is long (less one
   * hop), any id whose walk outcome changes, chain included, is `x` or is on the list for `x`.
   */
  lemma EvictionIsComplete(before: Edges, after: Edges, x: Id, walkHops: nat, searchHops: nat, start: Id)
    requires DifferOnlyAt(before, after, x)
    requires walkHops <= searchHops + 1
    requires !Truncated(before, x, searchHops)
    requires Walk(before, start, walkHops) != Walk(after, start, walkHops)
    ensures start == x || start in Dependents(before, x, searchHops)
  {
    ChangedWalkPasses(before, after, x, start, walkHops);
    var j: nat :| j < walkHops && Hop(Live(before), start, j) == Some(x);
    LiveHopIsHop(before, start, j);
    ReachedHasDistance(before, start, x, j);
    var d: nat :| d <= j && AtDistance(before, start, x, d);
    if d > 0 {
      assert Within(before, start, x, 1, searchHops);
    }
    DependentsAreTheBall(before, x, searchHops);
  }

  /**
   * Eviction is tight: deleting a followed edge out of `x` changes the outcome of exactly those
   * walks that reach `x` within fewer than `maxHops` hops. So of the ids listed with the default
   * bound only those at distance `maxHops` are evicted without need.
   */
  lemma DeletionChangesExactlyThePassing(edges: Edges, x: Id, start: Id, maxHops: nat)
    requires start != "" && x in Live(edges)
    ensures Walk(edges, start, maxHops) != Walk(edges - {x}, start, maxHops) <==> Passes(edges, start, x, maxHops)
  {
    var after := edges - {x};
    if Walk(edges, start, maxHops) != Walk(after, start, maxHops) {
      ChangedWalkPasses(edges, after, x, start, maxHops);
    }
    if Passes(edges, start, x, maxHops) {
      var j: nat :| j < maxHops && Hop(Live(edges), start, j) == Some(x);
      ReachedHasDistance(Live(edges), start, x, j);
      var d: nat :| d <= j && AtDistance(Live(edges), start, x, d);
      PathSurvives(edges, x, start, d);
      assert EndsAt(Live(after), start, maxHops, x);
      WalkClassified(after, start, maxHops);
      WalkClassified(edges, start, maxHops);
    }
  }

  /** The path up to the first arrival at `x` does not use the edge out of `x`. */
  lemma {:induction false} PathSurvives(edges: Edges, x: Id, start: Id, d: nat)
    requires AtDistance(Live(edges), start, x, d)
    ensures Hop(Live(edges - {x}), start, d) == Some(x)
    decreases d
  {
    if d > 0 {
      PathSurvives(edges, x, edges[start], d - 1);
    }
  }

  /** `start` first comes to `x` on a stored path that no walk follows, as it meets the empty id. */
  ghost predicate ReachesThroughEmpty(edges: Edges, start: Id, x: Id, maxHops: nat) {
    exists d: nat :: 1 <= d <= maxHops && AtDistance(edges, start, x, d) && MeetsEmpty(edges, start, d)
  }

  /**
   * Forward and backward name the same ids: not cut short, the list for `x` is exactly the other ids
   * that reach `x` in at most `maxHops` followed hops, and those that would through the empty id.
   */
  lemma ListedIffReaches(edges: Edges, x: Id, maxHops: nat, start: Id)
    requires !Truncated(edges, x, maxHops)
    ensures start in Dependents(edges, x, maxHops) <==>
            start != x && (Passes(edges, start, x, maxHops + 1) || ReachesThroughEmpty(edges, start, x, maxHops))
  {
    DependentsAreTheBall(edges, x, maxHops);
    if start in Dependents(edges, x, maxHops) {
      var d: nat :| 1 <= d <= maxHops && AtDistance(edges, start, x, d);
      DistanceIsFirstArrival(edges, start, x, d);
      HopIsLiveHopIff(edges, start, d);
    }
    if start != x && Passes(edges, start, x, maxHops + 1) {
      var j: nat :| j < maxHops + 1 && Hop(Live(edges), start, j) == Some(x);
      LiveHopIsHop(edges, start, j);
      ReachedHasDistance(edges, start, x, j);
      var d: nat :| d <= j && AtDistance(edges, start, x, d);
      assert Within(edges, start, x, 1, maxHops);
    }
    if start != x && ReachesThroughEmpty(edges, start, x, maxHops) {
      assert Within(edges, start, x, 1, maxHops);
    }
  }

  /**
   * A walk that resolves to another id is listed for it; so a whole family of aliases of one
   * conversation is on the list of that conversation.
   */
  lemma ResolvedIsListed(edges: Edges, start: Id, terminal: Id, walkHops: nat, searchHops: nat)
    requires start != "" && Walk(edges, start, walkHops) == Resolved(terminal) && start != terminal
    requires walkHops <= searchHops + 1 && !Truncated(edges, terminal, searchHops)
    ensures start in Dependents(edges, terminal, searchHops)
  {
    WalkClassified(edges, start, walkHops);
    var j: nat :| j < walkHops && Hop(Live(edges), start, j) == Some(terminal);
    LiveHopIsHop(edges, start, j);
    ReachedHasDistance(edges, start, terminal, j);
    var d: nat :| d <= j && AtDistance(edges, start, terminal, d);
    assert Within(edges, start, terminal, 1, searchHops);
    DependentsAreTheBall(edges, terminal, searchHops);
  }
}
