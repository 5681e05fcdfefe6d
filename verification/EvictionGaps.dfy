/**
 * The converse of complete eviction: when deleting an edge changes a walk that the list, cut short by
 * the cap, does not name.
 */
module EvictionGaps {
  import opened Options
  import opened Collections
  import opened IdOrder
  import opened AliasGraph
  import opened ReverseDependents
  import opened AliasEviction
  import opened FanOut

  // ---------------------------------------------------------------------------------------
  // Without a crowded node on its way to the target, an id is listed
  // ---------------------------------------------------------------------------------------

  lemma {:induction false} LevelKeepsAlias(edges: Edges, target: Id, frontier: seq<Id>, seen: set<Id>, id: Id)
    requires target in seen && id in edges && edges[id] in frontier && id !in seen
    requires !IsCrowded(edges, target, edges[id])
    ensures id in Level(edges, frontier, seen)
  {
    var head, tail, children := frontier[0], frontier[1..], Children(edges, frontier[0], seen);
    assert frontier == [head] + tail;
    ChildrenCount(edges, head, seen);
    ChildrenAre(edges, head, seen);
    if edges[id] == head {
      SubsetSize(Incoming(edges, head) - seen, Incoming(edges, head) - {target});
    } else {
      LevelKeepsAlias(edges, target, tail, seen + Elements(children), id);
    }
  }

  /** None of the next `hops` nodes on the path is crowded. */
  ghost predicate ClearPath(edges: Edges, target: Id, start: Id, hops: nat) {
    forall k: nat :: 1 <= k <= hops && Hop(edges, start, k).Some? ==> !IsCrowded(edges, target, Hop(edges, start, k).value)
  }

  /** The nodes of a path to the target stand at decreasing distances. */
  lemma {:induction false} PathDistances(edges: Edges, id: Id, target: Id, d: nat, k: nat)
    requires AtDistance(edges, id, target, d) && k <= d
    ensures Hop(edges, id, k).Some? && AtDistance(edges, Hop(edges, id, k).value, target, d - k)
    decreases k
  {
    if k > 0 {
      PathDistances(edges, edges[id], target, d - 1, k - 1);
    }
  }

  ghost predicate SeenIsNear(edges: Edges, target: Id, seen: set<Id>, depth: nat) {
    target in seen && forall id :: id in seen ==> Within(edges, id, target, 0, depth)
  }

  lemma SeenStaysNear(edges: Edges, target: Id, frontier: seq<Id>, seen: set<Id>, depth: nat)
    requires SeenIsNear(edges, target, seen, depth) && AllAt(edges, frontier, target, depth)
    ensures var next := Level(edges, frontier, seen);
            AllAt(edges, next, target, depth + 1) && SeenIsNear(edges, target, seen + Elements(next), depth + 1)
  {
    var next := Level(edges, frontier, seen);
    LevelIsFarther(edges, target, frontier, seen, depth);
    forall id | id in seen + Elements(next) ensures Within(edges, id, target, 0, depth + 1) {
      if id in seen {
        WithinWidens(edges, id, target, 0, depth, 0, depth + 1);
      } else {
        assert AtDistance(edges, id, target, depth + 1);
      }
    }
  }

  /** The next node on a clear path is kept in the next level. */
  lemma ClearNode(edges: Edges, target: Id, frontier: seq<Id>, seen: set<Id>, depth: nat, id: Id, d: nat)
    requires SeenIsNear(edges, target, seen, depth) && depth < d && AtDistance(edges, id, target, d)
    requires Hop(edges, id, d - depth).Some? && Hop(edges, id, d - depth).value in frontier
    requires ClearPath(edges, target, id, d - depth)
    ensures var k := d - depth - 1;
            Hop(edges, id, k).Some? && Hop(edges, id, k).value in Level(edges, frontier, seen)
  {
    var k := d - depth - 1;
    PathDistances(edges, id, target, d, k);
    var node := Hop(edges, id, k).value;
    HopStep(edges, id, k);
    NotWithinEarlier(edges, node, target, depth);
    LevelKeepsAlias(edges, target, frontier, seen, node);
  }

  /** The path stays clear from one level to the next, and what the next levels list is listed. */
  lemma ClearStep(edges: Edges, target: Id, frontier: seq<Id>, seen: set<Id>, depth: nat, hops: nat, id: Id, d: nat)
    returns (next: seq<Id>, later: set<Id>)
    requires SeenIsNear(edges, target, seen, depth) && AllAt(edges, frontier, target, depth)
    requires depth < d <= depth + hops && AtDistance(edges, id, target, d)
    requires Hop(edges, id, d - depth).Some? && Hop(edges, id, d - depth).value in frontier
    requires ClearPath(edges, target, id, d - depth)
    ensures SeenIsNear(edges, target, later, depth + 1) && AllAt(edges, next, target, depth + 1)
    ensures Hop(edges, id, d - depth - 1).Some? && Hop(edges, id, d - depth - 1).value in next
    ensures ClearPath(edges, target, id, d - depth - 1)
    ensures id in next || id in Search(edges, next, later, hops - 1) ==> id in Search(edges, frontier, seen, hops)
  {
    next := Level(edges, frontier, seen);
    later := seen + Elements(next);
    ClearNode(edges, target, frontier, seen, depth, id, d);
    SearchMembers(edges, frontier, seen, hops, id);
    SeenStaysNear(edges, target, frontier, seen, depth);
  }

  lemma {:induction false} ClearIsListed(edges: Edges, target: Id, frontier: seq<Id>, seen: set<Id>, depth: nat, hops: nat, id: Id, d: nat)
    requires SeenIsNear(edges, target, seen, depth) && AllAt(edges, frontier, target, depth)
    requires depth < d <= depth + hops && AtDistance(edges, id, target, d)
    requires Hop(edges, id, d - depth).Some? && Hop(edges, id, d - depth).value in frontier
    requires ClearPath(edges, target, id, d - depth)
    ensures id in Search(edges, frontier, seen, hops)
    decreases hops
  {
    var next, later := ClearStep(edges, target, frontier, seen, depth, hops, id, d);
    if d > depth + 1 {
      ClearIsListed(edges, target, next, later, depth + 1, hops - 1, id, d);
    }
  }

  /** An id in reach that is not listed has a crowded node on its way to the target. */
  lemma UnlistedHasCrowded(edges: Edges, target: Id, maxHops: nat, id: Id, d: nat) returns (k: nat)
    requires 1 <= d <= maxHops && AtDistance(edges, id, target, d) && id !in Dependents(edges, target, maxHops)
    ensures 1 <= k <= d && Hop(edges, id, k).Some? && IsCrowded(edges, target, Hop(edges, id, k).value)
  {
    if ClearPath(edges, target, id, d) {
      PathDistances(edges, id, target, d, d);
      assert AtDistance(edges, target, target, 0);
      assert Within(edges, target, target, 0, 0);
      ClearIsListed(edges, target, [target], {target}, 0, maxHops, id, d);
    }
    k :| 1 <= k <= d && Hop(edges, id, k).Some? && IsCrowded(edges, target, Hop(edges, id, k).value);
  }

  // ---------------------------------------------------------------------------------------
  // Of the aliases of a crowded node, one that a walk can start from is not listed
  // ---------------------------------------------------------------------------------------

  /** The empty id comes first in every sorted list, so if anything is kept, it is. */
  lemma EmptyIsKept(edges: Edges, node: Id, seen: set<Id>)
    requires "" in Incoming(edges, node) && "" !in seen
    ensures "" in Children(edges, node, seen)
  {
    var sources := Sorted(Incoming(edges, node));
    assert "" in sources;
    var i :| 0 <= i < |sources| && sources[i] == "";
    assert i > 0 ==> Below(sources[0], "");
  }

  lemma {:induction false} EmptyIsInLevel(edges: Edges, frontier: seq<Id>, seen: set<Id>)
    requires "" in edges && edges[""] in frontier && "" !in seen
    ensures "" in Level(edges, frontier, seen)
  {
    var head, tail, children := frontier[0], frontier[1..], Children(edges, frontier[0], seen);
    assert frontier == [head] + tail;
    if edges[""] == head {
      EmptyIsKept(edges, head, seen);
    } else {
      ChildrenAre(edges, head, seen);
      EmptyIsInLevel(edges, tail, seen + Elements(children));
    }
  }

  /** If another alias of its target is listed, so is the empty id. */
  lemma {:induction false} EmptyIsListed(edges: Edges, target: Id, frontier: seq<Id>, seen: set<Id>, depth: nat, hops: nat, other: Id, d: nat)
    requires SeenIsNear(edges, target, seen, depth) && AllAt(edges, frontier, target, depth)
    requires "" in edges && other in edges && edges[""] == edges[other]
    requires AtDistance(edges, "", target, d) && AtDistance(edges, other, target, d)
    requires other in Search(edges, frontier, seen, hops)
    ensures "" in Search(edges, frontier, seen, hops)
    decreases hops
  {
    var next := Level(edges, frontier, seen);
    SearchMembers(edges, frontier, seen, hops, other);
    SearchMembers(edges, frontier, seen, hops, "");
    SeenStaysNear(edges, target, frontier, seen, depth);
    if other in next {
      LevelIs(edges, frontier, seen);
      DistanceIsUnique(edges, other, target, d, depth + 1);
      NotWithinEarlier(edges, "", target, depth);
      EmptyIsInLevel(edges, frontier, seen);
    } else {
      EmptyIsListed(edges, target, next, seen + Elements(next), depth + 1, hops - 1, other, d);
    }
  }

  /** Of more than 256 aliases of a node at most 256 are listed; a missing one is not the empty id. */
  lemma CrowdedLeavesOut(edges: Edges, target: Id, maxHops: nat, node: Id, d: nat) returns (id: Id)
    requires CrowdedAt(edges, target, node, d)
    ensures id != "" && id != target && id in Incoming(edges, node) && id !in Dependents(edges, target, maxHops)
  {
    var list := Dependents(edges, target, maxHops);
    var sources := Incoming(edges, node) - {target};
    var missing := sources - Elements(list);
    ListedAliasesAreFew(edges, target, maxHops, node);
    if missing <= {""} {
      EmptyIsNotAlone(edges, target, maxHops, node, d);
    }
    id :| id in missing && id != "";
  }

  lemma ListedAliasesAreFew(edges: Edges, target: Id, maxHops: nat, node: Id)
    ensures |Incoming(edges, node) * Elements(Dependents(edges, target, maxHops))| <= MAX_REVERSE_DEPENDENT_FAN_OUT
  {
    var list := Dependents(edges, target, maxHops);
    var children := ChildrenIn(edges, node, list);
    DependentsAreCapped(edges, target, maxHops, node);
    ChildrenInHas(edges, node, list);
    SubsetSize(Incoming(edges, node) * Elements(list), Elements(children));
    ElementsAreFew(children);
  }

  lemma {:induction false} ChildrenInHas(edges: Edges, parent: Id, ids: seq<Id>)
    ensures forall id :: id in ids && id in Incoming(edges, parent) ==> id in ChildrenIn(edges, parent, ids)
  {
    if ids != [] {
      ChildrenInHas(edges, parent, ids[1..]);
      assert ids == [ids[0]] + ids[1..];
    }
  }

  /** If nothing but the empty id is missing, then it is, and some other alias is listed. */
  lemma OnlyEmptyMissing(sources: set<Id>, listed: set<Id>) returns (other: Id)
    requires |sources| > MAX_REVERSE_DEPENDENT_FAN_OUT >= |sources * listed|
    requires sources - listed <= {""}
    ensures "" in sources && "" !in listed && other in sources && other in listed
  {
    var common := sources * listed;
    assert sources == common + (sources - listed);
    SubsetSize(sources, common + {""});
    assert sources != common;
    other :| other in common;
  }

  /** It cannot be that the empty id is missing and all other aliases of the node are listed. */
  lemma EmptyIsNotAlone(edges: Edges, target: Id, maxHops: nat, node: Id, d: nat)
    requires CrowdedAt(edges, target, node, d)
    ensures !(Incoming(edges, node) - {target} - Elements(Dependents(edges, target, maxHops)) <= {""})
  {
    var listed := Elements(Dependents(edges, target, maxHops));
    var sources := Incoming(edges, node) - {target};
    ListedAliasesAreFew(edges, target, maxHops, node);
    SubsetSize(sources * listed, Incoming(edges, node) * listed);
    if sources - listed <= {""} {
      var other := OnlyEmptyMissing(sources, listed);
      EmptyFollowsListed(edges, target, maxHops, node, d, other);
    }
  }

  lemma EmptyFollowsListed(edges: Edges, target: Id, maxHops: nat, node: Id, d: nat, other: Id)
    requires AtDistance(edges, node, target, d) && target != "" && target != other
    requires "" in Incoming(edges, node) && other in Incoming(edges, node) && other in Dependents(edges, target, maxHops)
    ensures "" in Dependents(edges, target, maxHops)
  {
    assert AtDistance(edges, "", target, d + 1) && AtDistance(edges, other, target, d + 1);
    assert AtDistance(edges, target, target, 0);
    assert Within(edges, target, target, 0, 0);
    EmptyIsListed(edges, target, [target], {target}, 0, maxHops, other, d + 1);
  }

  // ---------------------------------------------------------------------------------------
  // The gap
  // ---------------------------------------------------------------------------------------

  /** Deleting the edge out of `x` changes where `start` resolves to, and the list for `x` has no `start`. */
  ghost predicate IsMissed(edges: Edges, x: Id, maxHops: nat, start: Id) {
    && start != x && start !in Dependents(edges, x, maxHops)
    && Walk(edges, start, maxHops) != Walk(edges - {x}, start, maxHops)
  }

  /** A non-empty crowded node from which `x` is first reached in so many followed hops. */
  ghost predicate CrowdedOnWalk(edges: Edges, x: Id, node: Id, d: nat) {
    node != "" && AtDistance(Live(edges), node, x, d) && IsCrowded(edges, x, node)
  }

  lemma {:induction false} LiveDistance(edges: Edges, start: Id, goal: Id, d: nat)
    requires AtDistance(Live(edges), start, goal, d)
    ensures AtDistance(edges, start, goal, d)
    decreases d
  {
    if d > 0 {
      LiveDistance(edges, edges[start], goal, d - 1);
    }
  }

  lemma MissedHasCrowded(edges: Edges, x: Id, maxHops: nat, start: Id) returns (node: Id, d: nat)
    requires x in Live(edges) && IsMissed(edges, x, maxHops, start)
    ensures d + 1 < maxHops && CrowdedOnWalk(edges, x, node, d)
  {
    DeletionChangesExactlyThePassing(edges, x, start, maxHops);
    var j: nat :| j < maxHops && Hop(Live(edges), start, j) == Some(x);
    ReachedHasDistance(Live(edges), start, x, j);
    var e: nat :| e <= j && AtDistance(Live(edges), start, x, e);
    LiveDistance(edges, start, x, e);
    var k := UnlistedHasCrowded(edges, x, maxHops, start, e);
    PathDistances(Live(edges), start, x, e, k);
    LiveHopIsHop(edges, start, k);
    NeverAtEmpty(edges, start, k);
    node, d := Hop(edges, start, k).value, e - k;
  }

  lemma CrowdedHasMissed(edges: Edges, x: Id, maxHops: nat, node: Id, d: nat) returns (start: Id)
    requires x in Live(edges) && d + 1 < maxHops && CrowdedOnWalk(edges, x, node, d)
    ensures IsMissed(edges, x, maxHops, start) && start in Incoming(edges, node)
  {
    LiveDistance(edges, node, x, d);
    start := CrowdedLeavesOut(edges, x, maxHops, node, d);
    assert AtDistance(Live(edges), start, x, d + 1);
    DistanceIsFirstArrival(Live(edges), start, x, d + 1);
    DeletionChangesExactlyThePassing(edges, x, start, maxHops);
  }

  /**
   * Eviction misses a changed walk exactly when the cap bites where walks still pass: deleting a
   * followed edge out of `x` leaves some changed id unlisted if and only if a node with more than 256
   * aliases other than `x` is within `maxHops - 2` followed hops of `x`.
   */
  lemma EvictionMissesIff(edges: Edges, x: Id, maxHops: nat)
    requires x in Live(edges)
    ensures (exists start :: IsMissed(edges, x, maxHops, start)) <==>
            exists node: Id, d: nat :: d + 1 < maxHops && CrowdedOnWalk(edges, x, node, d)
  {
    if start :| IsMissed(edges, x, maxHops, start) {
      var node, d := MissedHasCrowded(edges, x, maxHops, start);
    }
    if node: Id, d: nat :| d + 1 < maxHops && CrowdedOnWalk(edges, x, node, d) {
      var start := CrowdedHasMissed(edges, x, maxHops, node, d);
    }
  }

  /** `x` is an alias of `y`, and all the other ids are aliases of `x`. */
  function Crowd(x: Id, y: Id, others: set<Id>): Edges {
    (map id | id in others :: x)[x := y]
  }

  /** With one alias more than the cap, deleting the edge out of `x` changes a walk that is not listed. */
  lemma CapLeavesGap(x: Id, y: Id, others: set<Id>, maxHops: nat) returns (start: Id)
    requires x != "" && y != "" && x !in others && maxHops >= 2
    requires |others| == MAX_REVERSE_DEPENDENT_FAN_OUT + 1
    ensures start in others && IsMissed(Crowd(x, y, others), x, maxHops, start)
  {
    var edges := Crowd(x, y, others);
    assert Incoming(edges, x) - {x} == others;
    assert CrowdedOnWalk(edges, x, x, 0);
    start := CrowdedHasMissed(edges, x, maxHops, x, 0);
  }
}
