/**
 * How many ids the search keeps, read off the alias table: the children of one node, the length of a
 * level, when the search is cut short at all, and when that leaves a changed walk unlisted.
 */
module FanOut {
  import opened Options
  import opened Collections
  import opened IdOrder
  import opened AliasGraph
  import opened ReverseDependents
  import opened AliasEviction

  function Capped(count: nat): nat {
    if count <= MAX_REVERSE_DEPENDENT_FAN_OUT then count else MAX_REVERSE_DEPENDENT_FAN_OUT
  }

  // ---------------------------------------------------------------------------------------
  // One node
  // ---------------------------------------------------------------------------------------

  lemma UnseenOf(ids: seq<Id>, seen: set<Id>)
    requires ids != [] && Ascending(ids)
    ensures Ascending(ids[1..])
    ensures ids[0] in seen ==> Elements(ids) - seen == Elements(ids[1..]) - seen
    ensures ids[0] !in seen ==> |Elements(ids) - seen| == 1 + |Elements(ids[1..]) - (seen + {ids[0]})|
  {
    var head, rest := ids[0], ids[1..];
    HeadIsFresh(ids);
    assert ids == [head] + rest;
    assert Elements(ids) == {head} + Elements(rest);
    if head !in seen {
      assert Elements(ids) - seen == {head} + (Elements(rest) - (seen + {head}));
    }
  }

  /** With room for some more: how many are kept, and whether the list is cut short. */
  ghost predicate Counted(incoming: seq<Id>, seen: set<Id>, kept: nat, unseen: nat, room: nat) {
    && |Keep(incoming, seen, kept)| == (if unseen <= room then unseen else room)
    && (CutShort(incoming, seen, kept) <==> unseen > room)
  }

  lemma {:induction false} KeepCount(incoming: seq<Id>, seen: set<Id>, kept: nat, room: nat)
    requires Ascending(incoming) && kept + room == MAX_REVERSE_DEPENDENT_FAN_OUT
    ensures Counted(incoming, seen, kept, |Elements(incoming) - seen|, room)
  {
    if incoming != [] {
      var head, rest := incoming[0], incoming[1..];
      UnseenOf(incoming, seen);
      if head in seen {
        KeepCount(rest, seen, kept, room);
      } else if room > 0 {
        KeepCount(rest, seen + {head}, kept + 1, room - 1);
      }
    }
  }

  /** A node's list is cut short exactly when it has more than 256 unseen aliases; 256 are kept then. */
  lemma ChildrenCount(edges: Edges, node: Id, seen: set<Id>)
    ensures |Children(edges, node, seen)| == Capped(|Incoming(edges, node) - seen|)
    ensures CutShort(Sorted(Incoming(edges, node)), seen, 0) <==> |Incoming(edges, node) - seen| > MAX_REVERSE_DEPENDENT_FAN_OUT
  {
    var sources := Sorted(Incoming(edges, node));
    assert Elements(sources) == Incoming(edges, node);
    KeepCount(sources, seen, 0, MAX_REVERSE_DEPENDENT_FAN_OUT);
  }

  // ---------------------------------------------------------------------------------------
  // One level
  // ---------------------------------------------------------------------------------------

  /** What the nodes of a frontier have in unseen aliases, each counted up to the cap. */
  function CappedSum(edges: Edges, frontier: seq<Id>, seen: set<Id>): nat {
    if frontier == [] then 0
    else Capped(|Incoming(edges, frontier[0]) - seen|) + CappedSum(edges, frontier[1..], seen)
  }

  predicate SomeOverCap(edges: Edges, frontier: seq<Id>, seen: set<Id>) {
    exists node | node in frontier :: |Incoming(edges, node) - seen| > MAX_REVERSE_DEPENDENT_FAN_OUT
  }

  /** Ids that are not aliases of any node ahead make no difference there. */
  lemma {:induction false} OthersDoNotCount(edges: Edges, frontier: seq<Id>, seen: set<Id>, others: set<Id>)
    requires forall id :: id in others ==> id in edges && edges[id] !in frontier
    ensures forall node :: node in frontier ==> Incoming(edges, node) - (seen + others) == Incoming(edges, node) - seen
    ensures CappedSum(edges, frontier, seen + others) == CappedSum(edges, frontier, seen)
    ensures SomeOverCap(edges, frontier, seen + others) == SomeOverCap(edges, frontier, seen)
  {
    forall node | node in frontier ensures Incoming(edges, node) - (seen + others) == Incoming(edges, node) - seen {}
    if frontier != [] {
      OthersDoNotCount(edges, frontier[1..], seen, others);
    }
  }

  /**
   * A level is as long as its frontier's unseen aliases together, each node counted up to the cap; so
   * it has at most 256 ids exactly when that sum is. It is cut short exactly when one node is over.
   */
  lemma {:induction false} LevelCount(edges: Edges, frontier: seq<Id>, seen: set<Id>)
    requires Distinct(frontier)
    ensures |Level(edges, frontier, seen)| == CappedSum(edges, frontier, seen)
    ensures LevelCutShort(edges, frontier, seen) <==> SomeOverCap(edges, frontier, seen)
  {
    if frontier != [] {
      var head, tail := frontier[0], frontier[1..];
      var children := Children(edges, head, seen);
      assert frontier == [head] + tail;
      assert head !in tail;
      ChildrenCount(edges, head, seen);
      ChildrenAre(edges, head, seen);
      OthersDoNotCount(edges, tail, seen, Elements(children));
      LevelCount(edges, tail, seen + Elements(children));
      assert SomeOverCap(edges, frontier, seen) <==>
             |Incoming(edges, head) - seen| > MAX_REVERSE_DEPENDENT_FAN_OUT || SomeOverCap(edges, tail, seen);
    }
  }

  // ---------------------------------------------------------------------------------------
  // The whole search
  // ---------------------------------------------------------------------------------------

  /** The node has more than 256 aliases other than the target. */
  ghost predicate IsCrowded(edges: Edges, target: Id, node: Id) {
    |Incoming(edges, node) - {target}| > MAX_REVERSE_DEPENDENT_FAN_OUT
  }

  ghost predicate CrowdedAt(edges: Edges, target: Id, node: Id, d: nat) {
    AtDistance(edges, node, target, d) && IsCrowded(edges, target, node)
  }

  ghost predicate CrowdedWithin(edges: Edges, target: Id, low: nat, high: nat) {
    exists node: Id, d: nat :: low <= d < high && CrowdedAt(edges, target, node, d)
  }

  /** Without a crowded node at this distance the level is not cut, and the next one is at the next distance. */
  lemma CalmStep(edges: Edges, target: Id, frontier: seq<Id>, seen: set<Id>, depth: nat)
    requires target in seen && Distinct(frontier) && AllAt(edges, frontier, target, depth)
    requires forall node :: !CrowdedAt(edges, target, node, depth)
    ensures !LevelCutShort(edges, frontier, seen)
    ensures var next := Level(edges, frontier, seen);
            target in seen + Elements(next) && Distinct(next) && AllAt(edges, next, target, depth + 1)
  {
    LevelCount(edges, frontier, seen);
    LevelIsDistinct(edges, frontier, seen);
    LevelIsFarther(edges, target, frontier, seen, depth);
    forall node | node in frontier ensures |Incoming(edges, node) - seen| <= MAX_REVERSE_DEPENDENT_FAN_OUT {
      SubsetSize(Incoming(edges, node) - seen, Incoming(edges, node) - {target});
      assert !CrowdedAt(edges, target, node, depth);
    }
  }

  lemma {:induction false} CalmIsUncut(edges: Edges, target: Id, frontier: seq<Id>, seen: set<Id>, depth: nat, hops: nat)
    requires target in seen && Distinct(frontier) && AllAt(edges, frontier, target, depth)
    requires !CrowdedWithin(edges, target, depth, depth + hops)
    ensures !SearchCutShort(edges, frontier, seen, hops)
    decreases hops
  {
    if hops > 0 && frontier != [] {
      var next := Level(edges, frontier, seen);
      CalmStep(edges, target, frontier, seen, depth);
      CalmIsUncut(edges, target, next, seen + Elements(next), depth + 1, hops - 1);
    }
  }

  /** An alias of a node at some distance is unseen while that distance is being expanded. */
  lemma AliasesAreUnseen(edges: Edges, target: Id, frontier: seq<Id>, seen: set<Id>, depth: nat, node: Id)
    requires LevelsComplete(edges, target, frontier, seen, depth) && AtDistance(edges, node, target, depth)
    ensures Incoming(edges, node) - {target} == Incoming(edges, node) - seen
  {
    assert AtDistance(edges, target, target, 0);
    assert Within(edges, target, target, 0, depth);
    forall src | src in Incoming(edges, node) && src != target ensures src !in seen {
      assert AtDistance(edges, src, target, depth + 1);
      NotWithinEarlier(edges, src, target, depth);
    }
  }

  lemma NotWithinEarlier(edges: Edges, id: Id, target: Id, depth: nat)
    requires AtDistance(edges, id, target, depth + 1)
    ensures !Within(edges, id, target, 0, depth)
  {
    forall d: nat | d <= depth ensures !AtDistance(edges, id, target, d) {
      if AtDistance(edges, id, target, d) {
        DistanceIsUnique(edges, id, target, d, depth + 1);
      }
    }
  }

  /** A crowded node in the frontier cuts this level. */
  lemma CrowdedCutsLevel(edges: Edges, target: Id, frontier: seq<Id>, seen: set<Id>, depth: nat, node: Id)
    requires LevelsComplete(edges, target, frontier, seen, depth) && Distinct(frontier)
    requires CrowdedAt(edges, target, node, depth)
    ensures LevelCutShort(edges, frontier, seen)
  {
    LevelCount(edges, frontier, seen);
    AliasesAreUnseen(edges, target, frontier, seen, depth, node);
    LevelHoldsItsDistance(edges, target, frontier, seen, depth, node);
  }

  /** A crowded node ahead cuts this level, or else the next one is complete and nearer to it. */
  lemma CompleteStep(edges: Edges, target: Id, frontier: seq<Id>, seen: set<Id>, depth: nat, hops: nat, node: Id, d: nat)
    returns (here: bool, next: seq<Id>, later: set<Id>)
    requires LevelsComplete(edges, target, frontier, seen, depth) && Distinct(frontier)
    requires depth <= d < depth + hops && CrowdedAt(edges, target, node, d)
    ensures here ==> SearchCutShort(edges, frontier, seen, hops)
    ensures !here ==> d > depth && Distinct(next) && LevelsComplete(edges, target, next, later, depth + 1)
    ensures !here && SearchCutShort(edges, next, later, hops - 1) ==> SearchCutShort(edges, frontier, seen, hops)
  {
    here := LevelCutShort(edges, frontier, seen);
    next := Level(edges, frontier, seen);
    later := seen + Elements(next);
    FrontierIsNotEmpty(edges, target, frontier, seen, depth, node, d);
    if d == depth {
      CrowdedCutsLevel(edges, target, frontier, seen, depth, node);
    }
    if !here {
      NextLevelComplete(edges, target, frontier, seen, depth);
      LevelIsDistinct(edges, frontier, seen);
    }
  }

  lemma {:induction false} CrowdedIsCut(edges: Edges, target: Id, frontier: seq<Id>, seen: set<Id>, depth: nat, hops: nat, node: Id, d: nat)
    requires LevelsComplete(edges, target, frontier, seen, depth) && Distinct(frontier)
    requires depth <= d < depth + hops && CrowdedAt(edges, target, node, d)
    ensures SearchCutShort(edges, frontier, seen, hops)
    decreases hops
  {
    var here, next, later := CompleteStep(edges, target, frontier, seen, depth, hops, node, d);
    if !here {
      CrowdedIsCut(edges, target, next, later, depth + 1, hops - 1, node, d);
    }
  }

  /**
   * A search is cut short exactly when some node at a distance below `maxHops` has more than 256
   * aliases, the target itself not counted.
   */
  lemma TruncatedIff(edges: Edges, target: Id, maxHops: nat)
    ensures Truncated(edges, target, maxHops) <==> CrowdedWithin(edges, target, 0, maxHops)
  {
    assert AtDistance(edges, target, target, 0);
    if !CrowdedWithin(edges, target, 0, maxHops) {
      CalmIsUncut(edges, target, [target], {target}, 0, maxHops);
    }
    if CrowdedWithin(edges, target, 0, maxHops) {
      var node: Id, d: nat :| d < maxHops && CrowdedAt(edges, target, node, d);
      forall id ensures id in {target} <==> Within(edges, id, target, 0, 0) {}
      CrowdedIsCut(edges, target, [target], {target}, 0, maxHops, node, d);
    }
  }
}
