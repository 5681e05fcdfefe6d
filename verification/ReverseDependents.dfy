/**
 * The backward half of alias resolution: the breadth-first search over incoming aliases that
 * says which cached ids to evict when the edge out of one id changes.
 */
module ReverseDependents {
  import opened IdOrder
  import opened AliasGraph

  /** Children kept per parent before the search cuts a list short and logs a warning. */
  const MAX_REVERSE_DEPENDENT_FAN_OUT: nat := 256

  /** The alias ids whose outgoing edge points at `node`: the exact inverse of the alias table. */
  function Incoming(edges: Edges, node: Id): set<Id> {
    set src | src in edges && edges[src] == node
  }

  function Elements(ids: seq<Id>): set<Id> {
    set id | id in ids
  }

  lemma {:induction false} ElementsAreFew(ids: seq<Id>)
    ensures |Elements(ids)| <= |ids|
  {
    if ids != [] {
      ElementsAreFew(ids[1..]);
      assert ids == [ids[0]] + ids[1..];
      assert Elements(ids) == {ids[0]} + Elements(ids[1..]);
    }
  }

  // ---------------------------------------------------------------------------------------
  // The search, loop by loop
  // ---------------------------------------------------------------------------------------

  /** The innermost loop: of `incoming`, the unseen ids, as long as fewer than the cap are kept. */
  function Keep(incoming: seq<Id>, seen: set<Id>, kept: nat): seq<Id> {
    if incoming == [] then []
    else if incoming[0] in seen then Keep(incoming[1..], seen, kept)
    else if kept >= MAX_REVERSE_DEPENDENT_FAN_OUT then []
    else [incoming[0]] + Keep(incoming[1..], seen + {incoming[0]}, kept + 1)
  }

  /** Whether the innermost loop stops early, which is when it logs the truncation warning. */
  predicate CutShort(incoming: seq<Id>, seen: set<Id>, kept: nat) {
    if incoming == [] then false
    else if incoming[0] in seen then CutShort(incoming[1..], seen, kept)
    else if kept >= MAX_REVERSE_DEPENDENT_FAN_OUT then true
    else CutShort(incoming[1..], seen + {incoming[0]}, kept + 1)
  }

  function Children(edges: Edges, node: Id, seen: set<Id>): seq<Id> {
    Keep(Sorted(Incoming(edges, node)), seen, 0)
  }

  /** One level of the search: the children of each frontier node in turn. */
  function Level(edges: Edges, frontier: seq<Id>, seen: set<Id>): seq<Id> {
    if frontier == [] then []
    else
      var children := Children(edges, frontier[0], seen);
      children + Level(edges, frontier[1..], seen + Elements(children))
  }

  predicate LevelCutShort(edges: Edges, frontier: seq<Id>, seen: set<Id>) {
    if frontier == [] then false
    else
      || CutShort(Sorted(Incoming(edges, frontier[0])), seen, 0)
      || LevelCutShort(edges, frontier[1..], seen + Elements(Children(edges, frontier[0], seen)))
  }

  function Search(edges: Edges, frontier: seq<Id>, seen: set<Id>, hops: nat): seq<Id>
    decreases hops
  {
    if hops == 0 || frontier == [] then []
    else
      var next := Level(edges, frontier, seen);
      next + Search(edges, next, seen + Elements(next), hops - 1)
  }

  predicate SearchCutShort(edges: Edges, frontier: seq<Id>, seen: set<Id>, hops: nat)
    decreases hops
  {
    if hops == 0 || frontier == [] then false
    else
      var next := Level(edges, frontier, seen);
      LevelCutShort(edges, frontier, seen) || SearchCutShort(edges, next, seen + Elements(next), hops - 1)
  }

  function Dependents(edges: Edges, target: Id, maxHops: nat): seq<Id> {
    Search(edges, [target], {target}, maxHops)
  }

  predicate Truncated(edges: Edges, target: Id, maxHops: nat) {
    SearchCutShort(edges, [target], {target}, maxHops)
  }

  // ---------------------------------------------------------------------------------------
  // One node and one level
  // ---------------------------------------------------------------------------------------

  ghost predicate Distinct(ids: seq<Id>) {
    forall i, j :: 0 <= i < j < |ids| ==> ids[i] != ids[j]
  }

  lemma DistinctConcat(a: seq<Id>, b: seq<Id>)
    requires Distinct(a) && Distinct(b)
    requires forall id :: id in b ==> id !in a
    ensures Distinct(a + b)
  {
    var ab := a + b;
    forall i, j | 0 <= i < j < |ab| ensures ab[i] != ab[j] {
      if i < |a| <= j {
        assert ab[j] in b && ab[i] in a;
      }
    }
  }

  lemma {:induction false} KeepSelects(incoming: seq<Id>, seen: set<Id>, kept: nat)
    requires Ascending(incoming) && kept <= MAX_REVERSE_DEPENDENT_FAN_OUT
    ensures var out := Keep(incoming, seen, kept);
            && Ascending(out)
            && |out| <= MAX_REVERSE_DEPENDENT_FAN_OUT - kept
            && (forall id :: id in out ==> id in incoming && id !in seen)
            && (!CutShort(incoming, seen, kept) ==> forall id :: id in incoming && id !in seen ==> id in out)
  {
    if incoming != [] {
      var head, rest := incoming[0], incoming[1..];
      assert incoming == [head] + rest;
      if head in seen {
        KeepSelects(rest, seen, kept);
      } else if kept < MAX_REVERSE_DEPENDENT_FAN_OUT {
        KeepSelects(rest, seen + {head}, kept + 1);
        var tail := Keep(rest, seen + {head}, kept + 1);
        forall id | id in tail ensures Below(head, id) {
          var j :| 0 <= j < |rest| && rest[j] == id;
          assert incoming[0] == head && incoming[j + 1] == id;
        }
      }
    }
  }

  lemma AscendingIsDistinct(ids: seq<Id>)
    requires Ascending(ids)
    ensures Distinct(ids)
  {
    forall i, j | 0 <= i < j < |ids| ensures ids[i] != ids[j] {
      BelowIsAsymmetric(ids[i], ids[j]);
    }
  }

  /** One node's children: unseen sources, ascending, at most the cap, and all of them if uncut. */
  lemma ChildrenAre(edges: Edges, node: Id, seen: set<Id>)
    ensures var out := Children(edges, node, seen);
            && Ascending(out) && Distinct(out)
            && |out| <= MAX_REVERSE_DEPENDENT_FAN_OUT
            && (forall id :: id in out ==> id in edges && edges[id] == node && id !in seen)
            && (!CutShort(Sorted(Incoming(edges, node)), seen, 0) ==>
                  forall id :: id in edges && edges[id] == node && id !in seen ==> id in out)
  {
    KeepSelects(Sorted(Incoming(edges, node)), seen, 0);
    AscendingIsDistinct(Children(edges, node, seen));
  }

  lemma {:induction false} LevelIs(edges: Edges, frontier: seq<Id>, seen: set<Id>)
    ensures var out := Level(edges, frontier, seen);
            && Distinct(out)
            && (forall id :: id in out ==> id in edges && edges[id] in frontier && id !in seen)
            && (!LevelCutShort(edges, frontier, seen) ==>
                  forall id :: id in edges && edges[id] in frontier && id !in seen ==> id in out)
  {
    if frontier != [] {
      var children := Children(edges, frontier[0], seen);
      var rest := Level(edges, frontier[1..], seen + Elements(children));
      ChildrenAre(edges, frontier[0], seen);
      LevelIs(edges, frontier[1..], seen + Elements(children));
      assert frontier == [frontier[0]] + frontier[1..];
      forall id | id in rest ensures id !in children {
        assert id !in Elements(children);
      }
      DistinctConcat(children, rest);
    }
  }

  // ---------------------------------------------------------------------------------------
  // Distances
  // ---------------------------------------------------------------------------------------

  ghost predicate AllAt(edges: Edges, ids: seq<Id>, target: Id, distance: nat) {
    forall id :: id in ids ==> AtDistance(edges, id, target, distance)
  }

  /** The ids at a distance of at least `low` and at most `high` from the target. */
  ghost predicate Within(edges: Edges, id: Id, target: Id, low: nat, high: nat) {
    exists d: nat :: low <= d <= high && AtDistance(edges, id, target, d)
  }

  lemma WithinWidens(edges: Edges, id: Id, target: Id, low: nat, high: nat, lower: nat, higher: nat)
    requires Within(edges, id, target, low, high) && lower <= low && high <= higher
    ensures Within(edges, id, target, lower, higher)
  {
    var d: nat :| low <= d <= high && AtDistance(edges, id, target, d);
  }

  lemma ElementsAre(ids: seq<Id>, seen: set<Id>, id: Id)
    ensures id in seen + Elements(ids) <==> id in seen || id in ids
  {}

  lemma {:induction false} SearchIsDistinct(edges: Edges, frontier: seq<Id>, seen: set<Id>, hops: nat)
    ensures Distinct(Search(edges, frontier, seen, hops))
    ensures forall id :: id in Search(edges, frontier, seen, hops) ==> id !in seen
    decreases hops
  {
    if hops > 0 && frontier != [] {
      var next := Level(edges, frontier, seen);
      var rest := Search(edges, next, seen + Elements(next), hops - 1);
      LevelIs(edges, frontier, seen);
      SearchIsDistinct(edges, next, seen + Elements(next), hops - 1);
      forall id | id in rest ensures id !in next && id !in seen {
        ElementsAre(next, seen, id);
      }
      DistinctConcat(next, rest);
    }
  }

  /** One level farther: unseen ids whose edge leads into a level at one distance are at the next. */
  lemma LevelIsFarther(edges: Edges, target: Id, frontier: seq<Id>, seen: set<Id>, depth: nat)
    requires target in seen && AllAt(edges, frontier, target, depth)
    ensures AllAt(edges, Level(edges, frontier, seen), target, depth + 1)
    ensures target in seen + Elements(Level(edges, frontier, seen))
  {
    LevelIs(edges, frontier, seen);
  }

  lemma {:induction false} SearchIsNear(edges: Edges, target: Id, frontier: seq<Id>, seen: set<Id>, depth: nat, hops: nat, id: Id)
    requires target in seen && AllAt(edges, frontier, target, depth)
    requires id in Search(edges, frontier, seen, hops)
    ensures Within(edges, id, target, depth + 1, depth + hops)
    decreases hops
  {
    var next := Level(edges, frontier, seen);
    LevelIsFarther(edges, target, frontier, seen, depth);
    SearchMembers(edges, frontier, seen, hops, id);
    if id !in next {
      SearchIsNear(edges, target, next, seen + Elements(next), depth + 1, hops - 1, id);
      WithinWidens(edges, id, target, depth + 2, depth + hops, depth + 1, depth + hops);
    }
  }

  /** Frontier and seen set hold exactly what breadth-first search promises after `depth` levels. */
  ghost predicate LevelsComplete(edges: Edges, target: Id, frontier: seq<Id>, seen: set<Id>, depth: nat) {
    && (forall id :: id in frontier <==> AtDistance(edges, id, target, depth))
    && (forall id :: id in seen <==> Within(edges, id, target, 0, depth))
  }

  lemma NextLevelComplete(edges: Edges, target: Id, frontier: seq<Id>, seen: set<Id>, depth: nat)
    requires LevelsComplete(edges, target, frontier, seen, depth)
    requires !LevelCutShort(edges, frontier, seen)
    ensures var next := Level(edges, frontier, seen);
            LevelsComplete(edges, target, next, seen + Elements(next), depth + 1)
  {
    var next := Level(edges, frontier, seen);
    LevelIs(edges, frontier, seen);
    assert AtDistance(edges, target, target, 0);
    assert Within(edges, target, target, 0, depth);
    forall id ensures id in next <==> AtDistance(edges, id, target, depth + 1) {
      if AtDistance(edges, id, target, depth + 1) && id in seen {
        var d: nat :| d <= depth && AtDistance(edges, id, target, d);
        DistanceIsUnique(edges, id, target, d, depth + 1);
      }
    }
    forall id ensures id in seen + Elements(next) <==> Within(edges, id, target, 0, depth + 1) {
      if Within(edges, id, target, 0, depth + 1) && id !in seen {
        var d: nat :| d <= depth + 1 && AtDistance(edges, id, target, d);
        assert d == depth + 1;
      }
    }
  }

  lemma SearchMembers(edges: Edges, frontier: seq<Id>, seen: set<Id>, hops: nat, id: Id)
    requires hops > 0 && frontier != []
    ensures var next := Level(edges, frontier, seen);
            && (id in Search(edges, frontier, seen, hops) <==> id in next || id in Search(edges, next, seen + Elements(next), hops - 1))
            && (!SearchCutShort(edges, frontier, seen, hops) ==>
                  !LevelCutShort(edges, frontier, seen) && !SearchCutShort(edges, next, seen + Elements(next), hops - 1))
  {}

  lemma {:induction false} SearchIsComplete(edges: Edges, target: Id, frontier: seq<Id>, seen: set<Id>, depth: nat, hops: nat,
                                            id: Id, d: nat)
    requires LevelsComplete(edges, target, frontier, seen, depth)
    requires !SearchCutShort(edges, frontier, seen, hops)
    requires depth < d <= depth + hops && AtDistance(edges, id, target, d)
    ensures id in Search(edges, frontier, seen, hops)
    decreases hops
  {
    var next, later := StepOfComplete(edges, target, frontier, seen, depth, hops, id, d);
    if d > depth + 1 {
      SearchIsComplete(edges, target, next, later, depth + 1, hops - 1, id, d);
    }
  }

  lemma {:induction false} StepOfComplete(edges: Edges, target: Id, frontier: seq<Id>, seen: set<Id>, depth: nat, hops: nat, id: Id, d: nat)
    returns (next: seq<Id>, later: set<Id>)
    requires LevelsComplete(edges, target, frontier, seen, depth)
    requires !SearchCutShort(edges, frontier, seen, hops)
    requires depth < d <= depth + hops && AtDistance(edges, id, target, d)
    ensures && LevelsComplete(edges, target, next, later, depth + 1)
            && !SearchCutShort(edges, next, later, hops - 1)
            && (d == depth + 1 ==> id in next)
            && (id in next || id in Search(edges, next, later, hops - 1) ==> id in Search(edges, frontier, seen, hops))
  {
    FrontierIsNotEmpty(edges, target, frontier, seen, depth, id, d);
    SearchMembers(edges, frontier, seen, hops, id);
    NextLevelComplete(edges, target, frontier, seen, depth);
    next := Level(edges, frontier, seen);
    later := seen + Elements(next);
    if d == depth + 1 {
      LevelHoldsItsDistance(edges, target, next, later, d, id);
    }
  }

  lemma LevelHoldsItsDistance(edges: Edges, target: Id, level: seq<Id>, seen: set<Id>, depth: nat, id: Id)
    requires LevelsComplete(edges, target, level, seen, depth) && AtDistance(edges, id, target, depth)
    ensures id in level
  {}

  lemma FrontierIsNotEmpty(edges: Edges, target: Id, frontier: seq<Id>, seen: set<Id>, depth: nat, id: Id, d: nat)
    requires LevelsComplete(edges, target, frontier, seen, depth)
    requires depth <= d && AtDistance(edges, id, target, d)
    ensures frontier != []
  {
    if frontier == [] {
      NothingBeyondEmptyLevel(edges, id, target, depth, d);
    }
  }

  lemma {:induction false} NothingBeyondEmptyLevel(edges: Edges, id: Id, target: Id, depth: nat, d: nat)
    requires forall other :: !AtDistance(edges, other, target, depth)
    requires depth <= d
    ensures !AtDistance(edges, id, target, d)
    decreases d
  {
    if depth < d && id in edges {
      NothingBeyondEmptyLevel(edges, edges[id], target, depth, d - 1);
    }
  }

  /**
   * Backward agrees with forward. The search lists no id twice and never the target; each listed
   * id is at distance 1 to `maxHops`; and if nothing was cut short, every such id is listed.
   */
  lemma DependentsAreTheBall(edges: Edges, target: Id, maxHops: nat)
    ensures var out := Dependents(edges, target, maxHops);
            && Distinct(out) && target !in out
            && (forall id :: id in out ==> Within(edges, id, target, 1, maxHops))
            && (!Truncated(edges, target, maxHops) ==>
                  forall id :: id in out <==> Within(edges, id, target, 1, maxHops))
  {
    assert AtDistance(edges, target, target, 0);
    SearchIsDistinct(edges, [target], {target}, maxHops);
    forall id | id in Dependents(edges, target, maxHops) ensures Within(edges, id, target, 1, maxHops) {
      SearchIsNear(edges, target, [target], {target}, 0, maxHops, id);
    }
    if !Truncated(edges, target, maxHops) {
      forall id ensures id in {target} <==> Within(edges, id, target, 0, 0) {}
      forall id | Within(edges, id, target, 1, maxHops) ensures id in Dependents(edges, target, maxHops) {
        var d: nat :| 1 <= d <= maxHops && AtDistance(edges, id, target, d);
        SearchIsComplete(edges, target, [target], {target}, 0, maxHops, id, d);
      }
    }
  }

  // ---------------------------------------------------------------------------------------
  // The order of the list, truncated or not
  // ---------------------------------------------------------------------------------------

  /** The parent of `a` stands before that of `b` in `parents`, or they share it and `a` is below `b`. */
  ghost predicate InOrder(edges: Edges, parents: seq<Id>, a: Id, b: Id)
    requires a in edges && b in edges
  {
    forall p, q :: 0 <= p < |parents| && 0 <= q < |parents| && parents[p] == edges[a] && parents[q] == edges[b]
                   ==> p < q || (p == q && Below(a, b))
  }

  ghost predicate ParentOrdered(edges: Edges, parents: seq<Id>, out: seq<Id>) {
    && (forall id :: id in out ==> id in edges && edges[id] in parents)
    && (forall i, j :: 0 <= i < j < |out| ==> InOrder(edges, parents, out[i], out[j]))
  }

  lemma {:induction false} LevelIsParentOrdered(edges: Edges, frontier: seq<Id>, seen: set<Id>)
    requires Distinct(frontier)
    ensures ParentOrdered(edges, frontier, Level(edges, frontier, seen))
  {
    LevelIs(edges, frontier, seen);
    if frontier != [] {
      var head, tail := frontier[0], frontier[1..];
      var children := Children(edges, head, seen);
      ChildrenAre(edges, head, seen);
      LevelIs(edges, tail, seen + Elements(children));
      LevelIsParentOrdered(edges, tail, seen + Elements(children));
      assert [head] + tail == frontier;
      ChildrenThenLevel(edges, head, tail, children, Level(edges, tail, seen + Elements(children)));
    }
  }

  lemma ChildrenThenLevel(edges: Edges, head: Id, tail: seq<Id>, children: seq<Id>, rest: seq<Id>)
    requires Distinct([head] + tail) && Ascending(children)
    requires forall id :: id in children ==> id in edges && edges[id] == head
    requires ParentOrdered(edges, tail, rest)
    ensures ParentOrdered(edges, [head] + tail, children + rest)
  {
    var out := children + rest;
    forall k | 0 <= k < |tail| ensures tail[k] != head {
      assert ([head] + tail)[0] == head && ([head] + tail)[k + 1] == tail[k];
    }
    forall i, j | 0 <= i < j < |out| ensures InOrder(edges, [head] + tail, out[i], out[j]) {
      if i >= |children| {
        assert out[i] in rest && out[j] in rest;
        assert InOrder(edges, tail, rest[i - |children|], rest[j - |children|]);
      } else if j >= |children| {
        assert out[i] in children && out[j] in rest;
      } else {
        assert out[i] in children && out[j] in children;
      }
    }
  }

  lemma {:induction false} SearchIsParentOrdered(edges: Edges, target: Id, frontier: seq<Id>, seen: set<Id>, hops: nat)
    requires Distinct(frontier) && forall id :: id in frontier ==> id in seen
    ensures var out := Search(edges, frontier, seen, hops);
            Distinct(frontier + out) && ParentOrdered(edges, frontier + out, out)
    decreases hops
  {
    var out := Search(edges, frontier, seen, hops);
    SearchIsDistinct(edges, frontier, seen, hops);
    DistinctConcat(frontier, out);
    if hops > 0 && frontier != [] {
      var next := Level(edges, frontier, seen);
      var rest := Search(edges, next, seen + Elements(next), hops - 1);
      LevelIs(edges, frontier, seen);
      LevelIsParentOrdered(edges, frontier, seen);
      SearchIsParentOrdered(edges, target, next, seen + Elements(next), hops - 1);
      ConcatIsParentOrdered(edges, frontier, next, rest);
    }
  }

  lemma {:induction false} ConcatIsParentOrdered(edges: Edges, frontier: seq<Id>, next: seq<Id>, rest: seq<Id>)
    requires forall id :: id in next + rest ==> id !in frontier
    requires ParentOrdered(edges, frontier, next) && ParentOrdered(edges, next + rest, rest)
    ensures ParentOrdered(edges, frontier + (next + rest), next + rest)
  {
    var out := next + rest;
    forall i, j | 0 <= i < j < |out| ensures InOrder(edges, frontier + out, out[i], out[j]) {
      if j < |next| {
        assert out[i] in next && out[j] in next;
      } else if i >= |next| {
        assert out[i] in rest && out[j] in rest;
        assert InOrder(edges, out, rest[i - |next|], rest[j - |next|]);
      } else {
        assert out[i] in next && out[j] in rest;
      }
    }
  }

  /**
   * The order of the list: with the target standing before it, parents come in list order and the
   * children of one parent in ascending id order. The sort is therefore per parent, not per level.
   */
  lemma DependentsAreOrdered(edges: Edges, target: Id, maxHops: nat)
    ensures var out := Dependents(edges, target, maxHops);
            Distinct([target] + out) && ParentOrdered(edges, [target] + out, out)
  {
    SearchIsParentOrdered(edges, target, [target], {target}, maxHops);
  }

  ghost predicate NoFarther(edges: Edges, target: Id, a: Id, b: Id) {
    forall d: nat, e: nat :: AtDistance(edges, a, target, d) && AtDistance(edges, b, target, e) ==> d <= e
  }

  ghost predicate ByDistance(edges: Edges, target: Id, out: seq<Id>) {
    forall i, j :: 0 <= i < j < |out| ==> NoFarther(edges, target, out[i], out[j])
  }

  lemma NearThenFar(edges: Edges, target: Id, a: Id, b: Id, depth: nat, high: nat)
    requires AtDistance(edges, a, target, depth) && Within(edges, b, target, depth, high)
    ensures NoFarther(edges, target, a, b)
  {
    var f: nat :| depth <= f <= high && AtDistance(edges, b, target, f);
    forall d: nat, e: nat | AtDistance(edges, a, target, d) && AtDistance(edges, b, target, e) ensures d <= e {
      DistanceIsUnique(edges, a, target, d, depth);
      DistanceIsUnique(edges, b, target, e, f);
    }
  }

  lemma ConcatIsByDistance(edges: Edges, target: Id, next: seq<Id>, rest: seq<Id>, depth: nat, high: nat)
    requires AllAt(edges, next, target, depth) && ByDistance(edges, target, rest)
    requires forall id :: id in rest ==> Within(edges, id, target, depth, high)
    ensures ByDistance(edges, target, next + rest)
  {
    var out := next + rest;
    forall i, j | 0 <= i < j < |out| ensures NoFarther(edges, target, out[i], out[j]) {
      if i >= |next| {
        assert out[i] == rest[i - |next|] && out[j] == rest[j - |next|];
      } else {
        assert out[i] in next;
        if j < |next| {
          assert out[j] in next;
          NearThenFar(edges, target, out[i], out[j], depth, depth);
        } else {
          assert out[j] in rest;
          NearThenFar(edges, target, out[i], out[j], depth, high);
        }
      }
    }
  }

  lemma {:induction false} SearchIsByDistance(edges: Edges, target: Id, frontier: seq<Id>, seen: set<Id>, depth: nat, hops: nat)
    requires target in seen && AllAt(edges, frontier, target, depth)
    ensures ByDistance(edges, target, Search(edges, frontier, seen, hops))
    decreases hops
  {
    if hops > 0 && frontier != [] {
      var next := Level(edges, frontier, seen);
      var later := seen + Elements(next);
      LevelIsFarther(edges, target, frontier, seen, depth);
      SearchIsByDistance(edges, target, next, later, depth + 1, hops - 1);
      var rest := Search(edges, next, later, hops - 1);
      forall id | id in rest ensures Within(edges, id, target, depth + 1, depth + hops) {
        SearchIsNear(edges, target, next, later, depth + 1, hops - 1, id);
        WithinWidens(edges, id, target, depth + 2, depth + hops, depth + 1, depth + hops);
      }
      ConcatIsByDistance(edges, target, next, rest, depth + 1, depth + hops);
    }
  }

  /** The list is in breadth-first order: distances to the target never decrease along it. */
  lemma DependentsAreByDistance(edges: Edges, target: Id, maxHops: nat)
    ensures ByDistance(edges, target, Dependents(edges, target, maxHops))
  {
    assert AtDistance(edges, target, target, 0);
    SearchIsByDistance(edges, target, [target], {target}, 0, maxHops);
  }

  // ---------------------------------------------------------------------------------------
  // The fan-out cap
  // ---------------------------------------------------------------------------------------

  /** The listed ids whose alias points at `parent`, in list order. */
  ghost function ChildrenIn(edges: Edges, parent: Id, ids: seq<Id>): seq<Id> {
    if ids == [] then []
    else (if ids[0] in edges && edges[ids[0]] == parent then [ids[0]] else []) + ChildrenIn(edges, parent, ids[1..])
  }

  lemma {:induction false} ChildrenInConcat(edges: Edges, parent: Id, a: seq<Id>, b: seq<Id>)
    ensures ChildrenIn(edges, parent, a + b) == ChildrenIn(edges, parent, a) + ChildrenIn(edges, parent, b)
  {
    if a == [] {
      assert a + b == b;
    } else {
      assert (a + b)[1..] == a[1..] + b;
      ChildrenInConcat(edges, parent, a[1..], b);
    }
  }

  lemma {:induction false} ChildrenInUniform(edges: Edges, parent: Id, ids: seq<Id>, node: Id)
    requires forall id :: id in ids ==> id in edges && edges[id] == node
    ensures ChildrenIn(edges, parent, ids) == if parent == node then ids else []
  {
    if ids != [] {
      ChildrenInUniform(edges, parent, ids[1..], node);
      assert ids == [ids[0]] + ids[1..];
    }
  }

  lemma {:induction false} ChildrenInNone(edges: Edges, parent: Id, ids: seq<Id>)
    requires forall id :: id in ids ==> id in edges && edges[id] != parent
    ensures ChildrenIn(edges, parent, ids) == []
  {
    if ids != [] {
      ChildrenInNone(edges, parent, ids[1..]);
    }
  }

  /** If only one of two parts has children of the parent, and not too many, neither has the whole. */
  lemma CappedConcat(edges: Edges, parent: Id, a: seq<Id>, b: seq<Id>)
    requires ChildrenIn(edges, parent, a) == [] || ChildrenIn(edges, parent, b) == []
    requires |ChildrenIn(edges, parent, a)| <= MAX_REVERSE_DEPENDENT_FAN_OUT
    requires |ChildrenIn(edges, parent, b)| <= MAX_REVERSE_DEPENDENT_FAN_OUT
    ensures |ChildrenIn(edges, parent, a + b)| <= MAX_REVERSE_DEPENDENT_FAN_OUT
  {
    ChildrenInConcat(edges, parent, a, b);
  }

  lemma ChildrenCapped(edges: Edges, node: Id, seen: set<Id>, parent: Id)
    ensures |ChildrenIn(edges, parent, Children(edges, node, seen))| <= MAX_REVERSE_DEPENDENT_FAN_OUT
    ensures parent != node ==> ChildrenIn(edges, parent, Children(edges, node, seen)) == []
  {
    ChildrenAre(edges, node, seen);
    ChildrenInUniform(edges, parent, Children(edges, node, seen), node);
  }

  lemma LevelHasNoOther(edges: Edges, frontier: seq<Id>, seen: set<Id>, parent: Id)
    requires parent !in frontier
    ensures ChildrenIn(edges, parent, Level(edges, frontier, seen)) == []
  {
    LevelIs(edges, frontier, seen);
    ChildrenInNone(edges, parent, Level(edges, frontier, seen));
  }

  lemma {:induction false} LevelIsCapped(edges: Edges, frontier: seq<Id>, seen: set<Id>, parent: Id)
    requires Distinct(frontier)
    ensures |ChildrenIn(edges, parent, Level(edges, frontier, seen))| <= MAX_REVERSE_DEPENDENT_FAN_OUT
  {
    if frontier != [] {
      var children := Children(edges, frontier[0], seen);
      var later := seen + Elements(children);
      ChildrenCapped(edges, frontier[0], seen, parent);
      LevelIsCapped(edges, frontier[1..], later, parent);
      if parent == frontier[0] {
        LevelHasNoOther(edges, frontier[1..], later, parent);
      }
      CappedConcat(edges, parent, children, Level(edges, frontier[1..], later));
    }
  }

  lemma FartherHasOtherParent(edges: Edges, target: Id, id: Id, parent: Id, depth: nat, high: nat)
    requires AtDistance(edges, parent, target, depth) && Within(edges, id, target, depth + 2, high)
    ensures id in edges && edges[id] != parent
  {
    var d: nat :| depth + 2 <= d <= high && AtDistance(edges, id, target, d);
    if edges[id] == parent {
      DistanceIsUnique(edges, parent, target, d - 1, depth);
    }
  }

  lemma LaterLevelsHaveNone(edges: Edges, target: Id, parent: Id, depth: nat, high: nat, rest: seq<Id>)
    requires AtDistance(edges, parent, target, depth)
    requires forall id :: id in rest ==> Within(edges, id, target, depth + 2, high)
    ensures ChildrenIn(edges, parent, rest) == []
  {
    forall id | id in rest ensures id in edges && edges[id] != parent {
      FartherHasOtherParent(edges, target, id, parent, depth, high);
    }
    ChildrenInNone(edges, parent, rest);
  }

  lemma {:induction false} LaterSearchHasNone(edges: Edges, target: Id, next: seq<Id>, seen: set<Id>, depth: nat, hops: nat, parent: Id)
    requires target in seen && AllAt(edges, next, target, depth + 1)
    requires AtDistance(edges, parent, target, depth)
    ensures ChildrenIn(edges, parent, Search(edges, next, seen, hops)) == []
  {
    var rest := Search(edges, next, seen, hops);
    forall id | id in rest ensures Within(edges, id, target, depth + 2, depth + 1 + hops) {
      SearchIsNear(edges, target, next, seen, depth + 1, hops, id);
    }
    LaterLevelsHaveNone(edges, target, parent, depth, depth + 1 + hops, rest);
  }

  lemma {:induction false} OnlyOneLevelHasChildren(edges: Edges, target: Id, frontier: seq<Id>, seen: set<Id>, next: seq<Id>, later: set<Id>,
                                                   depth: nat, hops: nat, parent: Id)
    requires next == Level(edges, frontier, seen)
    requires target in later && AllAt(edges, frontier, target, depth) && AllAt(edges, next, target, depth + 1)
    ensures ChildrenIn(edges, parent, next) == [] || ChildrenIn(edges, parent, Search(edges, next, later, hops)) == []
  {
    if parent in frontier {
      LaterSearchHasNone(edges, target, next, later, depth, hops, parent);
    } else {
      LevelHasNoOther(edges, frontier, seen, parent);
    }
  }

  lemma {:induction false} SearchIsCapped(edges: Edges, target: Id, frontier: seq<Id>, seen: set<Id>, depth: nat, hops: nat, parent: Id)
    requires target in seen && AllAt(edges, frontier, target, depth) && Distinct(frontier)
    ensures |ChildrenIn(edges, parent, Search(edges, frontier, seen, hops))| <= MAX_REVERSE_DEPENDENT_FAN_OUT
    decreases hops
  {
    if hops > 0 && frontier != [] {
      var next := Level(edges, frontier, seen);
      var later := seen + Elements(next);
      var behind := Search(edges, next, later, hops - 1);
      assert Search(edges, frontier, seen, hops) == next + behind;
      LevelIsDistinct(edges, frontier, seen);
      LevelIsFarther(edges, target, frontier, seen, depth);
      assert |ChildrenIn(edges, parent, next)| <= MAX_REVERSE_DEPENDENT_FAN_OUT by {
        LevelIsCapped(edges, frontier, seen, parent);
      }
      assert |ChildrenIn(edges, parent, behind)| <= MAX_REVERSE_DEPENDENT_FAN_OUT by {
        SearchIsCapped(edges, target, next, later, depth + 1, hops - 1, parent);
      }
      assert ChildrenIn(edges, parent, next) == [] || ChildrenIn(edges, parent, behind) == [] by {
        OnlyOneLevelHasChildren(edges, target, frontier, seen, next, later, depth, hops - 1, parent);
      }
      CappedConcat(edges, parent, next, behind);
    }
  }

  lemma LevelIsDistinct(edges: Edges, frontier: seq<Id>, seen: set<Id>)
    ensures Distinct(Level(edges, frontier, seen))
  {
    LevelIs(edges, frontier, seen);
  }

  /** Truncated or not, at most 256 children of any one parent are listed. */
  lemma DependentsAreCapped(edges: Edges, target: Id, maxHops: nat, parent: Id)
    ensures |ChildrenIn(edges, parent, Dependents(edges, target, maxHops))| <= MAX_REVERSE_DEPENDENT_FAN_OUT
  {
    assert AtDistance(edges, target, target, 0);
    SearchIsCapped(edges, target, [target], {target}, 0, maxHops, parent);
  }

  /** A search over a table in which no id has more than 256 incoming aliases is never cut short. */
  lemma FewIncomingNeverTruncates(edges: Edges, target: Id, maxHops: nat)
    requires forall node :: |Incoming(edges, node)| <= MAX_REVERSE_DEPENDENT_FAN_OUT
    ensures !Truncated(edges, target, maxHops)
  {
    SmallSearchUncut(edges, [target], {target}, maxHops);
  }

  lemma {:induction false} ShortListUncut(incoming: seq<Id>, seen: set<Id>, kept: nat)
    requires |incoming| + kept <= MAX_REVERSE_DEPENDENT_FAN_OUT
    ensures !CutShort(incoming, seen, kept)
  {
    if incoming != [] {
      ShortListUncut(incoming[1..], seen, kept);
      ShortListUncut(incoming[1..], seen + {incoming[0]}, kept + 1);
    }
  }

  lemma {:induction false} SortedSize(ids: set<Id>)
    ensures |Sorted(ids)| == |ids|
  {
    if ids != {} {
      var least := Sorted(ids)[0];
      assert least in Sorted(ids);
      AscendingIsUnique(Sorted(ids), [least] + Sorted(ids - {least})) by {
        SortedHead(ids);
      }
      SortedSize(ids - {least});
    }
  }

  lemma SortedHead(ids: set<Id>)
    requires ids != {}
    ensures Sorted(ids) == [Sorted(ids)[0]] + Sorted(ids - {Sorted(ids)[0]})
  {}

  lemma {:induction false} SmallLevelUncut(edges: Edges, frontier: seq<Id>, seen: set<Id>)
    requires forall node :: |Incoming(edges, node)| <= MAX_REVERSE_DEPENDENT_FAN_OUT
    ensures !LevelCutShort(edges, frontier, seen)
  {
    if frontier != [] {
      SortedSize(Incoming(edges, frontier[0]));
      ShortListUncut(Sorted(Incoming(edges, frontier[0])), seen, 0);
      SmallLevelUncut(edges, frontier[1..], seen + Elements(Children(edges, frontier[0], seen)));
    }
  }

  lemma {:induction false} SmallSearchUncut(edges: Edges, frontier: seq<Id>, seen: set<Id>, hops: nat)
    requires forall node :: |Incoming(edges, node)| <= MAX_REVERSE_DEPENDENT_FAN_OUT
    ensures !SearchCutShort(edges, frontier, seen, hops)
    decreases hops
  {
    if hops > 0 && frontier != [] {
      var next := Level(edges, frontier, seen);
      SmallLevelUncut(edges, frontier, seen);
      SmallSearchUncut(edges, next, seen + Elements(next), hops - 1);
    }
  }
}
