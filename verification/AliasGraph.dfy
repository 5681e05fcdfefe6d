/**
 * The forward half of alias resolution: following one-hop alias edges to a terminal id,
 * with cycle detection and a bound on the number of hops.
 */
module AliasGraph {
  import opened Options
  import opened IdOrder

  /** The alias table: each alias id has at most one outgoing edge, to its target id. */
  type Edges = map<Id, Id>

  const DEFAULT_MAX_HOPS: nat := 8

  datatype Reason = Cycle | MaxHops

  datatype WalkResult = Resolved(terminal: Id) | Failed(reason: Reason, chain: seq<Id>)

  /** The two alias tables agree on the edge out of every id but `x`. */
  ghost predicate DifferOnlyAt(before: Edges, after: Edges, x: Id) {
    forall id :: id != x ==> (id in before <==> id in after) && (id in before ==> before[id] == after[id])
  }

  /** The edges a walk follows: a stored empty target counts as no alias at all. */
  function Live(edges: Edges): Edges {
    map id | id in edges && edges[id] != "" :: edges[id]
  }

  // ---------------------------------------------------------------------------------------
  // Paths. Every id has at most one successor, so a start and a length fix the end.
  // ---------------------------------------------------------------------------------------

  /** The id reached from `start` by following exactly `hops` edges, if there are that many. */
  ghost function Hop(edges: Edges, start: Id, hops: nat): Option<Id>
    decreases hops
  {
    if hops == 0 then Some(start)
    else if start in edges then Hop(edges, edges[start], hops - 1)
    else None
  }

  /** `goal` is first reached from `start` after exactly `distance` hops. */
  ghost predicate AtDistance(edges: Edges, start: Id, goal: Id, distance: nat)
    decreases distance
  {
    if distance == 0 then start == goal
    else start != goal && start in edges && AtDistance(edges, edges[start], goal, distance - 1)
  }

  lemma {:induction false} HopAppend(edges: Edges, start: Id, a: nat, b: nat)
    requires Hop(edges, start, a).Some?
    ensures Hop(edges, start, a + b) == Hop(edges, Hop(edges, start, a).value, b)
    decreases a
  {
    if a > 0 {
      HopAppend(edges, edges[start], a - 1, b);
    }
  }

  lemma {:induction false} HopPrefix(edges: Edges, start: Id, a: nat, b: nat)
    requires a <= b && Hop(edges, start, b).Some?
    ensures Hop(edges, start, a).Some?
    decreases a
  {
    if a > 0 {
      HopPrefix(edges, edges[start], a - 1, b - 1);
    }
  }

  lemma HopStep(edges: Edges, start: Id, n: nat)
    requires Hop(edges, start, n).Some?
    ensures Hop(edges, start, n + 1) ==
            var id := Hop(edges, start, n).value; if id in edges then Some(edges[id]) else None
  {
    HopAppend(edges, start, n, 1);
    assert Hop(edges, start, n + 1) == Hop(edges, Hop(edges, start, n).value, 1);
  }

  /** Distance is first arrival. */
  lemma {:induction false} DistanceIsFirstArrival(edges: Edges, start: Id, goal: Id, distance: nat)
    ensures AtDistance(edges, start, goal, distance) <==> FirstArrival(edges, start, goal, distance)
    decreases distance
  {
    if distance > 0 && start in edges {
      var next := edges[start];
      DistanceIsFirstArrival(edges, next, goal, distance - 1);
      assert Hop(edges, start, 0) == Some(start);
      if FirstArrival(edges, start, goal, distance) {
        forall j: nat | j < distance - 1 ensures Hop(edges, next, j) != Some(goal) {
          assert Hop(edges, start, j + 1) == Hop(edges, next, j);
        }
      }
      if start != goal && FirstArrival(edges, next, goal, distance - 1) {
        forall j: nat | 0 < j < distance ensures Hop(edges, start, j) != Some(goal) {
          assert Hop(edges, start, j) == Hop(edges, next, j - 1);
        }
      }
    } else if distance > 0 {
      assert Hop(edges, start, distance) == None;
    }
  }

  ghost predicate FirstArrival(edges: Edges, start: Id, goal: Id, distance: nat) {
    Hop(edges, start, distance) == Some(goal) && forall j: nat :: j < distance ==> Hop(edges, start, j) != Some(goal)
  }

  lemma DistanceIsUnique(edges: Edges, start: Id, goal: Id, d: nat, e: nat)
    requires AtDistance(edges, start, goal, d) && AtDistance(edges, start, goal, e)
    ensures d == e
  {
    DistanceIsFirstArrival(edges, start, goal, d);
    DistanceIsFirstArrival(edges, start, goal, e);
  }

  /** Whatever is reached at all is reached first at some distance no larger. */
  lemma {:induction false} ReachedHasDistance(edges: Edges, start: Id, goal: Id, hops: nat)
    requires Hop(edges, start, hops) == Some(goal)
    ensures exists d: nat :: d <= hops && AtDistance(edges, start, goal, d)
    decreases hops
  {
    if start == goal {
      assert AtDistance(edges, start, goal, 0);
    } else {
      ReachedHasDistance(edges, edges[start], goal, hops - 1);
      var d: nat :| d <= hops - 1 && AtDistance(edges, edges[start], goal, d);
      assert AtDistance(edges, start, goal, d + 1);
    }
  }

  lemma {:induction false} LiveHopIsHop(edges: Edges, start: Id, hops: nat)
    requires Hop(Live(edges), start, hops).Some?
    ensures Hop(edges, start, hops) == Hop(Live(edges), start, hops)
    decreases hops
  {
    if hops > 0 {
      LiveHopIsHop(edges, edges[start], hops - 1);
    }
  }

  /** Followed paths do not come to the empty id. */
  lemma {:induction false} NeverAtEmpty(edges: Edges, start: Id, hops: nat)
    requires start != ""
    ensures Hop(Live(edges), start, hops) != Some("")
    decreases hops
  {
    if hops > 0 && start in Live(edges) {
      NeverAtEmpty(edges, edges[start], hops - 1);
    }
  }

  /** The stored path of that length comes to the empty id after its start. */
  ghost predicate MeetsEmpty(edges: Edges, start: Id, hops: nat) {
    exists j: nat :: 1 <= j <= hops && Hop(edges, start, j) == Some("")
  }

  /** A stored path is a followed path exactly when it does not come to the empty id. */
  lemma {:induction false} HopIsLiveHopIff(edges: Edges, start: Id, hops: nat)
    requires Hop(edges, start, hops).Some?
    ensures Hop(Live(edges), start, hops) == Hop(edges, start, hops) <==> !MeetsEmpty(edges, start, hops)
    decreases hops
  {
    if hops > 0 {
      var next := edges[start];
      HopIsLiveHopIff(edges, next, hops - 1);
      assert Hop(edges, start, 1) == Hop(edges, next, 0) == Some(next);
      if MeetsEmpty(edges, next, hops - 1) {
        var j: nat :| 1 <= j <= hops - 1 && Hop(edges, next, j) == Some("");
        assert Hop(edges, start, j + 1) == Some("");
      }
      if MeetsEmpty(edges, start, hops) {
        var j: nat :| 1 <= j <= hops && Hop(edges, start, j) == Some("");
        assert Hop(edges, next, j - 1) == Some("");
      }
    }
  }

  // ---------------------------------------------------------------------------------------
  // The walk
  // ---------------------------------------------------------------------------------------

  /** The rest of a walk that has visited `chain` and may still take `hops` hops. */
  function WalkFrom(edges: Edges, chain: seq<Id>, hops: nat): WalkResult
    requires chain != []
    decreases hops
  {
    var current := chain[|chain| - 1];
    if hops == 0 then Failed(MaxHops, chain)
    else if current !in edges || edges[current] == "" then Resolved(current)
    else if edges[current] in chain then Failed(Cycle, chain + [edges[current]])
    else WalkFrom(edges, chain + [edges[current]], hops - 1)
  }

  function Walk(edges: Edges, id: Id, maxHops: nat): WalkResult {
    if id == "" then Resolved(id) else WalkFrom(edges, [id], maxHops)
  }

  /** `chain` is the path from `start`, with no id repeated. */
  ghost predicate IsSimplePath(edges: Edges, start: Id, chain: seq<Id>) {
    && chain != []
    && (forall i :: 0 <= i < |chain| ==> Hop(edges, start, i) == Some(chain[i]))
    && (forall i, j :: 0 <= i < j < |chain| ==> chain[i] != chain[j])
  }

  /** The walk ends at a terminal id within fewer than `maxHops` hops. */
  ghost predicate EndsAt(edges: Edges, start: Id, maxHops: nat, terminal: Id) {
    terminal !in edges && exists d: nat :: d < maxHops && Hop(edges, start, d) == Some(terminal)
  }

  /** The first `hops` hops exist and come back to an id already visited. */
  ghost predicate Repeats(edges: Edges, start: Id, hops: nat) {
    exists i: nat, j: nat :: i < j <= hops && Hop(edges, start, j).Some? && Hop(edges, start, i) == Hop(edges, start, j)
  }

  /** All of the first `maxHops` hops exist, and lead to pairwise different ids. */
  ghost predicate RunsOut(edges: Edges, start: Id, maxHops: nat) {
    Hop(edges, start, maxHops).Some? && !Repeats(edges, start, maxHops)
  }

  /** Nothing that has ended comes back: before a terminal id no id repeats. */
  lemma NoRepeatBeforeTerminal(edges: Edges, start: Id, d: nat, terminal: Id, hops: nat)
    requires Hop(edges, start, d) == Some(terminal) && terminal !in edges
    ensures !Repeats(edges, start, hops)
    ensures Hop(edges, start, d + 1) == None
  {
    HopStep(edges, start, d);
    if Repeats(edges, start, hops) {
      var i: nat, j: nat :| i < j <= hops && Hop(edges, start, j).Some? && Hop(edges, start, i) == Hop(edges, start, j);
      if j > d {
        HopPrefix(edges, start, d + 1, j);
      } else {
        HopAppend(edges, start, i, d - j);
        HopAppend(edges, start, j, d - j);
        HopStep(edges, start, i + (d - j));
        HopPrefix(edges, start, i + (d - j) + 1, d);
      }
    }
  }

  /** The three outcomes exclude each other. */
  lemma OutcomesExclude(edges: Edges, start: Id, maxHops: nat, t: Id, u: Id)
    requires EndsAt(edges, start, maxHops, t)
    ensures !Repeats(edges, start, maxHops) && !RunsOut(edges, start, maxHops)
    ensures EndsAt(edges, start, maxHops, u) ==> t == u
  {
    var d: nat :| d < maxHops && Hop(edges, start, d) == Some(t);
    NoRepeatBeforeTerminal(edges, start, d, t, maxHops);
    if Hop(edges, start, maxHops).Some? {
      HopPrefix(edges, start, d + 1, maxHops);
    }
    if EndsAt(edges, start, maxHops, u) {
      var e: nat :| e < maxHops && Hop(edges, start, e) == Some(u);
      NoRepeatBeforeTerminal(edges, start, e, u, maxHops);
      if d < e { HopPrefix(edges, start, d + 1, e); }
      if e < d { HopPrefix(edges, start, e + 1, d); }
    }
  }

  /** `visited` is a simple path whose last step comes back to an id already on it. */
  ghost predicate ClosesCycle(edges: Edges, start: Id, visited: seq<Id>) {
    && |visited| >= 2
    && IsSimplePath(edges, start, visited[..|visited| - 1])
    && visited[|visited| - 1] in visited[..|visited| - 1]
    && Hop(edges, start, |visited| - 1) == Some(visited[|visited| - 1])
  }

  ghost predicate Means(edges: Edges, start: Id, maxHops: nat, result: WalkResult) {
    match result
    case Resolved(t) => EndsAt(edges, start, maxHops, t)
    case Failed(Cycle, visited) => ClosesCycle(edges, start, visited) && |visited| - 1 <= maxHops
    case Failed(MaxHops, visited) => IsSimplePath(edges, start, visited) && |visited| == maxHops + 1
  }

  lemma PathExtends(edges: Edges, start: Id, chain: seq<Id>)
    requires IsSimplePath(edges, start, chain)
    requires var current := chain[|chain| - 1]; current in edges
    ensures var next := edges[chain[|chain| - 1]];
            if next in chain then ClosesCycle(edges, start, chain + [next]) else IsSimplePath(edges, start, chain + [next])
  {
    var next := edges[chain[|chain| - 1]];
    assert Hop(edges, start, |chain| - 1) == Some(chain[|chain| - 1]);
    HopStep(edges, start, |chain| - 1);
    assert (chain + [next])[..|chain|] == chain;
  }

  /** One direction of the classification: each outcome of the walk means what it says. */
  lemma {:induction false} WalkFromMeans(edges: Edges, start: Id, chain: seq<Id>, hops: nat)
    requires IsSimplePath(Live(edges), start, chain)
    ensures Means(Live(edges), start, |chain| - 1 + hops, WalkFrom(edges, chain, hops))
    decreases hops
  {
    var current := chain[|chain| - 1];
    if hops > 0 {
      if current in Live(edges) {
        PathExtends(Live(edges), start, chain);
        if edges[current] !in chain {
          WalkFromMeans(edges, start, chain + [edges[current]], hops - 1);
        }
      } else {
        assert Hop(Live(edges), start, |chain| - 1) == Some(current);
      }
    }
  }

  /**
   * What a walk returns. It resolves to `t` exactly when `t` is a terminal id fewer than
   * `maxHops` hops away; it fails with `cycle` exactly when some id is met twice within
   * `maxHops` hops; otherwise it fails with `max_hops`, and then it has taken all `maxHops` hops.
   */
  lemma WalkClassified(edges: Edges, id: Id, maxHops: nat)
    requires id != ""
    ensures forall t :: Walk(edges, id, maxHops) == Resolved(t) <==> EndsAt(Live(edges), id, maxHops, t)
    ensures (Walk(edges, id, maxHops).Failed? && Walk(edges, id, maxHops).reason == Cycle)
            <==> Repeats(Live(edges), id, maxHops)
    ensures (Walk(edges, id, maxHops).Failed? && Walk(edges, id, maxHops).reason == MaxHops)
            <==> RunsOut(Live(edges), id, maxHops)
  {
    WalkFromMeans(edges, id, [id], maxHops);
    match Walk(edges, id, maxHops) {
      case Resolved(t) =>
        OutcomesExclude(Live(edges), id, maxHops, t, t);
      case Failed(Cycle, visited) =>
      case Failed(MaxHops, visited) =>
    }
    forall t | EndsAt(Live(edges), id, maxHops, t) ensures Walk(edges, id, maxHops) == Resolved(t) {
      forall u { OutcomesExclude(Live(edges), id, maxHops, t, u); }
    }
  }

  /** The chain a failed walk reports is the path it took, up to the first repeated id. */
  lemma FailedWalkReportsItsPath(edges: Edges, id: Id, maxHops: nat)
    requires id != "" && Walk(edges, id, maxHops).Failed?
    ensures var chain := Walk(edges, id, maxHops).chain;
            && chain != []
            && (forall i :: 0 <= i < |chain| ==> Hop(Live(edges), id, i) == Some(chain[i]))
            && (forall i, j :: 0 <= i < j < |chain| - 1 ==> chain[i] != chain[j])
            && (Walk(edges, id, maxHops).reason == MaxHops ==> |chain| == maxHops + 1)
            && (Walk(edges, id, maxHops).reason == Cycle ==> chain[|chain| - 1] in chain[..|chain| - 1])
  {
    WalkFromMeans(edges, id, [id], maxHops);
    var chain := Walk(edges, id, maxHops).chain;
    if Walk(edges, id, maxHops).reason == Cycle {
      forall i | 0 <= i < |chain| - 1 ensures Hop(Live(edges), id, i) == Some(chain[i]) {
        assert chain[i] == chain[..|chain| - 1][i];
      }
      forall i, j | 0 <= i < j < |chain| - 1 ensures chain[i] != chain[j] {
        assert chain[i] == chain[..|chain| - 1][i] && chain[j] == chain[..|chain| - 1][j];
      }
    }
  }

  /** A straight chain of exactly `maxHops` edges already fails: the terminal is never asked for. */
  lemma ExactlyMaxHopsFails(edges: Edges, id: Id, maxHops: nat, terminal: Id)
    requires id != "" && Hop(Live(edges), id, maxHops) == Some(terminal) && terminal !in Live(edges)
    ensures Walk(edges, id, maxHops).Failed? && Walk(edges, id, maxHops).reason == MaxHops
    ensures Walk(edges, id, maxHops + 1) == Resolved(terminal)
  {
    NoRepeatBeforeTerminal(Live(edges), id, maxHops, terminal, maxHops);
    WalkClassified(edges, id, maxHops);
    assert EndsAt(Live(edges), id, maxHops + 1, terminal);
    WalkClassified(edges, id, maxHops + 1);
  }

  /**
   * A walk reads only the edges out of the ids it passes in its first `maxHops` hops: if `x` is
   * not among those, changing the edge out of `x` does not change the outcome.
   */
  lemma {:induction false} WalkIgnoresUnvisited(before: Edges, after: Edges, x: Id, start: Id, chain: seq<Id>, hops: nat)
    requires DifferOnlyAt(before, after, x) && IsSimplePath(Live(before), start, chain)
    requires forall j: nat :: |chain| - 1 <= j < |chain| - 1 + hops ==> Hop(Live(before), start, j) != Some(x)
    ensures WalkFrom(before, chain, hops) == WalkFrom(after, chain, hops)
    decreases hops
  {
    var n := |chain| - 1;
    var current := chain[n];
    assert Hop(Live(before), start, n) == Some(current);
    if hops > 0 {
      assert current != x;
      if current in Live(before) && before[current] !in chain {
        HopStep(Live(before), start, n);
        WalkIgnoresUnvisited(before, after, x, start, chain + [before[current]], hops - 1);
      }
    }
  }
}
