/**
 * Sorting and fan-out cap work per parent. Whole levels of the search need not be ascending, and may
 * be longer than the cap: when they are ascending, and tables for either.
 */
module PerParent {
  import opened Collections
  import opened IdOrder
  import opened AliasGraph
  import opened ReverseDependents

  /** Of the listed ids, the children of earlier parents are below the children of later ones. */
  ghost predicate EarlierBelow(edges: Edges, parents: seq<Id>, out: seq<Id>) {
    forall a, b :: a in out && b in out ==> PairBelow(edges, parents, a, b)
  }

  ghost predicate PairBelow(edges: Edges, parents: seq<Id>, a: Id, b: Id) {
    forall i, j :: 0 <= i < j < |parents| && a in edges && b in edges && edges[a] == parents[i] && edges[b] == parents[j]
      ==> Below(a, b)
  }

  /** A level is ascending exactly when all children of an earlier parent are below those of a later one. */
  lemma LevelIsAscendingIff(edges: Edges, frontier: seq<Id>, seen: set<Id>)
    requires Distinct(frontier)
    ensures Ascending(Level(edges, frontier, seen)) <==> EarlierBelow(edges, frontier, Level(edges, frontier, seen))
  {
    var out := Level(edges, frontier, seen);
    LevelIsParentOrdered(edges, frontier, seen);
    if Ascending(out) {
      forall a, b | a in out && b in out ensures PairBelow(edges, frontier, a, b) {
        AscendingPair(edges, frontier, out, a, b);
      }
    }
    if EarlierBelow(edges, frontier, out) {
      forall x, y | 0 <= x < y < |out| ensures Below(out[x], out[y]) {
        assert out[x] in out && out[y] in out && InOrder(edges, frontier, out[x], out[y]);
        assert PairBelow(edges, frontier, out[x], out[y]);
      }
    }
  }

  lemma AscendingPair(edges: Edges, parents: seq<Id>, out: seq<Id>, a: Id, b: Id)
    requires Distinct(parents) && ParentOrdered(edges, parents, out) && Ascending(out) && a in out && b in out
    ensures PairBelow(edges, parents, a, b)
  {
    var x :| 0 <= x < |out| && out[x] == a;
    var y :| 0 <= y < |out| && out[y] == b;
    if y < x {
      assert InOrder(edges, parents, b, a);
    }
  }

  // ---------------------------------------------------------------------------------------
  // Two aliases of one target
  // ---------------------------------------------------------------------------------------

  /** If the aliases of `t` are `a` and `b`, these are the first level of the search from `t`. */
  lemma FirstLevelIs(edges: Edges, t: Id, a: Id, b: Id)
    requires Incoming(edges, t) == {a, b} && Below(a, b) && t != a && t != b
    ensures Level(edges, [t], {t}) == [a, b]
  {
    var children, sources := Children(edges, t, {t}), Sorted(Incoming(edges, t));
    SortedSize(Incoming(edges, t));
    ShortListUncut(sources, {t}, 0);
    KeepSelects(sources, {t}, 0);
    assert Ascending([a, b]);
    AscendingIsUnique(children, [a, b]);
    assert [t][1..] == [];
    assert Level(edges, [t], {t}) == children + [];
  }

  /** In a level that is not cut short, every unseen alias of `a` or `b` is listed. */
  lemma SecondLevelLists(edges: Edges, a: Id, b: Id, seen: set<Id>, id: Id)
    requires !LevelCutShort(edges, [a, b], seen)
    requires id in edges && (edges[id] == a || edges[id] == b) && id !in seen
    ensures id in Level(edges, [a, b], seen)
  {
    assert [a, b][0] == a && [a, b][1] == b;
    LevelIs(edges, [a, b], seen);
  }

  // ---- A level that is not ascending ----------------------------------------------------

  /** The aliases z of a, y of b, and a and b of t. */
  function Crossed(t: Id, a: Id, b: Id, y: Id, z: Id): Edges {
    map[a := t, b := t, z := a, y := b]
  }

  /** The second level lists `z`, child of `a`, and `y`, child of `b`, but `y` is below `z`. */
  lemma SecondLevelIsNotAscending(t: Id, a: Id, b: Id, y: Id, z: Id)
    requires t !in {a, b, y, z} && {a, b} !! {y, z} && Below(a, b) && Below(y, z)
    ensures Level(Crossed(t, a, b, y, z), [t], {t}) == [a, b]
    ensures !Ascending(Level(Crossed(t, a, b, y, z), [a, b], {t, a, b}))
  {
    var edges, frontier := Crossed(t, a, b, y, z), [a, b];
    BelowIsAsymmetric(a, b);
    BelowIsAsymmetric(y, z);
    assert Incoming(edges, t) == {a, b};
    FirstLevelIs(edges, t, a, b);
    FewIncoming(edges, {a, b, y, z});
    SmallLevelUncut(edges, frontier, {t, a, b});
    SecondLevelLists(edges, a, b, {t, a, b}, y);
    SecondLevelLists(edges, a, b, {t, a, b}, z);
    LevelIsAscendingIff(edges, frontier, {t, a, b});
    assert edges[z] == frontier[0] && edges[y] == frontier[1];
    assert !PairBelow(edges, frontier, z, y);
  }

  /** No id has more incoming aliases than there are aliases. */
  lemma FewIncoming(edges: Edges, ids: set<Id>)
    requires edges.Keys <= ids && |ids| <= MAX_REVERSE_DEPENDENT_FAN_OUT
    ensures forall node :: |Incoming(edges, node)| <= MAX_REVERSE_DEPENDENT_FAN_OUT
  {
    forall node ensures |Incoming(edges, node)| <= MAX_REVERSE_DEPENDENT_FAN_OUT {
      SubsetSize(Incoming(edges, node), ids);
    }
  }

  // ---- A level longer than the cap ------------------------------------------------------

  /** The aliases a and b of t, one alias of a, and the other ids aliases of b. */
  function Wide(t: Id, a: Id, b: Id, one: Id, others: set<Id>): Edges {
    (map id | id in others :: b)[one := a][a := t][b := t]
  }

  /** With as many aliases of b as the cap allows nothing is cut short, yet the level exceeds the cap. */
  lemma LevelExceedsTheCap(t: Id, a: Id, b: Id, one: Id, others: set<Id>)
    requires t !in {a, b} && Below(a, b) && {t, a, b} !! {one} + others && one !in others
    requires |others| == MAX_REVERSE_DEPENDENT_FAN_OUT
    ensures Level(Wide(t, a, b, one, others), [t], {t}) == [a, b]
    ensures !LevelCutShort(Wide(t, a, b, one, others), [a, b], {t, a, b})
    ensures |Level(Wide(t, a, b, one, others), [a, b], {t, a, b})| > MAX_REVERSE_DEPENDENT_FAN_OUT
  {
    var edges := Wide(t, a, b, one, others);
    BelowIsAsymmetric(a, b);
    var level := Level(edges, [a, b], {t, a, b});
    assert Incoming(edges, t) == {a, b};
    FirstLevelIs(edges, t, a, b);
    WideUncut(t, a, b, one, others);
    forall id | id in {one} + others ensures id in level {
      SecondLevelLists(edges, a, b, {t, a, b}, id);
    }
    ListsAtLeast(level, {one} + others);
  }

  lemma ListsAtLeast(ids: seq<Id>, contents: set<Id>)
    requires forall id :: id in contents ==> id in ids
    ensures |ids| >= |contents|
  {
    SubsetSize(contents, Elements(ids));
    ElementsAreFew(ids);
  }

  lemma WideUncut(t: Id, a: Id, b: Id, one: Id, others: set<Id>)
    requires t !in {a, b} && a != b && {t, a, b} !! {one} + others && one !in others
    requires |others| == MAX_REVERSE_DEPENDENT_FAN_OUT
    ensures !LevelCutShort(Wide(t, a, b, one, others), [a, b], {t, a, b})
  {
    var edges := Wide(t, a, b, one, others);
    forall node ensures |Incoming(edges, node)| <= MAX_REVERSE_DEPENDENT_FAN_OUT {
      if node == b {
        SubsetSize(Incoming(edges, node), others);
      } else {
        SubsetSize(Incoming(edges, node), {one, a, b});
      }
    }
    SmallLevelUncut(edges, [a, b], {t, a, b});
  }
}
