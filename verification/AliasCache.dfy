/**
 * A subscriber's view of a whole run: a worker caches what ids resolve to, and evicts what each
 * invalidation event names when the event arrives, at some later time and in any order. What it
 * serves is up to date, or an event that evicts it is still on its way.
 */
module AliasCache {
  import opened IdOrder
  import opened AliasGraph
  import opened ReverseDependents
  import opened AliasStore

  datatype Action =
    | Save(aliasId: Id, targetId: Id)
    | Delete(aliasId: Id)
    | Load(id: Id)
    | Deliver(position: nat)

  /** The alias table, the cache, and the ids named by each event still on its way. */
  datatype World = World(edges: Edges, cache: map<Id, WalkResult>, inFlight: seq<set<Id>>)

  function TableAfter(edges: Edges, action: Action): Edges {
    match action
    case Save(a, t) => edges[a := t]
    case Delete(a) => edges - {a}
    case Load(_) => edges
    case Deliver(_) => edges
  }

  /** The events of an action, each as the ids it names: source, new terminal, reverse dependents. */
  function Sent(edges: Edges, action: Action): seq<set<Id>> {
    match action
    case Save(a, t) =>
      var resolved := Walk(TableAfter(edges, action), t, DEFAULT_MAX_HOPS);
      if resolved.Resolved? then [{a, resolved.terminal} + Elements(Dependents(edges, a, DEFAULT_MAX_HOPS))] else []
    case Delete(a) => [{a} + Elements(Dependents(edges, a, DEFAULT_MAX_HOPS))]
    case Load(_) => []
    case Deliver(_) => []
  }

  function After(world: World, action: Action): World {
    var edges := TableAfter(world.edges, action);
    match action
    case Load(id) => world.(cache := world.cache[id := Walk(edges, id, DEFAULT_MAX_HOPS)])
    case Deliver(k) =>
      if k < |world.inFlight| then
        world.(cache := world.cache - world.inFlight[k], inFlight := world.inFlight[..k] + world.inFlight[k + 1..])
      else world
    case _ => world.(edges := edges, inFlight := world.inFlight + Sent(world.edges, action))
  }

  /** An action whose event goes out in full: the new target resolves and nothing was cut short. */
  predicate Announced(edges: Edges, action: Action) {
    match action
    case Save(a, t) =>
      && Walk(TableAfter(edges, action), t, DEFAULT_MAX_HOPS).Resolved?
      && !Truncated(edges, a, DEFAULT_MAX_HOPS)
    case Delete(a) => !Truncated(edges, a, DEFAULT_MAX_HOPS)
    case _ => true
  }

  ghost predicate OnItsWay(inFlight: seq<set<Id>>, id: Id) {
    exists k :: 0 <= k < |inFlight| && id in inFlight[k]
  }

  /** Each cached resolution is what the table says now, or an event that evicts it is on its way. */
  ghost predicate Fresh(world: World) {
    forall id :: id in world.cache ==>
      world.cache[id] == Walk(world.edges, id, DEFAULT_MAX_HOPS) || OnItsWay(world.inFlight, id)
  }

  lemma SendingKeepsFresh(world: World, action: Action, x: Id)
    requires Fresh(world) && (action.Save? || action.Delete?) && x == action.aliasId && Announced(world.edges, action)
    ensures Fresh(After(world, action))
  {
    var after := After(world, action);
    var n := |world.inFlight|;
    CoveredByDependents(world.edges, after.edges, x);
    forall id | id in after.cache
      ensures after.cache[id] == Walk(after.edges, id, DEFAULT_MAX_HOPS) || OnItsWay(after.inFlight, id)
    {
      if OnItsWay(world.inFlight, id) {
        var k :| 0 <= k < n && id in world.inFlight[k];
        assert id in after.inFlight[k];
      } else if Walk(world.edges, id, DEFAULT_MAX_HOPS) != Walk(after.edges, id, DEFAULT_MAX_HOPS) {
        assert id in after.inFlight[n];
      }
    }
  }

  lemma DeliveryKeepsFresh(world: World, k: nat)
    requires Fresh(world) && k < |world.inFlight|
    ensures Fresh(After(world, Deliver(k)))
  {
    var after := After(world, Deliver(k));
    forall id | id in after.cache
      ensures after.cache[id] == Walk(after.edges, id, DEFAULT_MAX_HOPS) || OnItsWay(after.inFlight, id)
    {
      if OnItsWay(world.inFlight, id) {
        var j :| 0 <= j < |world.inFlight| && id in world.inFlight[j];
        assert j != k;
        assert id in after.inFlight[if j < k then j else j - 1];
      }
    }
  }

  lemma ActionKeepsFresh(world: World, action: Action)
    requires Fresh(world) && Announced(world.edges, action)
    ensures Fresh(After(world, action))
  {
    match action
    case Save(a, _) => SendingKeepsFresh(world, action, a);
    case Delete(a) => SendingKeepsFresh(world, action, a);
    case Load(_) =>
    case Deliver(k) => if k < |world.inFlight| { DeliveryKeepsFresh(world, k); }
  }

  function Run(world: World, actions: seq<Action>): World
    decreases |actions|
  {
    if actions == [] then world else Run(After(world, actions[0]), actions[1..])
  }

  predicate AllAnnounced(world: World, actions: seq<Action>)
    decreases |actions|
  {
    if actions == [] then true
    else Announced(world.edges, actions[0]) && AllAnnounced(After(world, actions[0]), actions[1..])
  }

  /**
   * Over any run of saves, deletes, loads and deliveries whose events all go out in full, an
   * outdated resolution is in the cache only while an event that evicts it is on its way; once all
   * events have arrived, the whole cache is up to date.
   */
  lemma {:induction false} RunKeepsFresh(world: World, actions: seq<Action>)
    requires Fresh(world) && AllAnnounced(world, actions)
    ensures Fresh(Run(world, actions))
    ensures var end := Run(world, actions);
            end.inFlight == [] ==> forall id :: id in end.cache ==> end.cache[id] == Walk(end.edges, id, DEFAULT_MAX_HOPS)
    decreases |actions|
  {
    if actions != [] {
      ActionKeepsFresh(world, actions[0]);
      RunKeepsFresh(After(world, actions[0]), actions[1..]);
    }
  }

  /** Loading an id caches its present resolution and nothing else; no event is sent or lost. */
  lemma LoadIsCurrent(world: World, id: Id)
    ensures var after := After(world, Load(id));
            && after.edges == world.edges && after.inFlight == world.inFlight
            && after.cache.Keys == world.cache.Keys + {id} && after.cache[id] == Walk(world.edges, id, DEFAULT_MAX_HOPS)
            && forall other :: other in world.cache && other != id ==> after.cache[other] == world.cache[other]
  {
  }

  function DeliverAll(count: nat): seq<Action> {
    if count == 0 then [] else [Deliver(0)] + DeliverAll(count - 1)
  }

  lemma FirstDelivered(world: World)
    requires world.inFlight != []
    ensures var next := After(world, Deliver(0));
            && next.edges == world.edges && |next.inFlight| == |world.inFlight| - 1
            && (forall id :: id in next.cache <==> id in world.cache && id !in world.inFlight[0])
            && (forall id :: id in next.cache ==> next.cache[id] == world.cache[id])
            && (forall id :: OnItsWay(world.inFlight, id) <==> id in world.inFlight[0] || OnItsWay(next.inFlight, id))
  {
    forall id ensures OnItsWay(world.inFlight, id) <==> id in world.inFlight[0] || OnItsWay(After(world, Deliver(0)).inFlight, id) {
      FirstOrLater(world.inFlight, id);
    }
  }

  /** After all deliveries exactly the cached resolutions that no event named are left. */
  lemma {:induction false} DeliveriesDrain(world: World)
    ensures var end := Run(world, DeliverAll(|world.inFlight|));
            && end.inFlight == [] && end.edges == world.edges
            && (forall id :: id in end.cache <==> id in world.cache && !OnItsWay(world.inFlight, id))
            && (forall id :: id in end.cache ==> end.cache[id] == world.cache[id])
    decreases |world.inFlight|
  {
    if world.inFlight != [] {
      FirstDelivered(world);
      DeliveriesDrain(After(world, Deliver(0)));
      assert DeliverAll(|world.inFlight|)[1..] == DeliverAll(|world.inFlight| - 1);
    }
  }

  /**
   * Left alone, the cache settles: when all events on their way have arrived, it holds exactly the
   * resolutions that no event named, and each of them is up to date.
   */
  lemma CacheSettles(world: World)
    requires Fresh(world)
    ensures var end := Run(world, DeliverAll(|world.inFlight|));
            && end.inFlight == [] && end.edges == world.edges
            && (forall id :: id in end.cache <==> id in world.cache && !OnItsWay(world.inFlight, id))
            && (forall id :: id in end.cache ==> end.cache[id] == Walk(world.edges, id, DEFAULT_MAX_HOPS))
  {
    DeliveriesDrain(world);
  }

  lemma FirstOrLater(inFlight: seq<set<Id>>, id: Id)
    requires inFlight != []
    ensures OnItsWay(inFlight, id) <==> id in inFlight[0] || OnItsWay(inFlight[..0] + inFlight[1..], id)
  {
    var later := inFlight[..0] + inFlight[1..];
    assert forall k :: 0 <= k < |later| ==> later[k] == inFlight[k + 1];
    if OnItsWay(inFlight, id) && id !in inFlight[0] {
      var k :| 0 <= k < |inFlight| && id in inFlight[k];
      assert id in later[k - 1];
    }
    if OnItsWay(later, id) {
      var k :| 0 <= k < |later| && id in later[k];
      assert id in inFlight[k + 1];
    }
  }
}
