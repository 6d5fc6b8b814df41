/** The world a Game object holds (the fields the constructor of
    colony-mvp/src/game.js sets up), the resource store keyed by tile, and
    the order queue fed by Game.enqueueOrder. */
module Colony {
  import opened Constants
  import opened Utils
  import opened Entity

  /** What is left of a tree or berry bush. */
  datatype ResourceNode = ResourceNode(kind: ResourceType, amount: real)

  /** A player order, as the input handler builds it. */
  datatype Order =
    | MoveOrder(at: Point)
    | GatherOrder(at: Point)
    | BuildOrder(at: Point, tile: Byte, cost: Cost)
    | AttackOrder(entity: nat)
    | HuntOrder(entity: nat)

  /** The resource map: entries in insertion order, one per tile. */
  type Resources = seq<(Point, ResourceNode)>

  ghost predicate UniqueKeys(rs: Resources)
  {
    forall i, j :: 0 <= i < j < |rs| ==> rs[i].0 != rs[j].0
  }

  /** Map.prototype.get: the node of the (first) entry with that key. */
  function Lookup(rs: Resources, at: Point): Option<ResourceNode>
  {
    if |rs| == 0 then None
    else if rs[0].0 == at then Some(rs[0].1)
    else Lookup(rs[1..], at)
  }

  /** A lookup finds a node exactly when an entry has the key, and then
      it finds that entry's node. */
  lemma {:induction false} LookupFinds(rs: Resources, at: Point)
    ensures Lookup(rs, at).Some? <==> exists k :: 0 <= k < |rs| && rs[k].0 == at
    ensures Lookup(rs, at).Some? ==> exists k :: 0 <= k < |rs| && rs[k] == (at, Lookup(rs, at).value)
  {
    if |rs| > 0 && rs[0].0 != at {
      LookupFinds(rs[1..], at);
      if exists k :: 0 <= k < |rs| && rs[k].0 == at {
        var k :| 0 <= k < |rs| && rs[k].0 == at;
        assert rs[1..][k - 1].0 == at;
      }
      if Lookup(rs, at).Some? {
        var k :| 0 <= k < |rs[1..]| && rs[1..][k] == (at, Lookup(rs, at).value);
        assert rs[k + 1] == rs[1..][k];
      }
    }
  }

  /** Map.prototype.delete. */
  function Remove(rs: Resources, at: Point): (r: Resources)
    ensures |r| <= |rs|
  {
    if |rs| == 0 then []
    else if rs[0].0 == at then Remove(rs[1..], at)
    else [rs[0]] + Remove(rs[1..], at)
  }

  /** Map.prototype.set on a key already present: the entry keeps its place. */
  function SetAmount(rs: Resources, at: Point, amount: real): (r: Resources)
    ensures |r| == |rs|
    ensures forall k :: 0 <= k < |rs| ==>
      r[k] == if rs[k].0 == at then (at, rs[k].1.(amount := amount)) else rs[k]
  {
    if |rs| == 0 then []
    else [if rs[0].0 == at then (at, rs[0].1.(amount := amount)) else rs[0]] + SetAmount(rs[1..], at, amount)
  }

  /** Deleting a key leaves it unmapped and every other key as it was. */
  lemma {:induction false} RemoveLookup(rs: Resources, at: Point, other: Point)
    ensures Lookup(Remove(rs, at), other) == if other == at then None else Lookup(rs, other)
  {
    if |rs| > 0 {
      RemoveLookup(rs[1..], at, other);
    }
  }

  /** Updating an amount changes the lookup of that key only. */
  lemma {:induction false} SetAmountLookup(rs: Resources, at: Point, amount: real, other: Point)
    ensures Lookup(SetAmount(rs, at, amount), other) ==
      if other == at && Lookup(rs, at).Some? then Some(Lookup(rs, at).value.(amount := amount))
      else Lookup(rs, other)
  {
    if |rs| > 0 {
      SetAmountLookup(rs[1..], at, amount, other);
      assert SetAmount(rs, at, amount)[1..] == SetAmount(rs[1..], at, amount);
    }
  }

  /** Deleting a key keeps exactly the entries with other keys. */
  lemma {:induction false} RemoveMembers(rs: Resources, at: Point)
    ensures forall e :: e in Remove(rs, at) <==> e in rs && e.0 != at
  {
    if |rs| > 0 {
      RemoveMembers(rs[1..], at);
      assert rs == [rs[0]] + rs[1..];
    }
  }

  /** The store keeps one entry per key through deletions and updates. */
  lemma {:induction false} RemoveKeepsUnique(rs: Resources, at: Point)
    requires UniqueKeys(rs)
    ensures UniqueKeys(Remove(rs, at))
  {
    if |rs| > 0 {
      RemoveKeepsUnique(rs[1..], at);
      RemoveMembers(rs[1..], at);
      if rs[0].0 != at {
        var tail := Remove(rs[1..], at);
        assert forall e :: e in tail ==> e.0 != rs[0].0 by {
          forall e | e in tail
            ensures e.0 != rs[0].0
          {
            var k :| 0 <= k < |rs[1..]| && rs[1..][k] == e;
            assert rs[k + 1] == e;
          }
        }
        assert forall j :: 0 < j < |[rs[0]] + tail| ==> ([rs[0]] + tail)[j] in tail by {
          forall j | 0 < j < |[rs[0]] + tail|
            ensures ([rs[0]] + tail)[j] in tail
          {
            assert ([rs[0]] + tail)[j] == tail[j - 1];
          }
        }
      }
    }
  }

  lemma SetAmountKeepsUnique(rs: Resources, at: Point, amount: real)
    requires UniqueKeys(rs)
    ensures UniqueKeys(SetAmount(rs, at, amount))
  {
  }

  /** Everything a Game object holds that the simulation reads or writes. */
  datatype State = State(
    tiles: seq<Byte>,
    resources: Resources,
    colonists: seq<Pawn>,
    raiders: seq<Pawn>,
    animals: seq<Pawn>,
    playerOrders: seq<Order>,
    stockpile: Inventory,
    selected: seq<nat>,
    timeMinutes: real,
    weather: Weather,
    nextEventInMinutes: real,
    beaconBuilt: bool,
    winTriggered: bool,
    lossTriggered: bool,
    nextEntityId: nat)

  class Game {
    /** The byte grid, written in place. */
    const tiles: array<Byte>
    var resources: Resources
    var colonists: seq<Pawn>
    var raiders: seq<Pawn>
    var animals: seq<Pawn>
    /** Orders waiting for an idle colonist, oldest first. */
    var playerOrders: seq<Order>
    var stockpile: Inventory
    /** Ids of the selected pawns. */
    var selected: seq<nat>
    /** Simulated minutes since the start. */
    var timeMinutes: real
    var weather: Weather
    /** Minutes until the event scheduler next fires. */
    var nextEventInMinutes: real
    var beaconBuilt: bool
    var winTriggered: bool
    var lossTriggered: bool
    /** The entity counter: the id the next spawned pawn gets. */
    var nextEntityId: nat

    ghost function Abs(): State
      reads this, tiles
    {
      State(tiles[..], resources, colonists, raiders, animals, playerOrders, stockpile, selected,
            timeMinutes, weather, nextEventInMinutes, beaconBuilt, winTriggered, lossTriggered, nextEntityId)
    }

    /** The grid covers the whole map and the resource map has one entry per tile. */
    ghost predicate Valid()
      reads this, tiles
    {
      tiles.Length == MAP_WIDTH * MAP_HEIGHT && UniqueKeys(resources)
    }

    /** A new game on a generated map with spawned colonists and animals:
        empty stockpile, no raiders, orders or selection, clock at zero,
        clear weather, nothing built or decided yet. */
    constructor (tiles: array<Byte>, resources: Resources, colonists: seq<Pawn>, animals: seq<Pawn>, nextEntityId: nat)
      requires tiles.Length == MAP_WIDTH * MAP_HEIGHT && UniqueKeys(resources)
      ensures Valid()
      ensures Abs() == State(old(tiles[..]), resources, colonists, [], animals, [], Inventory(0.0, 0.0), [],
                             0.0, Clear, 0.0, false, false, false, nextEntityId)
      ensures this.tiles == tiles
    {
      this.tiles := tiles;
      this.resources := resources;
      this.colonists := colonists;
      this.raiders := [];
      this.animals := animals;
      this.playerOrders := [];
      this.stockpile := Inventory(0.0, 0.0);
      this.selected := [];
      this.timeMinutes := 0.0;
      this.weather := Clear;
      this.nextEventInMinutes := 0.0;
      this.beaconBuilt := false;
      this.winTriggered := false;
      this.lossTriggered := false;
      this.nextEntityId := nextEntityId;
    }

    /** Fans an order out: one copy per selected pawn, queued behind the
        orders already waiting. */
    method EnqueueOrder(order: Order)
      requires Valid()
      modifies this
      ensures Valid()
      ensures |playerOrders| == |old(playerOrders)| + |selected|
      ensures playerOrders[..|old(playerOrders)|] == old(playerOrders)
      ensures forall k :: |old(playerOrders)| <= k < |playerOrders| ==> playerOrders[k] == order
      ensures Abs() == old(Abs()).(playerOrders := playerOrders)
    {
      for i := 0 to |selected|
        invariant |playerOrders| == |old(playerOrders)| + i
        invariant playerOrders[..|old(playerOrders)|] == old(playerOrders)
        invariant forall k :: |old(playerOrders)| <= k < |playerOrders| ==> playerOrders[k] == order
        invariant Abs() == old(Abs()).(playerOrders := playerOrders)
      {
        playerOrders := playerOrders + [order];
      }
    }
  }
}
