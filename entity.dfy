/** Pawns and their jobs (colony-mvp/src/entity.js and the job records of
    colony-mvp/src/ai.js). A pawn is a value here: the simulation keeps the
    pawns in sequences of the game and writes back the updated value. */
module Entity {
  import opened Constants
  import opened Utils

  datatype Inventory = Inventory(wood: real, food: real)

  /** Needs run from 0 (desperate) to 100 (content); `breakdownUntil` is the
      simulated minute a mental break lasts until. */
  datatype Needs = Needs(hunger: real, rest: real, mood: real, breakdownUntil: real)

  /** What a pawn is doing. A Move job walks `path` and `pathIndex` is the
      next cell to enter; `repathCooldown` counts down to the next re-plan
      of a chasing pawn. Attack and Hunt name their target by entity id:
      raiders for Attack, animals for Hunt. */
  datatype Job =
    | Idle
    | Move(path: seq<Point>, pathIndex: nat, repathCooldown: real)
    | Gather(target: Point)
    | Build(target: Point, tile: Byte, cost: Cost)
    | Attack(entity: nat)
    | Hunt(entity: nat)
    | Rest
    | Breakdown

  /** A colonist, raider or animal. Timers and progress counters that the
      source creates on first use start at 0 here, which every test on them
      treats the same way. */
  datatype Pawn = Pawn(
    id: nat,
    faction: Faction,
    pos: Point,
    hp: real,
    speed: real,
    inventory: Inventory,
    needs: Needs,
    job: Job,
    moveProgress: real,
    buildProgress: real,
    wanderTimer: real,
    wanderCooldown: real)

  /** A pawn as the Pawn constructor leaves it. */
  function NewPawn(id: nat, faction: Faction, pos: Point): (p: Pawn)
    ensures p.id == id && p.pos == pos && p.job == Idle && p.hp == MAX_HP
  {
    Pawn(id, faction, pos, MAX_HP, DEFAULT_SPEED, Inventory(0.0, 0.0),
         Needs(100.0, 100.0, 60.0, 0.0), Idle, 0.0, 0.0, 0.0, 0.0)
  }

  /** A raider as spawnRaiders makes it: a fresh pawn of the raider faction
      moving at the raider speed. */
  function NewRaider(id: nat, pos: Point): (p: Pawn)
    ensures p.faction == Raider && p.speed == RAIDER_SPEED && p.hp > 0.0
  {
    NewPawn(id, Raider, pos).(speed := RAIDER_SPEED)
  }

  predicate Alive(p: Pawn)
  {
    p.hp > 0.0
  }

  /** The index of the first pawn carrying id `id`. */
  function FindById(ps: seq<Pawn>, id: nat): (r: Option<nat>)
    ensures r.Some? ==> r.value < |ps| && ps[r.value].id == id
                        && forall k :: 0 <= k < r.value ==> ps[k].id != id
    ensures r.None? ==> forall k :: 0 <= k < |ps| ==> ps[k].id != id
  {
    if |ps| == 0 then None
    else if ps[0].id == id then Some(0)
    else match FindById(ps[1..], id)
      case None => None
      case Some(k) => Some(k + 1)
  }

  /** The side of the map a raid comes from. */
  datatype Edge = Left | Right | Top | Bottom

  /** The cell on side `edge` where a raider appears, the draw `r` picking
      the cell along that side. */
  function EdgeSpot(edge: Edge, r: real): (q: Point)
    ensures IsDraw(r) ==> InBounds(q.x, q.y)
    ensures match edge
      case Left => q.x == 0
      case Right => q.x == MAP_WIDTH - 1
      case Top => q.y == 0
      case Bottom => q.y == MAP_HEIGHT - 1
  {
    match edge
    case Left => Point(0, RandInt(0, MAP_HEIGHT - 1, r))
    case Right => Point(MAP_WIDTH - 1, RandInt(0, MAP_HEIGHT - 1, r))
    case Top => Point(RandInt(0, MAP_WIDTH - 1, r), 0)
    case Bottom => Point(RandInt(0, MAP_WIDTH - 1, r), MAP_HEIGHT - 1)
  }

  /** The raiders of one raid: `num` fresh raiders with consecutive ids from
      `firstId`, the k-th placed on side `edge` by the draw `along(k)`. */
  function Raiders(num: nat, edge: Edge, along: nat -> real, firstId: nat): (rs: seq<Pawn>)
    ensures |rs| == num
  {
    seq(num, k requires 0 <= k < num => NewRaider(firstId + k, EdgeSpot(edge, along(k))))
  }

  /** spawnRaiders: builds the raiders of one raid one by one. */
  method SpawnRaiders(num: nat, edge: Edge, along: nat -> real, firstId: nat) returns (rs: seq<Pawn>)
    ensures rs == Raiders(num, edge, along, firstId)
  {
    rs := [];
    for i := 0 to num
      invariant rs == Raiders(i, edge, along, firstId)
    {
      rs := rs + [NewRaider(firstId + i, EdgeSpot(edge, along(i)))];
    }
  }

  /** Every raider of a raid is a living, hostile pawn standing on the map
      on the side the raid comes from, and their ids are distinct and at
      least `firstId`. */
  lemma RaidersOnEdge(num: nat, edge: Edge, along: nat -> real, firstId: nat)
    requires forall k: nat :: IsDraw(along(k))
    ensures var rs := Raiders(num, edge, along, firstId);
      forall k :: 0 <= k < num ==>
        && Alive(rs[k]) && rs[k].faction == Raider && rs[k].job == Idle
        && InBounds(rs[k].pos.x, rs[k].pos.y)
        && (edge == Left ==> rs[k].pos.x == 0) && (edge == Right ==> rs[k].pos.x == MAP_WIDTH - 1)
        && (edge == Top ==> rs[k].pos.y == 0) && (edge == Bottom ==> rs[k].pos.y == MAP_HEIGHT - 1)
        && rs[k].id >= firstId
    ensures var rs := Raiders(num, edge, along, firstId);
      forall j, k :: 0 <= j < k < num ==> rs[j].id < rs[k].id
  {
  }
}
