/** Agent behaviour: path following, resource search, melee, and the
    colonist, raider and animal decision rules (colony-mvp/src/ai.js).
    Every Math.random() call is a parameter drawn in [0, 1). */
module AI {
  import opened Constants
  import opened Utils
  import opened TileMap
  import opened Entity
  import opened PawnNeeds
  import opened Colony

  /** The random draws one pawn may use in one update: the two direction
      coins of a wander goal and the draw that sets the next wander timer. */
  datatype Draws = Draws(dirX: real, dirY: real, timer: real)

  predicate ValidDraws(d: Draws)
  {
    IsDraw(d.dirX) && IsDraw(d.dirY) && IsDraw(d.timer)
  }

  /** Math.max(lo, Math.min(hi, v)). */
  function Clamp(v: int, lo: int, hi: int): int
  {
    if v > hi then (if lo > hi then lo else hi) else if v < lo then lo else v
  }

  /** A wander goal `reach` tiles away on each axis, the direction of each
      set by a coin, clamped into the map. */
  function WanderTarget(pos: Point, reach: nat, d: Draws): (t: Point)
    ensures InBounds(t.x, t.y)
    ensures InBounds(pos.x, pos.y) ==> Abs(t.x - pos.x) <= reach && Abs(t.y - pos.y) <= reach
  {
    var step: int := reach;
    Point(Clamp(pos.x + (if d.dirX < 0.5 then -step else step), 0, MAP_WIDTH - 1),
          Clamp(pos.y + (if d.dirY < 0.5 then -step else step), 0, MAP_HEIGHT - 1))
  }

  // ---------------------------------------------------------------------------
  // Moving along a path

  /** The job still has a path cell to enter. */
  predicate HasNextStep(j: Job)
  {
    j.Move? && j.pathIndex < |j.path|
  }

  /** The pawn stands on the path cell before the one it will enter next. */
  predicate OnPath(p: Pawn)
  {
    p.job.Move? ==> 1 <= p.job.pathIndex <= |p.job.path| && p.pos == p.job.path[p.job.pathIndex - 1]
  }

  /** Consecutive cells of the path are neighbours. */
  predicate Connected(path: seq<Point>)
  {
    forall k :: 0 < k < |path| ==> Manhattan(path[k - 1], path[k]) == 1
  }

  /** One update of path following. Progress grows by speed * dt; once it
      reaches a whole tile the pawn enters the next cell, keeping the
      fraction left over. Reports whether no cell remains to be entered. */
  function StepAlongPath(p: Pawn, dt: real): (r: (bool, Pawn))
    ensures !HasNextStep(p.job) ==> r == (true, p)
    ensures r.0 <==> !HasNextStep(r.1.job)
    ensures r.1 == p.(pos := r.1.pos, job := r.1.job, moveProgress := r.1.moveProgress)
    ensures HasNextStep(p.job) ==>
      && r.1.job.Move?
      && r.1.job == p.job.(pathIndex := r.1.job.pathIndex)
      && (r.1.job.pathIndex == p.job.pathIndex + 1 <==> p.moveProgress + p.speed * dt >= 1.0)
      && (r.1.job.pathIndex == p.job.pathIndex || r.1.job.pathIndex == p.job.pathIndex + 1)
      && r.1.moveProgress + (r.1.job.pathIndex - p.job.pathIndex) as real == p.moveProgress + p.speed * dt
      && r.1.pos == if r.1.job.pathIndex == p.job.pathIndex then p.pos else p.job.path[p.job.pathIndex]
  {
    if !HasNextStep(p.job) then (true, p)
    else
      var progress := p.moveProgress + p.speed * dt;
      if progress >= 1.0 then
        var job := p.job.(pathIndex := p.job.pathIndex + 1);
        (job.pathIndex >= |job.path|, p.(pos := p.job.path[p.job.pathIndex], job := job, moveProgress := progress - 1.0))
      else
        (false, p.(moveProgress := progress))
  }

  /** A pawn on a connected path stays on it and moves at most one tile per update. */
  lemma StepStaysOnPath(p: Pawn, dt: real)
    requires OnPath(p) && (p.job.Move? ==> Connected(p.job.path))
    ensures OnPath(StepAlongPath(p, dt).1)
    ensures Manhattan(p.pos, StepAlongPath(p, dt).1.pos) <= 1
  {
  }

  /** `q` is `p` after a route to `goal` has been planned: when `p` is not
      already there and a route over walkable tiles exists, the job becomes
      a walk along a shortest such route, starting at the pawn's cell, with
      re-plan cooldown `cooldown`; otherwise `q` is `p`. */
  ghost predicate Rerouted(tiles: seq<Byte>, p: Pawn, goal: Point, cooldown: real, q: Pawn)
  {
    if p.pos != goal && Reachable(p.pos, goal, Walk(tiles)) then
      && q == p.(job := q.job)
      && q.job.Move? && q.job.pathIndex == 1 && q.job.repathCooldown == cooldown
      && IsShortestRoute(q.job.path, p.pos, goal, Walk(tiles))
    else q == p
  }

  /** assignMove's effect: the job is replaced by a planned walk to `goal`,
      or by Idle when there is nowhere to go. */
  ghost predicate Planned(tiles: seq<Byte>, p: Pawn, goal: Point, r: Pawn)
  {
    Rerouted(tiles, p.(job := Idle), goal, 0.0, r)
  }

  /** Plans a walk to `target` over the walkable tiles and replaces the job
      with it; when there is nowhere to go (already there, or no route) the
      job becomes Idle. The planned path starts at the pawn. */
  method AssignMove(tiles: seq<Byte>, p: Pawn, target: Point) returns (r: Pawn)
    ensures Planned(tiles, p, target, r)
    ensures r.job.Idle? <==> p.pos == target || !Reachable(p.pos, target, Walk(tiles))
    ensures OnPath(r) && (r.job.Move? ==> |r.job.path| > 1 && Connected(r.job.path))
  {
    var path := BfsPath(p.pos, target, Walk(tiles));
    if path.Some? && |path.value| > 1 {
      r := p.(job := Move(path.value, 1, 0.0));
    } else {
      r := p.(job := Idle);
    }
  }

  // ---------------------------------------------------------------------------
  // Resources

  /** A resource entry a pawn looking for `kind` would go to. */
  predicate Offers(e: (Point, ResourceNode), kind: ResourceType)
  {
    e.1.kind == kind && e.1.amount > 0.0
  }

  ghost predicate AnyOffer(rs: Resources, kind: ResourceType)
  {
    exists k :: 0 <= k < |rs| && Offers(rs[k], kind)
  }

  /** Entry `k` offers `kind` and is the nearest such entry to `from`,
      the first one in map order among equally near ones. */
  ghost predicate NearestAt(rs: Resources, from: Point, kind: ResourceType, k: int)
  {
    && 0 <= k < |rs| && Offers(rs[k], kind)
    && (forall j :: 0 <= j < |rs| && Offers(rs[j], kind) ==> Manhattan(from, rs[k].0) <= Manhattan(from, rs[j].0))
    && (forall j :: 0 <= j < k && Offers(rs[j], kind) ==> Manhattan(from, rs[k].0) < Manhattan(from, rs[j].0))
  }

  /** The tile of the nearest resource of `kind` with something left, or
      None when there is none. */
  method FindNearestResource(rs: Resources, from: Point, kind: ResourceType) returns (best: Option<Point>)
    ensures best.None? <==> !AnyOffer(rs, kind)
    ensures best.Some? ==> exists k :: NearestAt(rs, from, kind, k) && rs[k].0 == best.value
  {
    best := None;
    var bestDist := 0;
    ghost var bestIdx := 0;
    for i := 0 to |rs|
      invariant best.None? <==> forall k :: 0 <= k < i ==> !Offers(rs[k], kind)
      invariant best.Some? ==> && bestIdx < i && Offers(rs[bestIdx], kind) && rs[bestIdx].0 == best.value
                               && bestDist == Manhattan(from, best.value)
                               && (forall j :: 0 <= j < i && Offers(rs[j], kind) ==> bestDist <= Manhattan(from, rs[j].0))
                               && (forall j :: 0 <= j < bestIdx && Offers(rs[j], kind) ==> bestDist < Manhattan(from, rs[j].0))
    {
      if Offers(rs[i], kind) {
        var d := Manhattan(from, rs[i].0);
        if best.None? || d < bestDist {
          best, bestDist, bestIdx := Some(rs[i].0), d, i;
        }
      }
    }
    if best.Some? {
      assert NearestAt(rs, from, kind, bestIdx);
    }
  }

  /** What is left at a tile of the resource map (nothing once deleted). */
  function AmountAt(rs: Resources, at: Point): real
  {
    match Lookup(rs, at)
    case None => 0.0
    case Some(node) => node.amount
  }

  function Carried(p: Pawn): real
  {
    p.inventory.wood + p.inventory.food
  }

  const GATHER_RATE: real := 6.0

  /** Gathering at the target tile for dt seconds: up to 6 per second moves
      from the node into the matching inventory counter; an emptied node is
      deleted and reported so that its tile can revert to grass. With no
      node left there, or an empty one, the pawn gives up and idles. */
  function Extract(p: Pawn, rs: Resources, at: Point, dt: real): (r: (Pawn, Resources, bool))
    ensures r.0 == p.(inventory := r.0.inventory, job := r.0.job)
    ensures r.0.job == p.job || r.0.job == Idle
    ensures r.2 ==> r.1 == Remove(rs, at)
  {
    match Lookup(rs, at)
    case Some(node) =>
      if node.amount > 0.0 then
        var take := Min(node.amount, GATHER_RATE * dt);
        var left := node.amount - take;
        var inv := if node.kind == Wood then p.inventory.(wood := p.inventory.wood + take)
                   else p.inventory.(food := p.inventory.food + take);
        if left <= 0.0 then (p.(inventory := inv), Remove(rs, at), true)
        else (p.(inventory := inv), SetAmount(rs, at, left), false)
      else (p.(job := Idle), rs, false)
    case None => (p.(job := Idle), rs, false)
  }

  /** Gathering conserves material: what the pawn carries plus what is left
      at the tile is the same before and after, only the counter matching
      the node grows, and the node is deleted exactly when it runs out. */
  lemma ExtractConserves(p: Pawn, rs: Resources, at: Point, dt: real)
    ensures var r := Extract(p, rs, at, dt);
      Lookup(rs, at).None? || Lookup(rs, at).value.amount <= 0.0 ==> r == (p.(job := Idle), rs, false)
    ensures var r := Extract(p, rs, at, dt);
      Lookup(rs, at).Some? && Lookup(rs, at).value.amount > 0.0 ==>
      var node := Lookup(rs, at).value;
      && r.0 == p.(inventory := r.0.inventory)
      && (node.kind == Wood ==> r.0.inventory.food == p.inventory.food)
      && (node.kind == Food ==> r.0.inventory.wood == p.inventory.wood)
      && Carried(r.0) + AmountAt(r.1, at) == Carried(p) + node.amount
      && AmountAt(r.1, at) == Max(0.0, node.amount - GATHER_RATE * dt)
      && (r.2 <==> Lookup(r.1, at).None?)
  {
    var r := Extract(p, rs, at, dt);
    if Lookup(rs, at).Some? && Lookup(rs, at).value.amount > 0.0 {
      var node := Lookup(rs, at).value;
      var left := node.amount - Min(node.amount, GATHER_RATE * dt);
      if left <= 0.0 {
        RemoveLookup(rs, at, at);
        assert AmountAt(r.1, at) == 0.0;
      } else {
        SetAmountLookup(rs, at, left, at);
        assert AmountAt(r.1, at) == left;
      }
    }
  }

  lemma ExtractElsewhere(p: Pawn, rs: Resources, at: Point, dt: real, other: Point)
    requires other != at
    ensures Lookup(Extract(p, rs, at, dt).1, other) == Lookup(rs, other)
  {
    var r := Extract(p, rs, at, dt);
    if Lookup(rs, at).Some? && Lookup(rs, at).value.amount > 0.0 {
      var left := Lookup(rs, at).value.amount - Min(Lookup(rs, at).value.amount, GATHER_RATE * dt);
      if left <= 0.0 {
        RemoveLookup(rs, at, other);
      } else {
        SetAmountLookup(rs, at, left, other);
      }
    }
  }

  /** Gathering keeps one resource entry per tile. */
  lemma ExtractKeepsUnique(p: Pawn, rs: Resources, at: Point, dt: real)
    requires UniqueKeys(rs)
    ensures UniqueKeys(Extract(p, rs, at, dt).1)
  {
    if Lookup(rs, at).Some? && Lookup(rs, at).value.amount > 0.0 {
      var left := Lookup(rs, at).value.amount - Min(Lookup(rs, at).value.amount, GATHER_RATE * dt);
      if left <= 0.0 {
        RemoveKeepsUnique(rs, at);
      } else {
        SetAmountKeepsUnique(rs, at, left);
      }
    }
  }

  // ---------------------------------------------------------------------------
  // Building

  const BUILD_RATE: real := 1.5

  /** Work on the structure of a Build job for dt seconds. Once progress
      reaches 1 the structure is done: progress restarts at 0, its cost
      comes out of the inventory and the pawn idles. Reports completion. */
  function AdvanceBuild(p: Pawn, dt: real): (r: (Pawn, bool))
    requires p.job.Build?
    ensures r.1 <==> p.buildProgress + BUILD_RATE * dt >= 1.0
    ensures !r.1 ==> r.0 == p.(buildProgress := p.buildProgress + BUILD_RATE * dt)
    ensures r.1 ==> && r.0 == p.(inventory := r.0.inventory, buildProgress := 0.0, job := Idle)
                    && r.0.inventory.wood + p.job.cost.wood == p.inventory.wood
                    && r.0.inventory.food + p.job.cost.food == p.inventory.food
  {
    var progress := p.buildProgress + BUILD_RATE * dt;
    if progress >= 1.0 then
      (p.(buildProgress := 0.0,
          inventory := Inventory(p.inventory.wood - p.job.cost.wood, p.inventory.food - p.job.cost.food),
          job := Idle), true)
    else (p.(buildProgress := progress), false)
  }

  /** The job a builder short of materials turns to: gathering the nearest
      wood when short of wood and some is left, otherwise gathering the
      nearest food when short of food and some is left, otherwise Idle. */
  ghost predicate Resupplied(rs: Resources, p: Pawn, cost: Cost, job: Job)
  {
    var needWood := p.inventory.wood < cost.wood && AnyOffer(rs, Wood);
    var needFood := p.inventory.food < cost.food && AnyOffer(rs, Food);
    if needWood then exists k :: NearestAt(rs, p.pos, Wood, k) && job == Gather(rs[k].0)
    else if needFood then exists k :: NearestAt(rs, p.pos, Food, k) && job == Gather(rs[k].0)
    else job == Idle
  }

  method Resupply(rs: Resources, p: Pawn, cost: Cost) returns (job: Job)
    ensures Resupplied(rs, p, cost, job)
    ensures job.Idle? || job.Gather?
  {
    if p.inventory.wood < cost.wood {
      var res := FindNearestResource(rs, p.pos, Wood);
      if res.Some? {
        return Gather(res.value);
      }
    }
    if p.inventory.food < cost.food {
      var res := FindNearestResource(rs, p.pos, Food);
      if res.Some? {
        return Gather(res.value);
      }
    }
    return Idle;
  }

  // ---------------------------------------------------------------------------
  // Melee

  /** Whether b lies within `range` steps of a; the test is symmetric. */
  function WithinRange(a: Point, b: Point, range: int): (r: bool)
    ensures r <==> Manhattan(b, a) <= range
  {
    Manhattan(a, b) <= range
  }

  /** One update of melee: the target loses 12 hp per second and nothing else. */
  function AttackTarget(target: Pawn, dt: real): (r: Pawn)
    ensures r == target.(hp := r.hp)
    ensures r.hp == target.hp - 12.0 * dt
    ensures dt > 0.0 ==> r.hp < target.hp
  {
    target.(hp := target.hp - MELEE_DPS * dt)
  }

  /** Counts a Move job's re-plan cooldown down by dt; other jobs have none. */
  function Cool(p: Pawn, dt: real): (r: Pawn)
    ensures r.job.Move? <==> p.job.Move?
    ensures r.job.Move? ==> r.job == p.job.(repathCooldown := p.job.repathCooldown - dt)
    ensures r == p.(job := r.job)
  {
    if p.job.Move? then p.(job := p.job.(repathCooldown := p.job.repathCooldown - dt)) else p
  }

  /** One update of an Attack or Hunt job against `target` (None when the
      entity is gone), giving the pawn `r` and the target `t`. A missing or
      dead target ends the job. Out of reach, the pawn plans a fresh walk to
      the target's tile, which replaces the job, arms a 0.7 s re-plan
      cooldown, takes one step and cools down. In reach, the target takes a
      blow, and a hunter that fells its prey gains 3 food. */
  ghost predicate Fought(tiles: seq<Byte>, p: Pawn, target: Option<Pawn>, dt: real, r: Pawn, t: Option<Pawn>)
  {
    if target.None? || !Alive(target.value) then r == p.(job := Idle) && t == target
    else if WithinRange(p.pos, target.value.pos, MELEE_RANGE) then
      && t == Some(AttackTarget(target.value, dt))
      && r == if p.job.Hunt? && !Alive(t.value) then p.(inventory := p.inventory.(food := p.inventory.food + 3.0)) else p
    else
      && t == target
      && exists q :: Planned(tiles, p, target.value.pos, q) &&
           r == Cool(StepAlongPath(if q.job.Move? then q.(job := q.job.(repathCooldown := 0.7)) else q, dt).1, dt)
  }

  method FightStep(tiles: seq<Byte>, p: Pawn, target: Option<Pawn>, dt: real) returns (r: Pawn, t: Option<Pawn>)
    requires p.job.Attack? || p.job.Hunt?
    ensures Fought(tiles, p, target, dt, r, t)
    ensures t.Some? <==> target.Some?
    ensures Manhattan(p.pos, r.pos) <= 1
  {
    if target.None? || !Alive(target.value) {
      return p.(job := Idle), target;
    }
    var foe := target.value;
    if !WithinRange(p.pos, foe.pos, MELEE_RANGE) {
      var q := AssignMove(tiles, p, foe.pos);
      r := q;
      if r.job.Move? {
        r := r.(job := r.job.(repathCooldown := 0.7));
      }
      StepStaysOnPath(r, dt);
      r := Cool(StepAlongPath(r, dt).1, dt);
      t := target;
    } else {
      var hit := AttackTarget(foe, dt);
      t := Some(hit);
      r := p;
      if p.job.Hunt? && !Alive(hit) {
        r := p.(inventory := p.inventory.(food := p.inventory.food + 3.0));
      }
    }
  }

  // ---------------------------------------------------------------------------
  // Colonist branches that need no world state beyond the tiles

  /** A colonist in a mental break: the job is marked Breakdown and, each
      time its 2 s cooldown runs out, a walk 3 tiles off is planned (which
      replaces the job). The pawn is never stepped along it here. */
  ghost predicate BrokeDown(tiles: seq<Byte>, p: Pawn, dt: real, d: Draws, r: Pawn)
  {
    if p.wanderCooldown > 0.0 then r == p.(job := Breakdown, wanderCooldown := p.wanderCooldown - dt)
    else r.wanderCooldown == 2.0 && Planned(tiles, p, WanderTarget(p.pos, 3, d), r.(wanderCooldown := p.wanderCooldown))
  }

  method BreakdownStep(tiles: seq<Byte>, p: Pawn, dt: real, d: Draws) returns (r: Pawn)
    ensures BrokeDown(tiles, p, dt, d, r)
    ensures r.job.Breakdown? || r.job.Idle? || r.job.Move?
    ensures r.pos == p.pos
  {
    r := p.(job := Breakdown);
    if p.wanderCooldown <= 0.0 {
      r := AssignMove(tiles, r, WanderTarget(p.pos, 3, d));
      r := r.(wanderCooldown := 2.0);
    } else {
      r := r.(wanderCooldown := p.wanderCooldown - dt);
    }
  }

  /** An idle colonist with nothing else to do: when the wander timer has
      run out it plans a walk 5 tiles off and rearms the timer; otherwise
      the timer counts down. It does not step along the walk in this update. */
  ghost predicate Wandered(tiles: seq<Byte>, p: Pawn, dt: real, d: Draws, r: Pawn)
  {
    if p.wanderTimer > 0.0 then r == p.(wanderTimer := p.wanderTimer - dt)
    else r.wanderTimer == 4.0 + 4.0 * d.timer && Planned(tiles, p, WanderTarget(p.pos, 5, d), r.(wanderTimer := p.wanderTimer))
  }

  method WanderStep(tiles: seq<Byte>, p: Pawn, dt: real, d: Draws) returns (r: Pawn)
    requires ValidDraws(d)
    ensures Wandered(tiles, p, dt, d, r)
    ensures p.wanderTimer <= 0.0 ==> 4.0 <= r.wanderTimer < 8.0
  {
    if p.wanderTimer <= 0.0 {
      r := AssignMove(tiles, p, WanderTarget(p.pos, 5, d));
      r := r.(wanderTimer := 4.0 + 4.0 * d.timer);
    } else {
      r := p.(wanderTimer := p.wanderTimer - dt);
    }
  }

  /** Acting on one player order: a move order plans a walk, the others
      become the job of the same kind and target. */
  ghost predicate TookOrder(tiles: seq<Byte>, p: Pawn, order: Order, r: Pawn)
  {
    match order
    case MoveOrder(at) => Planned(tiles, p, at, r)
    case GatherOrder(at) => r == p.(job := Gather(at))
    case BuildOrder(at, tile, cost) => r == p.(job := Build(at, tile, cost))
    case AttackOrder(e) => r == p.(job := Attack(e))
    case HuntOrder(e) => r == p.(job := Hunt(e))
  }

  method TakeOrder(tiles: seq<Byte>, p: Pawn, order: Order) returns (r: Pawn)
    ensures TookOrder(tiles, p, order, r)
    ensures r == p.(job := r.job)
  {
    match order
    case MoveOrder(at) =>
      r := AssignMove(tiles, p, at);
    case GatherOrder(at) =>
      r := p.(job := Gather(at));
    case BuildOrder(at, tile, cost) =>
      r := p.(job := Build(at, tile, cost));
    case AttackOrder(e) =>
      r := p.(job := Attack(e));
    case HuntOrder(e) =>
      r := p.(job := Hunt(e));
  }

  // ---------------------------------------------------------------------------
  // Raiders and animals

  /** Colonist `k` is alive and the nearest living colonist to `from`, the
      first in order among equally near ones. */
  ghost predicate NearestLiving(cs: seq<Pawn>, from: Point, k: int)
  {
    && 0 <= k < |cs| && Alive(cs[k])
    && (forall j :: 0 <= j < |cs| && Alive(cs[j]) ==> Manhattan(cs[k].pos, from) <= Manhattan(cs[j].pos, from))
    && (forall j :: 0 <= j < k && Alive(cs[j]) ==> Manhattan(cs[k].pos, from) < Manhattan(cs[j].pos, from))
  }

  /** The raider's choice of victim: the index of the nearest living
      colonist, or None when every colonist is dead. */
  method NearestLivingColonist(cs: seq<Pawn>, from: Point) returns (t: Option<nat>)
    ensures t.None? <==> forall k :: 0 <= k < |cs| ==> !Alive(cs[k])
    ensures t.Some? ==> NearestLiving(cs, from, t.value)
  {
    t := None;
    var best := 0;
    for i := 0 to |cs|
      invariant t.None? <==> forall k :: 0 <= k < i ==> !Alive(cs[k])
      invariant t.Some? ==> && t.value < i && Alive(cs[t.value])
                            && best == Manhattan(cs[t.value].pos, from)
                            && (forall j :: 0 <= j < i && Alive(cs[j]) ==> best <= Manhattan(cs[j].pos, from))
                            && (forall j :: 0 <= j < t.value && Alive(cs[j]) ==> best < Manhattan(cs[j].pos, from))
    {
      if Alive(cs[i]) {
        var d := Manhattan(cs[i].pos, from);
        if t.None? || d < best {
          t, best := Some(i), d;
        }
      }
    }
  }

  /** A raider closing in on `goal`: when it has no walk or its re-plan
      cooldown has run out, it re-plans (a route found replaces the job,
      with a 0.8 s cooldown; otherwise the job stays), then it steps along
      its walk and the cooldown counts down. */
  ghost predicate Chased(tiles: seq<Byte>, p: Pawn, goal: Point, dt: real, r: Pawn)
  {
    exists q ::
      && (if !p.job.Move? || p.job.repathCooldown <= 0.0 then Rerouted(tiles, p, goal, 0.8, q) else q == p)
      && r == Cool(StepAlongPath(q, dt).1, dt)
  }

  method Chase(tiles: seq<Byte>, p: Pawn, goal: Point, dt: real) returns (r: Pawn)
    ensures Chased(tiles, p, goal, dt, r)
  {
    var q := p;
    if !p.job.Move? || p.job.repathCooldown <= 0.0 {
      var path := BfsPath(p.pos, goal, Walk(tiles));
      if path.Some? && |path.value| > 1 {
        q := p.(job := Move(path.value, 1, 0.8));
      }
    }
    r := Cool(StepAlongPath(q, dt).1, dt);
  }

  /** An animal's update: when its wander timer has run out it plans a walk
      3 tiles off (a route found replaces the job; otherwise the job stays)
      and rearms the timer, without stepping; otherwise the timer counts
      down and the animal steps along its walk. */
  ghost predicate Roamed(tiles: seq<Byte>, p: Pawn, dt: real, d: Draws, r: Pawn)
  {
    if p.wanderTimer <= 0.0 then
      && r.wanderTimer == 3.0 + 3.0 * d.timer
      && Rerouted(tiles, p, WanderTarget(p.pos, 3, d), 0.0, r.(wanderTimer := p.wanderTimer))
    else r == StepAlongPath(p.(wanderTimer := p.wanderTimer - dt), dt).1
  }

  method AnimalStep(tiles: seq<Byte>, p: Pawn, dt: real, d: Draws) returns (r: Pawn)
    requires ValidDraws(d)
    ensures Roamed(tiles, p, dt, d, r)
    ensures p.wanderTimer <= 0.0 ==> 3.0 <= r.wanderTimer < 6.0
  {
    if p.wanderTimer <= 0.0 {
      var goal := WanderTarget(p.pos, 3, d);
      var path := BfsPath(p.pos, goal, Walk(tiles));
      r := p;
      if path.Some? && |path.value| > 1 {
        r := p.(job := Move(path.value, 1, 0.0));
      }
      r := r.(wanderTimer := 3.0 + 3.0 * d.timer);
    } else {
      r := StepAlongPath(p.(wanderTimer := p.wanderTimer - dt), dt).1;
    }
  }

  // ---------------------------------------------------------------------------
  // The updates of one agent against the whole game

  /** The world after colonist `i` has been replaced by `q`. */
  function WithColonist(s: State, i: nat, q: Pawn): State
    requires i < |s.colonists|
  {
    s.(colonists := s.colonists[i := q])
  }

  /** One update of the job of colonist `i` (a Move, Gather, Build, Attack
      or Hunt job). A walk steps on and ends in Idle on arrival. Gathering
      and building away from the target plan a walk there, which replaces
      the job, and take a step. At the target, gathering extracts from the
      node (an emptied node's tile reverts to grass) and building advances
      (a finished structure is written into the grid, and a beacon sets the
      beacon flag). A builder short of materials resupplies first. Attack
      and Hunt fight the raider or animal carrying the job's entity id. */
  ghost predicate JobUpdated(s: State, s': State, i: nat, dt: real)
    requires i < |s.colonists|
  {
    var p := s.colonists[i];
    match p.job
    case Move(_, _, _) =>
      var st := StepAlongPath(p, dt);
      s' == WithColonist(s, i, if st.0 then st.1.(job := Idle) else st.1)
    case Gather(target) =>
      if !WithinRange(p.pos, target, 1) then
        exists q :: Planned(s.tiles, p, target, q) && s' == WithColonist(s, i, StepAlongPath(q, dt).1)
      else
        var x := Extract(p, s.resources, target, dt);
        s' == WithColonist(s, i, x.0).(
          resources := x.1,
          tiles := if x.2 then Written(s.tiles, target.x, target.y, GRASS) else s.tiles)
    case Build(target, tile, cost) =>
      if p.inventory.wood < cost.wood || p.inventory.food < cost.food then
        exists job :: Resupplied(s.resources, p, cost, job) && s' == WithColonist(s, i, p.(job := job))
      else if !WithinRange(p.pos, target, 1) then
        exists q :: Planned(s.tiles, p, target, q) && s' == WithColonist(s, i, StepAlongPath(q, dt).1)
      else
        var a := AdvanceBuild(p, dt);
        s' == WithColonist(s, i, a.0).(
          tiles := if a.1 then Written(s.tiles, target.x, target.y, tile) else s.tiles,
          beaconBuilt := s.beaconBuilt || (a.1 && tile == BEACON))
    case Attack(e) =>
      (match FindById(s.raiders, e)
       case None => s' == WithColonist(s, i, p.(job := Idle))
       case Some(k) =>
         exists r, t :: Fought(s.tiles, p, Some(s.raiders[k]), dt, r, t) && t.Some? &&
           s' == WithColonist(s, i, r).(raiders := s.raiders[k := t.value]))
    case Hunt(e) =>
      (match FindById(s.animals, e)
       case None => s' == WithColonist(s, i, p.(job := Idle))
       case Some(k) =>
         exists r, t :: Fought(s.tiles, p, Some(s.animals[k]), dt, r, t) && t.Some? &&
           s' == WithColonist(s, i, r).(animals := s.animals[k := t.value]))
    case _ => s' == s
  }

  /** A colonist without a job to carry on: it takes the oldest player
      order if there is one; otherwise, hungry (below 70) and carrying no
      food, it goes to gather the nearest food; otherwise it wanders. */
  ghost predicate IdleUpdated(s: State, s': State, i: nat, dt: real, d: Draws)
    requires i < |s.colonists|
  {
    var p := s.colonists[i];
    if |s.playerOrders| > 0 then
      exists q :: TookOrder(s.tiles, p, s.playerOrders[0], q) &&
        s' == WithColonist(s, i, q).(playerOrders := s.playerOrders[1..])
    else if p.needs.hunger < 70.0 && p.inventory.food == 0.0 && AnyOffer(s.resources, Food) then
      exists k :: NearestAt(s.resources, p.pos, Food, k) && s' == WithColonist(s, i, p.(job := Gather(s.resources[k].0)))
    else
      exists q :: Wandered(s.tiles, p, dt, d, q) && s' == WithColonist(s, i, q)
  }

  /** One AI update of colonist `i`, by priority: a mental break (which
      overrides everything), eating when hunger is below 55 and food is
      carried, resting in place when rest is below 30 (faster on a shelter
      tile; `dt` seconds count as 60 * dt minutes here), the current job,
      and finally the idle behaviour. */
  ghost predicate ColonistUpdated(s: State, s': State, i: nat, dt: real, d: Draws)
    requires i < |s.colonists|
  {
    var p := s.colonists[i];
    var b := IsBreakingDown(p.needs, s.timeMinutes);
    var e := TryConsumeFood(p);
    if b.0 then
      exists q :: BrokeDown(s.tiles, p.(needs := b.1), dt, d, q) && s' == WithColonist(s, i, q)
    else if p.needs.hunger < 55.0 && e.0 then
      s' == WithColonist(s, i, e.1.(job := Idle))
    else if p.needs.rest < 30.0 then
      var shelter := GetTile(s.tiles, p.pos.x, p.pos.y) == Some(SHELTER);
      s' == WithColonist(s, i, p.(needs := RestRecovery(p.needs, dt * 60.0, shelter), job := Rest))
    else if p.job.Idle? || p.job.Rest? || p.job.Breakdown? then
      IdleUpdated(s, s', i, dt, d)
    else
      JobUpdated(s, s', i, dt)
  }

  /** What a colonist's update leaves alone: the clock, the weather, the
      event timer, the stockpile, the selection, the outcome flags, the id
      counter, the size of the grid and the number of pawns of each kind;
      a beacon once built stays built. */
  ghost predicate AgentFrame(s: State, s': State)
  {
    && s' == s.(tiles := s'.tiles, resources := s'.resources, colonists := s'.colonists, raiders := s'.raiders,
                animals := s'.animals, playerOrders := s'.playerOrders, beaconBuilt := s'.beaconBuilt)
    && |s'.tiles| == |s.tiles| && (s.beaconBuilt ==> s'.beaconBuilt)
    && |s'.colonists| == |s.colonists| && |s'.raiders| == |s.raiders| && |s'.animals| == |s.animals|
  }

  method RunJob(g: Game, i: nat, dt: real)
    requires g.Valid() && i < |g.colonists|
    requires !(g.colonists[i].job.Idle? || g.colonists[i].job.Rest? || g.colonists[i].job.Breakdown?)
    modifies g, g.tiles
    ensures g.Valid()
    ensures AgentFrame(old(g.Abs()), g.Abs())
    ensures forall k :: 0 <= k < |g.colonists| && k != i ==> g.colonists[k] == old(g.colonists[k])
    ensures JobUpdated(old(g.Abs()), g.Abs(), i, dt)
  {
    var p := g.colonists[i];
    match p.job
    case Move(_, _, _) =>
      var st := StepAlongPath(p, dt);
      g.colonists := g.colonists[i := if st.0 then st.1.(job := Idle) else st.1];
    case Gather(_) =>
      GatherJob(g, i, dt);
    case Build(_, _, _) =>
      BuildJob(g, i, dt);
    case Attack(_) =>
      AttackJob(g, i, dt);
    case Hunt(_) =>
      HuntJob(g, i, dt);
  }

  method GatherJob(g: Game, i: nat, dt: real)
    requires g.Valid() && i < |g.colonists| && g.colonists[i].job.Gather?
    modifies g, g.tiles
    ensures g.Valid()
    ensures AgentFrame(old(g.Abs()), g.Abs())
    ensures forall k :: 0 <= k < |g.colonists| && k != i ==> g.colonists[k] == old(g.colonists[k])
    ensures JobUpdated(old(g.Abs()), g.Abs(), i, dt)
  {
    var p := g.colonists[i];
    var target := p.job.target;
    if !WithinRange(p.pos, target, 1) {
      var q := AssignMove(g.tiles[..], p, target);
      g.colonists := g.colonists[i := StepAlongPath(q, dt).1];
    } else {
      var x := Extract(p, g.resources, target, dt);
      ExtractKeepsUnique(p, g.resources, target, dt);
      if x.2 {
        SetTile(g.tiles, target.x, target.y, GRASS);
      }
      g.resources := x.1;
      g.colonists := g.colonists[i := x.0];
    }
  }

  method BuildJob(g: Game, i: nat, dt: real)
    requires g.Valid() && i < |g.colonists| && g.colonists[i].job.Build?
    modifies g, g.tiles
    ensures g.Valid()
    ensures AgentFrame(old(g.Abs()), g.Abs())
    ensures forall k :: 0 <= k < |g.colonists| && k != i ==> g.colonists[k] == old(g.colonists[k])
    ensures JobUpdated(old(g.Abs()), g.Abs(), i, dt)
  {
    var p := g.colonists[i];
    var target, tile, cost := p.job.target, p.job.tile, p.job.cost;
    if p.inventory.wood < cost.wood || p.inventory.food < cost.food {
      var job := Resupply(g.resources, p, cost);
      g.colonists := g.colonists[i := p.(job := job)];
    } else if !WithinRange(p.pos, target, 1) {
      var q := AssignMove(g.tiles[..], p, target);
      g.colonists := g.colonists[i := StepAlongPath(q, dt).1];
    } else {
      WorkOnSite(g, i, dt);
    }
  }

  /** The in-range, fully supplied branch of a Build job. */
  method WorkOnSite(g: Game, i: nat, dt: real)
    requires g.Valid() && i < |g.colonists| && g.colonists[i].job.Build?
    requires var p := g.colonists[i];
      && p.inventory.wood >= p.job.cost.wood && p.inventory.food >= p.job.cost.food
      && WithinRange(p.pos, p.job.target, 1)
    modifies g, g.tiles
    ensures g.Valid()
    ensures AgentFrame(old(g.Abs()), g.Abs())
    ensures forall k :: 0 <= k < |g.colonists| && k != i ==> g.colonists[k] == old(g.colonists[k])
    ensures JobUpdated(old(g.Abs()), g.Abs(), i, dt)
  {
    var p := g.colonists[i];
    var a := AdvanceBuild(p, dt);
    if a.1 {
      SetTile(g.tiles, p.job.target.x, p.job.target.y, p.job.tile);
      if p.job.tile == BEACON {
        g.beaconBuilt := true;
      }
    }
    g.colonists := g.colonists[i := a.0];
  }

  method AttackJob(g: Game, i: nat, dt: real)
    requires g.Valid() && i < |g.colonists| && g.colonists[i].job.Attack?
    modifies g
    ensures g.Valid()
    ensures AgentFrame(old(g.Abs()), g.Abs())
    ensures forall k :: 0 <= k < |g.colonists| && k != i ==> g.colonists[k] == old(g.colonists[k])
    ensures JobUpdated(old(g.Abs()), g.Abs(), i, dt)
  {
    var p := g.colonists[i];
    var k := FindById(g.raiders, p.job.entity);
    var r, t := FightStep(g.tiles[..], p, if k.Some? then Some(g.raiders[k.value]) else None, dt);
    g.colonists := g.colonists[i := r];
    if k.Some? {
      g.raiders := g.raiders[k.value := t.value];
    }
  }

  method HuntJob(g: Game, i: nat, dt: real)
    requires g.Valid() && i < |g.colonists| && g.colonists[i].job.Hunt?
    modifies g
    ensures g.Valid()
    ensures AgentFrame(old(g.Abs()), g.Abs())
    ensures forall k :: 0 <= k < |g.colonists| && k != i ==> g.colonists[k] == old(g.colonists[k])
    ensures JobUpdated(old(g.Abs()), g.Abs(), i, dt)
  {
    var p := g.colonists[i];
    var k := FindById(g.animals, p.job.entity);
    var r, t := FightStep(g.tiles[..], p, if k.Some? then Some(g.animals[k.value]) else None, dt);
    g.colonists := g.colonists[i := r];
    if k.Some? {
      g.animals := g.animals[k.value := t.value];
    }
  }

  method IdleColonist(g: Game, i: nat, dt: real, d: Draws)
    requires g.Valid() && i < |g.colonists| && ValidDraws(d)
    modifies g
    ensures g.Valid()
    ensures AgentFrame(old(g.Abs()), g.Abs())
    ensures forall k :: 0 <= k < |g.colonists| && k != i ==> g.colonists[k] == old(g.colonists[k])
    ensures IdleUpdated(old(g.Abs()), g.Abs(), i, dt, d)
  {
    var p := g.colonists[i];
    if |g.playerOrders| > 0 {
      var order := g.playerOrders[0];
      g.playerOrders := g.playerOrders[1..];
      var q := TakeOrder(g.tiles[..], p, order);
      g.colonists := g.colonists[i := q];
      return;
    }
    if p.needs.hunger < 70.0 && p.inventory.food == 0.0 {
      var res := FindNearestResource(g.resources, p.pos, Food);
      if res.Some? {
        g.colonists := g.colonists[i := p.(job := Gather(res.value))];
        return;
      }
    }
    var q := WanderStep(g.tiles[..], p, dt, d);
    g.colonists := g.colonists[i := q];
  }

  /** updateColonistAI: one AI update of colonist `i`, as ColonistUpdated
      describes it. */
  method UpdateColonistAI(g: Game, i: nat, dt: real, d: Draws)
    requires g.Valid() && i < |g.colonists| && ValidDraws(d)
    modifies g, g.tiles
    ensures g.Valid()
    ensures AgentFrame(old(g.Abs()), g.Abs())
    ensures forall k :: 0 <= k < |g.colonists| && k != i ==> g.colonists[k] == old(g.colonists[k])
    ensures ColonistUpdated(old(g.Abs()), g.Abs(), i, dt, d)
  {
    var p := g.colonists[i];
    var b := IsBreakingDown(p.needs, g.timeMinutes);
    if b.0 {
      var q := BreakdownStep(g.tiles[..], p.(needs := b.1), dt, d);
      g.colonists := g.colonists[i := q];
      return;
    }
    if p.needs.hunger < 55.0 {
      var e := TryConsumeFood(p);
      if e.0 {
        g.colonists := g.colonists[i := e.1.(job := Idle)];
        return;
      }
    }
    if p.needs.rest < 30.0 {
      var shelter := GetTile(g.tiles[..], p.pos.x, p.pos.y) == Some(SHELTER);
      g.colonists := g.colonists[i := p.(needs := RestRecovery(p.needs, dt * 60.0, shelter), job := Rest)];
      return;
    }
    if p.job.Idle? || p.job.Rest? || p.job.Breakdown? {
      IdleColonist(g, i, dt, d);
    } else {
      RunJob(g, i, dt);
    }
  }

  /** One AI update of raider `j`: it picks the nearest living colonist;
      farther than melee range it chases it, otherwise it strikes it. With
      every colonist dead it does nothing. */
  ghost predicate RaiderUpdated(s: State, s': State, j: nat, dt: real)
    requires j < |s.raiders|
  {
    var p := s.raiders[j];
    if forall k :: 0 <= k < |s.colonists| ==> !Alive(s.colonists[k]) then s' == s
    else
      exists k :: NearestLiving(s.colonists, p.pos, k) &&
        (if Manhattan(s.colonists[k].pos, p.pos) > MELEE_RANGE then
           exists q :: Chased(s.tiles, p, s.colonists[k].pos, dt, q) && s' == s.(raiders := s.raiders[j := q])
         else
           s' == s.(colonists := s.colonists[k := AttackTarget(s.colonists[k], dt)]))
  }

  /** updateRaiderAI. */
  method UpdateRaiderAI(g: Game, j: nat, dt: real)
    requires j < |g.raiders|
    modifies g
    ensures RaiderUpdated(old(g.Abs()), g.Abs(), j, dt)
    ensures g.Abs() == old(g.Abs()).(colonists := g.colonists, raiders := g.raiders)
    ensures |g.colonists| == |old(g.colonists)| && |g.raiders| == |old(g.raiders)|
    ensures forall k :: 0 <= k < |g.colonists| && !Alive(old(g.colonists[k])) ==> g.colonists[k] == old(g.colonists[k])
    ensures forall k :: 0 <= k < |g.raiders| && k != j ==> g.raiders[k] == old(g.raiders[k])
  {
    var p := g.raiders[j];
    var k := NearestLivingColonist(g.colonists, p.pos);
    if k.None? {
      return;
    }
    var c := g.colonists[k.value];
    if Manhattan(c.pos, p.pos) > MELEE_RANGE {
      var q := Chase(g.tiles[..], p, c.pos, dt);
      g.raiders := g.raiders[j := q];
    } else {
      g.colonists := g.colonists[k.value := AttackTarget(c, dt)];
    }
  }

  /** One AI update of animal `k`, as Roamed describes it. */
  ghost predicate AnimalUpdated(s: State, s': State, k: nat, dt: real, d: Draws)
    requires k < |s.animals|
  {
    exists q :: Roamed(s.tiles, s.animals[k], dt, d, q) && s' == s.(animals := s.animals[k := q])
  }

  /** updateAnimalAI. */
  method UpdateAnimalAI(g: Game, k: nat, dt: real, d: Draws)
    requires k < |g.animals| && ValidDraws(d)
    modifies g
    ensures AnimalUpdated(old(g.Abs()), g.Abs(), k, dt, d)
    ensures g.Abs() == old(g.Abs()).(animals := g.animals) && |g.animals| == |old(g.animals)|
    ensures forall m :: 0 <= m < |g.animals| && m != k ==> g.animals[m] == old(g.animals[m])
  {
    var q := AnimalStep(g.tiles[..], g.animals[k], dt, d);
    g.animals := g.animals[k := q];
  }
}
