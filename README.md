# colony-mvp simulation core in Dafny

A model of the simulation step of colony-mvp, a small colony game. It covers:

- a grid world of byte-coded tiles with resource nodes (trees, berry bushes);
- colonists, raiders and animals that move along breadth-first paths;
- colonist needs (hunger, rest, mood) and the colonist job cascade;
- an event scheduler (raids, weather shifts, animals going mad);
- the per-frame orchestrator `Game.update`.

Every `Math.random()` call becomes a parameter (`Draws`, `EventDraws`, `FrameDraws`). With the draws fixed, each step is deterministic. The model proves what each step does to the world.

Modules, one per source file:

- `Constants` (constants.dfy): the tile codes, rates, thresholds and speeds of `constants.js`.
- `Utils` (utils.dfy): `inBounds`, `manhattan`, `neighbors4`, the breadth-first search `bfsPath` and `formatTime`.
  - `BfsPath` is an imperative method: a FIFO queue, a discovery map `cameFrom` filled in place, and a reconstruction loop.
  - It is proved to return a shortest walkable route exactly when the goal is reachable.
- `TileMap` (tilemap.dfy): the flat tile array indexed by `y*W+x`.
  - `SetTile` writes the `array` in place.
  - Reads and the walkable/buildable predicates work on a snapshot `seq`.
- `Entity` (entity.dfy): pawn records, jobs, inventories, needs, and the raiders a raid spawns.
- `PawnNeeds` (needs.dfy): `updateNeeds`, `tryConsumeFood`, `isBreakingDown`, `restRecovery`.
- `Colony` (colony.dfy): the resource store as an insertion-ordered sequence of (tile, node) entries, the player orders, and the `Game` class.
  - `Game`'s fields are the world state that the constructor of `game.js` sets up.
  - `Game.Abs()` snapshots that state as a `State` value.
- `AI` (ai.dfy): the colonist job state machine, the raider and animal loops, and their helpers.
  - Each value-level step (`AssignMove`, `FightStep`, `Chase`, …) is a method proved against a specification predicate (`Planned`, `Fought`, `Chased`, …).
  - The Game-level methods (`UpdateColonistAI`, `UpdateRaiderAI`, `UpdateAnimalAI`) relate `old(g.Abs())` to `g.Abs()` through `ColonistUpdated`, `RaiderUpdated` and `AnimalUpdated`.
- `Events` (events.dfy): `initEvents` and `updateEvents`.
  - `UpdateEvents` is proved equal to the specification function `EventsAfter`.
  - Lemmas about `EventsAfter` cover the timer, raids, weather and mad animals.
- `GameLoop` (game.dfy): `Game.update` split into its phases (scheduler, colonists, raiders, late phase), plus the start of a game.
  - The late phase runs the raider filter, the animals, auto-haul and contact damage.
  - Auto-haul and contact damage are value-level loops with conservation invariants.

How values and state are represented:

- Pawns are values (`datatype Pawn`) kept in the `seq` fields `colonists`, `raiders` and `animals` of `Game`. The in-place updates of a pawn record in the source become "replace the element at index i".
- The job fields a Job object carries become constructor fields (`Move(path, pathIndex, repathCooldown)`, `Gather(target)`, …). The pawn fields `_moveProgress`, `_buildProgress`, `_wanderTimer` and `_wanderCooldown` live on the pawn, so they survive job changes as in the source.
- Amounts, hit points, needs, progress and timers are `real`. Tile coordinates are `int`.
- Time units follow the code:
  - `timeMinutes` advances by `dt`;
  - `updateNeeds` receives `dt` as minutes;
  - the colonist AI's rest recovery and the event timer use `dt * 60`.

Behaviours of the code that are easy to misread:

- The search returns `[start]` for `start == goal`, not failure, and callers then go Idle.
- The mood penalties test the already-decayed hunger and rest, not the values before the update (`PawnNeeds.PenaltyAfterDecay`, `PawnNeeds.RestPenaltyAfterDecay`).
- Inventories can become fractional, because gathering moves `6*dt`. They can also become negative: any food above zero passes the `food > 0` test, and a whole unit is then taken (`PawnNeeds.FractionalRation`).
- Build resupply takes the nearest node by Manhattan distance, whether or not a path reaches it.
- Auto-haul moves only positive counters, and only for living colonists.
- Raiders at or below -50 hp are dropped from the raider list after the raider loop.
- An animal that goes mad only changes faction. It stays in the animal list and keeps wandering; it does not adopt raider behaviour.

## Model

| member | source | states |
|---|---|---|
| Utils.RandInt | colony-mvp/src/utils.js:3-5 | for `lo <= hi` and a draw in [0, 1), the integer lies in [lo, hi] |
| Utils.Manhattan | colony-mvp/src/utils.js:15-17 | the distance is a natural number, zero exactly when the two points coincide |
| Utils.ManhattanSymmetric | colony-mvp/src/utils.js:15-17 | the distance does not depend on the argument order |
| Utils.ManhattanTriangle | colony-mvp/src/utils.js:15-17 | the distance obeys the triangle inequality |
| Utils.Neighbors4 | colony-mvp/src/utils.js:19-26 | exactly four cells in the order +x, -x, +y, -y; a point is among them iff it is at distance 1 |
| Utils.RouteAtLeastManhattan | colony-mvp/src/utils.js:28-57 | every walkable route from start to goal takes at least Manhattan(start, goal) steps |
| Utils.BfsPath | colony-mvp/src/utils.js:28-57 | the result is null exactly when the goal is unreachable. Otherwise it is a route from start to goal: consecutive cells at distance 1, every later cell in bounds and walkable, no cell repeated, no shorter route existing. `start == goal` gives `[start]` |
| Utils.GoalAtShallowest | colony-mvp/src/utils.js:35-47 | when the FIFO queue's front is the goal, its discovery-tree route is a shortest route (the queue holds at most two adjacent depth layers) |
| Utils.Exhausted | colony-mvp/src/utils.js:35-57 | once every discovered cell is expanded without meeting the goal, the goal is unreachable |
| Utils.Expand | colony-mvp/src/utils.js:48-55 | expanding a cell discovers each in-bounds, walkable, unvisited neighbour one layer deeper. It keeps the discovery tree, queue layering and coverage invariants, and the expanded cell ends with all neighbours discovered |
| Utils.ReconstructPath | colony-mvp/src/utils.js:37-46 | walking `cameFrom` back from the goal yields a route from start to goal whose k-th cell was discovered at depth k, without repetitions |
| Utils.Decimal | colony-mvp/src/utils.js:65 | the decimal text of a number is a non-empty digit string |
| Utils.DecimalRoundTrip | colony-mvp/src/utils.js:65 | reading the decimal text back gives the number |
| Utils.PadStart2 | colony-mvp/src/utils.js:65 | padding gives length max(2, n) and keeps the digit value |
| Utils.FormatTime | colony-mvp/src/utils.js:60-66 | for non-negative time: day = floor(t / 1440) + 1. The text is `h:mm` with hours <= 23 and minutes two digits <= 59, and day, hours and minutes recombine to floor(t) |
| TileMap.IndexInjective | colony-mvp/src/map.js:47-53 | in-bounds cells have distinct indices inside the grid |
| TileMap.GetTile | colony-mvp/src/map.js:47-49 | a code is read exactly when the index falls inside the array, so always for in-bounds cells of a full grid |
| TileMap.SetTile | colony-mvp/src/map.js:51-53 | the array afterwards is the old grid with that one cell written |
| TileMap.SetThenGet | colony-mvp/src/map.js:47-53 | after a write, the written cell reads the new code and every other in-bounds cell reads its old code |
| TileMap.IsWalkable | colony-mvp/src/map.js:55-58 | walkable iff no code is read (JS `undefined`) or the code is not water, rock, wall or beacon |
| TileMap.IsBuildable | colony-mvp/src/map.js:60-63 | buildable only where a code is read |
| TileMap.WalkableCodes | colony-mvp/src/map.js:55-63 | on the known codes: walkable iff grass, tree, berry or shelter; buildable iff grass, tree or berry |
| TileMap.BuildableIsWalkable | colony-mvp/src/map.js:55-63 | every buildable cell is walkable |
| Entity.NewPawn | colony-mvp/src/entity.js:23-43 | a new pawn has the given id and position, full hit points and an Idle job |
| Entity.NewRaider | colony-mvp/src/entity.js:78-80 | a spawned raider is alive, of raider faction, with raider speed |
| Entity.FindById | colony-mvp/src/ai.js:163 | the first pawn holding the target id, or None when no pawn holds it |
| Entity.EdgeSpot | colony-mvp/src/entity.js:73-77 | the spawn cell lies on the chosen map edge and, for a draw in [0, 1), inside the map |
| Entity.Raiders | colony-mvp/src/entity.js:70-84 | a raid spawns exactly `num` raiders |
| Entity.SpawnRaiders | colony-mvp/src/entity.js:70-84 | the spawning loop builds exactly the raiders `Raiders` describes |
| Entity.RaidersOnEdge | colony-mvp/src/entity.js:70-84 | every spawned raider is alive, hostile, Idle, in bounds and on the chosen edge; ids start at the counter and strictly increase |
| PawnNeeds.UpdateNeeds | colony-mvp/src/needs.js:3-17 | hunger and rest stay >= 0 and, for non-negative time, never rise; mood stays in [0, 100]; the breakdown latch is untouched |
| PawnNeeds.WeatherRates | colony-mvp/src/needs.js:4-8 | a heatwave scales hunger decay by 1.4 and rain scales rest decay by 0.9; other weather leaves the base rates |
| PawnNeeds.PenaltyAfterDecay | colony-mvp/src/needs.js:7-13 | the hunger penalty tests the decayed hunger. Two pawns differing only in hunger get equal mood when their decayed hunger lies on the same side of 30, however far apart they started. When only the first ends below 30 and no clamp intervenes, it loses exactly 12 more per minute |
| PawnNeeds.RestPenaltyAfterDecay | colony-mvp/src/needs.js:7-13 | the same for rest: the decayed rest decides the penalty, which costs exactly 10 per minute |
| PawnNeeds.BaseMoodRecovery | colony-mvp/src/needs.js:11-16 | with decayed hunger and rest both at least 30, no rain and no clamp, mood rises by exactly 8 per minute |
| PawnNeeds.RainMood | colony-mvp/src/needs.js:14-16 | rain costs exactly 3 more mood per minute than clear weather when neither clamp nor the rest threshold intervenes |
| PawnNeeds.NoTimeNoChange | colony-mvp/src/needs.js:3-17 | zero elapsed minutes leave in-range needs unchanged |
| PawnNeeds.TryConsumeFood | colony-mvp/src/needs.js:19-27 | eats iff food > 0 and hunger < 70. Then exactly one food goes, hunger becomes min(100, h + 30) and mood min(100, m + 3); otherwise nothing changes |
| PawnNeeds.FractionalRation | colony-mvp/src/needs.js:20-21 | a hungry pawn carrying any food below one unit eats a whole ration and ends with exactly one unit less, a negative count |
| PawnNeeds.IsBreakingDown | colony-mvp/src/needs.js:29-36 | true iff the latch lies in the future or mood <= 15; the latch is set to now + 4 only when newly triggered, and nothing else changes |
| PawnNeeds.BreakdownLatches | colony-mvp/src/needs.js:29-36 | once triggered, the pawn stays broken down for the next 4 minutes whatever its mood does |
| PawnNeeds.RestRecovery | colony-mvp/src/needs.js:38-42 | only rest and mood change, both capped at 100, and neither drops for non-negative time; mood becomes min(100, mood + 2 per minute) |
| PawnNeeds.ShelterRate | colony-mvp/src/needs.js:38-40 | rest recovers at 32 per minute in a shelter and 20 elsewhere, so the shelter is never worse |
| Colony.LookupFinds | colony-mvp/src/ai.js:101 | a lookup finds a node iff some entry has the key, and then returns that entry's node |
| Colony.Remove | colony-mvp/src/ai.js:111 | deleting never lengthens the store |
| Colony.RemoveMembers | colony-mvp/src/ai.js:111 | deleting keeps exactly the entries with other keys |
| Colony.RemoveLookup | colony-mvp/src/ai.js:111 | after deleting a key, the key is unmapped and every other key maps as before |
| Colony.RemoveKeepsUnique | colony-mvp/src/ai.js:111 | deleting keeps one entry per key |
| Colony.SetAmount | colony-mvp/src/ai.js:105 | updating an amount keeps every entry in place and changes only the amount under that key |
| Colony.SetAmountLookup | colony-mvp/src/ai.js:105 | after the update, lookups of other keys are unchanged and the key maps to the node with the new amount |
| Colony.SetAmountKeepsUnique | colony-mvp/src/ai.js:105 | updating keeps one entry per key |
| Colony.Game.constructor | colony-mvp/src/game.js:11-41 | a new game holds the generated map and spawned pawns, with no raiders, orders or selection. The stockpile is empty, the clock at zero, the weather clear, and no flag set |
| Colony.Game.EnqueueOrder | colony-mvp/src/game.js:59-62 | the order is appended once per selected pawn behind the waiting orders, and nothing else changes |
| AI.WanderTarget | colony-mvp/src/ai.js:59-60 | the target lies in bounds and, from an in-bounds cell, within the step on each axis |
| AI.StepAlongPath | colony-mvp/src/ai.js:15-28 | with no next node the pawn is unchanged and "arrived". Otherwise progress grows by speed * dt; the pawn moves at most one node, exactly when progress reaches 1, to `path[pathIndex]`, keeping the fractional carry. The result is true iff the path is exhausted |
| AI.StepStaysOnPath | colony-mvp/src/ai.js:15-28 | on a connected path a step keeps the pawn on its path and moves it at most one tile |
| AI.AssignMove | colony-mvp/src/ai.js:6-13 | the job is replaced wholesale: Move at index 1 along a shortest route when the target is another reachable cell, Idle otherwise; the position is unchanged |
| AI.FindNearestResource | colony-mvp/src/ai.js:30-40 | null iff no node of the kind has amount > 0; otherwise such a node at minimum distance, earliest in insertion order on ties |
| AI.Extract | colony-mvp/src/ai.js:101-115 | gathering changes only the pawn's inventory and job, the job only to Idle, and a removed node means the store is the old one without that key |
| AI.ExtractConserves | colony-mvp/src/ai.js:101-115 | a missing or empty node turns the job Idle and changes nothing else. Otherwise min(amount, 6 * dt) moves to the matching counter, conserving carried plus stored, and the node is deleted iff it runs out |
| AI.ExtractElsewhere | colony-mvp/src/ai.js:101-112 | gathering leaves every other resource node as it was |
| AI.ExtractKeepsUnique | colony-mvp/src/ai.js:101-112 | gathering keeps one entry per key |
| AI.AdvanceBuild | colony-mvp/src/ai.js:149-158 | progress grows by 1.5 * dt; on reaching 1 exactly the cost is debited, progress resets to 0 and the job turns Idle |
| AI.Resupply | colony-mvp/src/ai.js:122-141 | short on wood: Gather at the nearest wood node if any. Otherwise, if short on food, Gather at the nearest food node. Otherwise Idle |
| AI.WithinRange | colony-mvp/src/ai.js:42-44 | true iff the Manhattan distance is within the range |
| AI.AttackTarget | colony-mvp/src/ai.js:46-48 | only the target's hp changes, by exactly -12 * dt |
| AI.Cool | colony-mvp/src/ai.js:171 | a Move job's re-path cooldown drops by dt; nothing else changes |
| AI.FightStep | colony-mvp/src/ai.js:161-177 | a missing or dead target makes the job Idle. Within range the target loses 12 * dt and a Hunt kill adds 3 food. Otherwise the pawn re-plans (cooldown 0.7) and steps towards the target, moving at most one tile |
| AI.BreakdownStep | colony-mvp/src/ai.js:55-67 | the job becomes Breakdown, or the Move/Idle of a fresh 3-tile wander plan with cooldown 2 when the cooldown ran out; otherwise the cooldown drops by dt; the pawn does not move |
| AI.WanderStep | colony-mvp/src/ai.js:198-205 | an expired timer re-plans a 5-tile wander and rearms the timer in [4, 8); otherwise the timer drops by dt |
| AI.TakeOrder | colony-mvp/src/ai.js:183-187 | each order kind becomes its job (a move order through AssignMove); only the job changes |
| AI.NearestLivingColonist | colony-mvp/src/ai.js:210-217 | None iff no colonist is alive; otherwise a living colonist at minimum distance, first on ties |
| AI.Chase | colony-mvp/src/ai.js:218-224 | re-plans (cooldown 0.8) only with no Move job or an expired cooldown, keeping the old job when no longer route exists; then steps and cools by dt |
| AI.AnimalStep | colony-mvp/src/ai.js:230-242 | an expired timer re-plans a 3-tile wander and rearms the timer in [3, 6) without stepping; otherwise the timer drops by dt and the animal steps |
| AI.RunJob | colony-mvp/src/ai.js:86-178 | dispatches the current job: Move steps and goes Idle on arrival, Gather, Build, Attack and Hunt as their branches. Other colonists, the frame fields and the map size are kept |
| AI.GatherJob | colony-mvp/src/ai.js:92-117 | out of range: plan (the job becomes Move) and step. In range: extract; the tile reverts to grass exactly when the node is removed |
| AI.BuildJob | colony-mvp/src/ai.js:118-160 | short of materials: resupply. Out of range: plan and step. Otherwise work on site |
| AI.WorkOnSite | colony-mvp/src/ai.js:143-159 | progress advances; on completion the job's tile is written at the target and `beaconBuilt` is set iff that tile is the beacon |
| AI.AttackJob | colony-mvp/src/ai.js:161-177 | the raider with the target id is fought as FightStep describes and only it changes; a missing raider makes the job Idle |
| AI.HuntJob | colony-mvp/src/ai.js:161-177 | the animal with the target id is fought as FightStep describes and only it changes; a missing animal makes the job Idle |
| AI.IdleColonist | colony-mvp/src/ai.js:180-205 | a waiting order is taken and removed from the front of the queue, the rest kept in order. Otherwise a hungry colonist without food gathers at the nearest food node. Otherwise it wanders |
| AI.UpdateColonistAI | colony-mvp/src/ai.js:50-206 | the cascade breakdown, eat (hunger < 55), rest (rest < 30, shelter by tile), job dispatch, then order intake, forage and wander. Only this colonist, the map, the store, the orders, raiders, animals and `beaconBuilt` may change; the beacon, once built, stays built |
| AI.UpdateRaiderAI | colony-mvp/src/ai.js:208-228 | nothing when no colonist lives. Otherwise the nearest living colonist (first on ties) is chased when out of range, else hit for 12 * dt. Dead colonists and other raiders are untouched |
| AI.UpdateAnimalAI | colony-mvp/src/ai.js:230-242 | the animal roams as AnimalStep describes; nothing else changes |
| Events.EdgeOf | colony-mvp/src/events.js:18-19 | the draw picks left below 0.25, right in [0.25, 0.5), top in [0.5, 0.75) and bottom from 0.75 on |
| Events.NextWeather | colony-mvp/src/events.js:26-27 | clear weather turns to rain (coin < 0.5) or a heatwave; anything else clears |
| Events.RaidSize | colony-mvp/src/events.js:20 | a raid brings 1 + floor(colonists / 2) raiders, dead colonists counted |
| Events.LivingIndicesSpec | colony-mvp/src/events.js:31 | the candidates are exactly the living animals' indices, in increasing order |
| Events.NoneLiving | colony-mvp/src/events.js:31-32 | with no living animal there is no candidate |
| Events.Pick | colony-mvp/src/events.js:33 | a draw in [0, 1) picks a valid candidate position |
| Events.MadAnimals | colony-mvp/src/events.js:29-38 | the mad-animal event keeps the number of animals |
| Events.EventTimer | colony-mvp/src/events.js:9-41 | while the timer stays positive only it changes, by -60 * dt; after an event it is rearmed in [8, 20); the map, store, colonists, stockpile, clock and orders are never touched |
| Events.RaidAppends | colony-mvp/src/events.js:16-23 | a raid keeps the old raiders as a prefix and appends RaidSize new ones with fresh, increasing ids, advancing the id counter past them |
| Events.WeatherShift | colony-mvp/src/events.js:24-28 | a weather event toggles between clear and bad weather and changes nothing but the weather and the timer |
| Events.OneAnimalGoesMad | colony-mvp/src/events.js:29-38 | with a living animal, exactly one living animal turns raider and the rest are unchanged; with none, nothing changes |
| Events.InitEvents | colony-mvp/src/events.js:4-7 | weather clear and timer 10 + 8r, in [10, 18), nothing else changed |
| Events.MakeAnimalMad | colony-mvp/src/events.js:31-37 | collecting the living candidates in a loop and flipping the picked one gives exactly MadAnimals |
| Events.UpdateEvents | colony-mvp/src/events.js:9-41 | the new state is exactly EventsAfter of the old one |
| GameLoop.NewGame | colony-mvp/src/game.js:11-43 | a constructed game after initEvents: the constructor's state with clear weather and a first event 10 to 18 minutes away |
| GameLoop.SurvivorsSpec | colony-mvp/src/game.js:83 | the filter keeps exactly the raiders above -50 hp and never adds one |
| GameLoop.Unloaded | colony-mvp/src/game.js:92-98 | a hauling colonist's positive counters are zeroed, no counter grows, and a colonist that does not haul is untouched |
| GameLoop.HaulPass | colony-mvp/src/game.js:92-98 | every colonist ends Unloaded. Stockpile plus inventories is conserved for wood and for food, and the stockpile never shrinks |
| GameLoop.AutoHaul | colony-mvp/src/game.js:92-98 | HaulPass applied to the game; only colonists and stockpile change |
| GameLoop.FightRaider | colony-mvp/src/game.js:102-110 | the loop over the colonists computes exactly RaiderTurn: the one living raider's turn |
| GameLoop.ContactPass | colony-mvp/src/game.js:101-111 | the nested loops compute exactly ContactAfter, and the result keeps ContactInv with the pawns they started from |
| GameLoop.BlowsProduct | colony-mvp/src/game.js:107-108 | n blows take 8 * dt * n hit points |
| GameLoop.RaiderTurnSpec | colony-mvp/src/game.js:103-110 | in a raider's turn, each colonist that is alive and within melee reach of it loses exactly 8 * dt and every other colonist is untouched. The raider loses 8 * dt per such colonist, and nothing else about it changes |
| GameLoop.ContactPrefix | colony-mvp/src/game.js:101-111 | later raiders' turns do not change earlier raiders: the first n raiders after the pass are as the pass over those n left them |
| GameLoop.ContactTurn | colony-mvp/src/game.js:101-111 | raider j's turn, taken on the colonists the earlier turns left: when alive, each colonist alive and in reach at that point loses exactly 8 * dt and the others are untouched; the raider ends the pass 8 * dt down per such colonist. A dead raider changes nothing |
| GameLoop.ContactAfterInv | colony-mvp/src/game.js:101-111 | the contact pass changes only hit points, and never upwards for dt >= 0. The dead and those out of reach of every opponent are untouched, and both sides lose the same total |
| GameLoop.Contact | colony-mvp/src/game.js:101-111 | the game's colonists and raiders become exactly ContactAfter of the old ones, keeping ContactInv; nothing else changes |
| GameLoop.SchedulerPhase | colony-mvp/src/game.js:69 | the world becomes exactly EventsAfter of the old one. In particular, between events only the timer changes, by -60 * dt; when one fires, the timer lands in [8, 20) and at most one raid is added |
| GameLoop.RunColonist | colony-mvp/src/game.js:73-75 | a dead colonist leaves the world unchanged. For a living one, its needs decay over dt minutes in the current weather, then its AI step is exactly as UpdateColonistAI states (ColonistActs) |
| GameLoop.ColonistPhase | colony-mvp/src/game.js:72-76 | the trace of worlds from the old to the new one has one step per colonist, in order, each step being that colonist's ColonistActs; dead colonists stay as they were |
| GameLoop.RunRaider | colony-mvp/src/game.js:80-81 | a dead raider leaves the world unchanged; a living one takes exactly the step UpdateRaiderAI states (RaiderActs) |
| GameLoop.RaiderPhase | colony-mvp/src/game.js:79-82 | the trace of worlds has one step per raider, in order, each that raider's RaiderActs. Only colonists and raiders change, and dead colonists and dead raiders stay as they were |
| GameLoop.AnimalPhase | colony-mvp/src/game.js:86-89 | the trace of worlds has one step per animal, in order: a dead animal is skipped and a living one takes exactly the step UpdateAnimalAI states. Only the animals change |
| GameLoop.LatePhase | colony-mvp/src/game.js:83-111 | the raiders are first filtered to Survivors. Then the animal loop runs as traced, hauling relates the colonists and stockpile by HaulInv, and the contact pass gives exactly ContactAfter of the hauled colonists and filtered raiders. The colonist and animal counts are kept, raiders are never added, dead colonists are untouched and the stockpile never shrinks |
| GameLoop.FrameOfPhases | colony-mvp/src/game.js:64-121 | the clock step, the phases and the win/loss flags compose into one frame (FrameRan) |
| GameLoop.Phases | colony-mvp/src/game.js:68-111 | the phases in source order: scheduler, colonist loop, raider loop, raider filter, animal loop, haul, contact. Each hands its world to the next (PhasesRan). Clock, selection and flags are unchanged, the stockpile never shrinks and the beacon stays built |
| GameLoop.Outcome | colony-mvp/src/game.js:113-121 | `winTriggered` becomes old or `beaconBuilt`, `lossTriggered` old or all colonists dead; nothing else changes |
| GameLoop.Update | colony-mvp/src/game.js:64-122 | the frame is FrameRan: the clock advances by dt, then the phases run in order as PhasesRan links them, then the outcome flags are set. Consequences stated too: the selection, colonist and animal counts and every dead colonist are kept, the stockpile never shrinks and the beacon stays built. The event timer is as SchedulerPhase states, and raiders are bounded by the old count plus one raid |

## Left out

- Rendering (`Game.draw`), canvas and window setup, the UI text updates, `showWin`/`showLoss`, input handling and the animation loop. `dt` is a parameter of `Update`.
- Map generation and the spawning of colonists and animals are random and may not terminate. The generated map, resources and pawns are parameters of the constructor and of `NewGame`.
- Names, traits and backstories of pawns, and every log message.
- `randInt` and `choice` as random sources. Each draw is an independent parameter in [0, 1) instead of one stream.
- IEEE double rounding: amounts, hit points, needs, progress and timers are exact reals.
- Utils.BfsPath: states that the result is a shortest route, not which shortest route the +x, -x, +y, -y visiting order selects among equally short ones. Callers are specified over any shortest route in the same way.
- Utils.FormatTime: requires non-negative time, because negative clock values never arise and JS `%` on negatives would need a separate model.
- Entity.Raiders: takes ids from the game's `nextEntityId` counter rather than a module-level counter shared with colonists and animals. Only freshness and order of ids are stated.
- Entity.FindById: job targets are ids looked up in the raider or animal list rather than object references. A dead or removed target is found as the first pawn with that id, or not at all.
- TileMap.GetTile: reading outside the array gives None where JS gives `undefined`; walkability treats both alike.
- AI.AssignMove: the Move job's re-path cooldown is 0.0 where JS leaves it undefined. It is only read by Attack, Hunt and raider jobs, which set it first.
- AI.Chase: on an Idle raider job JS subtracts from an undefined cooldown (NaN). The model keeps the job unchanged there, which is observably the same because a non-Move job is never read for its cooldown.
- GameLoop.SurvivorsSpec: states membership and size, not that the surviving raiders keep their relative order.
- GameLoop.Update: the frame is stated phase by phase through the draws each phase receives. It does not state which draw `Math.random()` would supply at each point of one shared stream (see the line on `randInt` above).
- Pawn records are values: an update in place of a pawn object becomes replacing the element at its index. Aliasing between a job's target reference and the list entry is modelled by id.
