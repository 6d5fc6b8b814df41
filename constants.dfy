/** Tunable numbers, tile codes and enumerations shared by the whole simulation
    (colony-mvp/src/constants.js and the per-kind constants of entity.js). */
module Constants {

  /** Map size in tiles. */
  const MAP_WIDTH: int := 60
  const MAP_HEIGHT: int := 40

  /** One cell of the tile store (a Uint8Array element). */
  type Byte = b: int | 0 <= b < 256

  /** Tile codes. */
  const GRASS: Byte := 0
  const WATER: Byte := 1
  const ROCK: Byte := 2
  const TREE: Byte := 3
  const BERRY: Byte := 4
  const WALL: Byte := 5
  const SHELTER: Byte := 6
  const BEACON: Byte := 7

  datatype Faction = Colonist | Raider | Animal

  datatype Weather = Clear | Rain | Heatwave

  /** The two kinds of resource node and of inventory counter. */
  datatype ResourceType = Wood | Food

  /** What a structure costs to build. */
  datatype Cost = Cost(wood: real, food: real)

  const WALL_COST: Cost := Cost(5.0, 0.0)
  const SHELTER_COST: Cost := Cost(15.0, 0.0)
  const BEACON_COST: Cost := Cost(50.0, 20.0)

  const COLONIST_COUNT: nat := 3

  const MAX_HP: real := 100.0
  /** Tiles per second. */
  const DEFAULT_SPEED: real := 3.0
  const ANIMAL_SPEED: real := 2.5
  const RAIDER_SPEED: real := 2.8

  /** Need rates, per simulated minute. */
  const HUNGER_DECAY_PER_MIN: real := 12.0
  const REST_DECAY_PER_MIN: real := 10.0
  const MOOD_RECOVERY_PER_MIN: real := 8.0
  const HUNGER_EAT_AMOUNT: real := 30.0
  const REST_RECOVERY_RATE: real := 20.0
  const MOOD_BREAKDOWN_THRESHOLD: real := 15.0

  /** Melee reach (Manhattan tiles) and damage per second. */
  const MELEE_RANGE: int := 1
  const MELEE_DPS: real := 12.0
}
