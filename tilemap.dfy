/** The tile store: one byte per tile, row-major, read and written at index
    `y * MAP_WIDTH + x` (colony-mvp/src/map.js). */
module TileMap {
  import opened Constants
  import opened Utils

  /** Position of tile (x, y) in the flat store. */
  function Index(x: int, y: int): int
  {
    y * MAP_WIDTH + x
  }

  /** On the map, tiles and store positions correspond one to one. */
  lemma IndexInjective(x: int, y: int, x': int, y': int)
    requires InBounds(x, y) && InBounds(x', y')
    ensures 0 <= Index(x, y) < MAP_WIDTH * MAP_HEIGHT
    ensures Index(x, y) == Index(x', y') <==> x == x' && y == y'
  {
    if y < y' {
      assert Index(x, y) < (y + 1) * MAP_WIDTH <= y' * MAP_WIDTH <= Index(x', y');
    } else if y' < y {
      assert Index(x', y') < (y' + 1) * MAP_WIDTH <= y * MAP_WIDTH <= Index(x, y);
    }
  }

  /** A typed-array read: no value (JavaScript's undefined) when the index
      falls outside the store. */
  function GetTile(tiles: seq<Byte>, x: int, y: int): (t: Option<Byte>)
    ensures t.Some? <==> 0 <= Index(x, y) < |tiles|
    ensures |tiles| == MAP_WIDTH * MAP_HEIGHT && InBounds(x, y) ==> t.Some?
  {
    var i := Index(x, y);
    assert InBounds(x, y) ==> 0 <= i < MAP_WIDTH * MAP_HEIGHT by {
      if InBounds(x, y) {
        IndexInjective(x, y, x, y);
      }
    }
    if 0 <= i < |tiles| then Some(tiles[i]) else None
  }

  /** The store after writing `t` at (x, y); a typed array ignores writes
      outside its range. */
  function Written(tiles: seq<Byte>, x: int, y: int, t: Byte): seq<Byte>
  {
    var i := Index(x, y);
    if 0 <= i < |tiles| then tiles[i := t] else tiles
  }

  method SetTile(tiles: array<Byte>, x: int, y: int, t: Byte)
    modifies tiles
    ensures tiles[..] == Written(old(tiles[..]), x, y, t)
  {
    var i := Index(x, y);
    if 0 <= i < tiles.Length {
      tiles[i] := t;
    }
  }

  /** Reading back a written tile gives the value written, and every other
      tile of the map reads as before. */
  lemma SetThenGet(tiles: seq<Byte>, x: int, y: int, t: Byte, x': int, y': int)
    requires |tiles| == MAP_WIDTH * MAP_HEIGHT && InBounds(x, y) && InBounds(x', y')
    ensures GetTile(Written(tiles, x, y, t), x', y') ==
            if x' == x && y' == y then Some(t) else GetTile(tiles, x', y')
  {
    IndexInjective(x, y, x', y');
  }

  /** Tile codes a pawn cannot enter: water, rock, walls and the beacon. */
  predicate Blocking(t: Byte)
  {
    t == WATER || t == ROCK || t == WALL || t == BEACON
  }

  /** Whether the tile at (x, y) can be walked on. A read outside the store
      compares unequal to every blocking code, so it counts as walkable. */
  function IsWalkable(tiles: seq<Byte>, x: int, y: int): (w: bool)
    ensures w <==> GetTile(tiles, x, y).None? || !Blocking(GetTile(tiles, x, y).value)
  {
    var t := GetTile(tiles, x, y);
    !(t == Some(WATER) || t == Some(ROCK) || t == Some(WALL) || t == Some(BEACON))
  }

  /** Whether a structure may be placed on the tile at (x, y): only on bare
      ground, trees and berry bushes. */
  function IsBuildable(tiles: seq<Byte>, x: int, y: int): (b: bool)
    ensures b ==> GetTile(tiles, x, y).Some?
  {
    var t := GetTile(tiles, x, y);
    t == Some(GRASS) || t == Some(TREE) || t == Some(BERRY)
  }

  /** Among the eight tile codes the walkable ones are grass, trees, berry
      bushes and shelters, and building is allowed on a subset of them. */
  lemma WalkableCodes(tiles: seq<Byte>, x: int, y: int)
    requires |tiles| == MAP_WIDTH * MAP_HEIGHT && InBounds(x, y)
    requires GetTile(tiles, x, y).value <= BEACON
    ensures IsWalkable(tiles, x, y) <==> GetTile(tiles, x, y).value in {GRASS, TREE, BERRY, SHELTER}
    ensures IsBuildable(tiles, x, y) <==> GetTile(tiles, x, y).value in {GRASS, TREE, BERRY}
  {
  }

  lemma BuildableIsWalkable(tiles: seq<Byte>, x: int, y: int)
    ensures IsBuildable(tiles, x, y) ==> IsWalkable(tiles, x, y)
  {
  }

  /** The walkability test handed to the path finder. */
  function Walk(tiles: seq<Byte>): Point -> bool
  {
    (q: Point) => IsWalkable(tiles, q.x, q.y)
  }
}
