/** Grid model of the path finder: coordinates, clamping to the map and the wall test. */
module Grid {

  datatype Option<T> = None | Some(value: T)

  /** A grid location `{x, y}`. */
  datatype Loc = Loc(x: int, y: int)

  /**
   * The tile map the search consumes: its dimensions, the first tile code that
   * counts as a wall, and the tile codes indexed `tiles[x][y]`.
   */
  datatype TileMap = TileMap(mapWidth: int, mapHeight: int, wallTileStart: int, tiles: seq<seq<int>>)
  {
    /** Non-negative dimensions and a tile grid that covers every in-map cell. */
    predicate Valid() {
      && 0 <= mapWidth
      && 0 <= mapHeight
      && mapWidth <= |tiles|
      && forall x :: 0 <= x < mapWidth ==> mapHeight <= |tiles[x]|
    }
  }

  /** Distance between two integers. */
  function Gap(a: int, b: int): nat {
    if a >= b then a - b else b - a
  }

  /** `v` bounded to `[min, max]`, testing the upper bound first. */
  function Clamp(v: int, min: int, max: int): (r: int)
    ensures min <= max ==> min <= r <= max
    ensures min <= v <= max ==> r == v
    ensures min <= max ==> forall w :: min <= w <= max ==> Gap(r, v) <= Gap(w, v)
    ensures v > max ==> r == max
  {
    if v > max then max
    else if v < min then min
    else v
  }

  /** The closed box `[0, mapWidth] x [0, mapHeight]` that clamping maps into. */
  predicate InBox(m: TileMap, p: Loc) {
    0 <= p.x <= m.mapWidth && 0 <= p.y <= m.mapHeight
  }

  /** The half-open range of cells that carry a tile code. */
  predicate InTiles(m: TileMap, x: int, y: int) {
    0 <= x < m.mapWidth && 0 <= y < m.mapHeight
  }

  /** Both coordinates clamped to the map, inclusive of the width and height themselves. */
  function MakeGridLocation(m: TileMap, raw: Loc): (r: Loc)
    ensures 0 <= m.mapWidth && 0 <= m.mapHeight ==> InBox(m, r)
    ensures InBox(m, raw) ==> r == raw
  {
    Loc(Clamp(raw.x, 0, m.mapWidth), Clamp(raw.y, 0, m.mapHeight))
  }

  /** Whether `(x, y)` is a wall; any coordinate off the tile grid is not. */
  function IsWallTile(m: TileMap, x: int, y: int): (r: bool)
    requires m.Valid()
    ensures r ==> InTiles(m, x, y)
    ensures InTiles(m, x, y) ==> (r <==> m.tiles[x][y] >= m.wallTileStart)
  {
    if 0 <= x < m.mapWidth && 0 <= y < m.mapHeight then
      m.tiles[x][y] >= m.wallTileStart
    else
      false
  }
}
