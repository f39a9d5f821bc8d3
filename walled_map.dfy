/**
 * The older fixed map of map.py: floor inside a border of walls, plus a wall
 * down the middle column that leaves a gap at row 1 and at row height-2.
 */
module WalledMap {
  import opened Grid

  /** The cells create_walls turns into wall: the border and column width/2 for rows 2..height-3. */
  predicate IsWallCell(width: int, height: int, x: int, y: int) {
    OnBorder(width, height, (x, y)) || (x == width / 2 && 2 <= y <= height - 3)
  }

  class GameMap {
    const width: nat
    const height: nat
    var tiles: Tiles

    /** The tiles are exactly the walled layout. */
    ghost predicate Valid()
      reads this
    {
      && IsGrid(tiles, width, height)
      && forall x, y :: 0 <= x < width && 0 <= y < height ==>
           tiles[y][x] == if IsWallCell(width, height, x, y) then Wall else Floor
    }

    /** `GameMap(width, height)`: all floor, then create_walls. */
    constructor (width: nat, height: nat)
      requires width >= 1 && height >= 1
      ensures Valid() && this.width == width && this.height == height
    {
      this.width := width;
      this.height := height;
      tiles := AllFloor(width, height);
      new;
      CreateWalls();
    }

    /**
     * create_walls: the border loops, then the middle column from row 2 to
     * row height-3. Called by the constructor on the all-floor grid, which
     * it turns into a valid map.
     */
    method CreateWalls()
      requires width >= 1 && height >= 1 && IsGrid(tiles, width, height)
      modifies this`tiles
      ensures IsGrid(tiles, width, height)
      ensures (forall x, y :: 0 <= x < width && 0 <= y < height ==> old(tiles)[y][x] == Floor) ==> Valid()
      ensures forall x, y :: 0 <= x < width && 0 <= y < height ==>
                tiles[y][x] == if IsWallCell(width, height, x, y) then Wall else old(tiles)[y][x]
    {
      tiles := DrawBorder(tiles, width, height);
      var mid := width / 2;
      var y := 2;
      while y < height - 2
        invariant 2 <= y && (height >= 4 ==> y <= height - 2)
        invariant IsGrid(tiles, width, height)
        invariant forall xx, yy :: 0 <= xx < width && 0 <= yy < height ==>
                    tiles[yy][xx] == if OnBorder(width, height, (xx, yy)) || (xx == mid && 2 <= yy < y) then Wall
                                     else old(tiles)[yy][xx]
      {
        tiles := tiles[y := tiles[y][mid := Wall]];
        y := y + 1;
      }
    }

    /** is_walkable: false outside the grid; inside, true exactly when the tile is not a wall. */
    function IsWalkable(x: int, y: int): (walkable: bool)
      reads this
      requires Valid()
      ensures !InBounds(width, height, (x, y)) ==> !walkable
      ensures OnBorder(width, height, (x, y)) ==> !walkable
      ensures InBounds(width, height, (x, y)) ==> (walkable <==> !IsWallCell(width, height, x, y))
    {
      if 0 <= x < width && 0 <= y < height then tiles[y][x] != Wall else false
    }
  }

  /**
   * The middle wall does not cut the map in two: on a map at least 3 by 3 the
   * middle column is open at rows 1 and height-2, and closed in between.
   */
  lemma MiddleColumnGaps(m: GameMap)
    requires m.Valid() && m.width >= 3 && m.height >= 3
    ensures m.IsWalkable(m.width / 2, 1) && m.IsWalkable(m.width / 2, m.height - 2)
    ensures forall y :: 2 <= y <= m.height - 3 ==> !m.IsWalkable(m.width / 2, y)
  {
  }
}
