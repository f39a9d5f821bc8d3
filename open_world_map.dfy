/**
 * The bounded map of game/map.py: a border of walls, random interior
 * obstacles, a flood fill from (1, 1) and a repair pass that opens every
 * obstacle next to a reached cell. The random draws `random.random() < 0.1`
 * are an input: `obstacle(x, y)` says whether the draw for interior cell
 * (x, y) placed an obstacle.
 */
module OpenWorldMap {
  import opened Grid

  /** The tile the border and obstacle loops leave at (x, y). */
  function ObstacleTile(width: int, height: int, obstacle: (int, int) -> bool, x: int, y: int): char {
    if OnBorder(width, height, (x, y)) then Wall
    else if obstacle(x, y) then Wall
    else Floor
  }

  /** The grid before the flood fill: border walls and the interior obstacles the oracle chose. */
  function ObstacleGrid(width: nat, height: nat, obstacle: (int, int) -> bool): (g: Tiles)
    ensures IsGrid(g, width, height)
    ensures forall x, y :: 0 <= x < width && 0 <= y < height ==> g[y][x] == ObstacleTile(width, height, obstacle, x, y)
  {
    seq(height, y => seq(width, x => ObstacleTile(width, height, obstacle, x, y)))
  }

  /** What the repair pass makes of one tile: an interior wall next to a reached cell becomes floor. */
  function RepairedTile(g: Tiles, width: int, height: int, reach: set<Cell>, x: int, y: int): char
    requires Covers(g, width, height) && InBounds(width, height, (x, y))
  {
    if Interior(width, height, (x, y)) && g[y][x] == Wall && Touches(reach, (x, y)) then Floor else g[y][x]
  }

  /** The grid after the repair pass. */
  function Repaired(g: Tiles, width: nat, height: nat, reach: set<Cell>): (r: Tiles)
    requires IsGrid(g, width, height)
    ensures IsGrid(r, width, height)
    ensures forall x, y :: 0 <= x < width && 0 <= y < height ==> r[y][x] == RepairedTile(g, width, height, reach, x, y)
  {
    seq(height, y requires 0 <= y < height =>
      seq(width, x requires 0 <= x < width => RepairedTile(g, width, height, reach, x, y)))
  }

  /** Two grids of one size that agree on every tile are equal. */
  lemma {:induction false} SameTiles(a: Tiles, b: Tiles, width: int, height: int)
    requires IsGrid(a, width, height) && IsGrid(b, width, height)
    requires forall x, y :: 0 <= x < width && 0 <= y < height ==> a[y][x] == b[y][x]
    ensures a == b
  {
    forall y | 0 <= y < height
      ensures a[y] == b[y]
    {
      assert forall x :: 0 <= x < width ==> a[y][x] == b[y][x];
    }
  }

  /** The repair pass turns walls into floor and never floor into wall. */
  lemma RepairOnlyOpens(g: Tiles, width: nat, height: nat, reach: set<Cell>)
    requires IsGrid(g, width, height)
    ensures forall x, y :: 0 <= x < width && 0 <= y < height && g[y][x] == Floor ==>
              Repaired(g, width, height, reach)[y][x] == Floor
    ensures forall x, y :: 0 <= x < width && 0 <= y < height && Repaired(g, width, height, reach)[y][x] != g[y][x] ==>
              g[y][x] == Wall && Repaired(g, width, height, reach)[y][x] == Floor
  {
  }

  /** The inner loop of the repair pass: does some neighbour of c lie in reach? */
  method AnyNeighbourIn(reach: set<Cell>, c: Cell) returns (found: bool)
    ensures found <==> Touches(reach, c)
  {
    found := false;
    var ns := Neighbours(c);
    for i := 0 to 4
      invariant found <==> exists j :: 0 <= j < i && ns[j] in reach
    {
      if ns[i] in reach {
        found := true;
        break;
      }
    }
    assert found <==> ns[0] in reach || ns[1] in reach || ns[2] in reach || ns[3] in reach;
  }

  /**
   * The obstacle loops: on the bordered floor grid, every interior cell whose
   * draw came up becomes wall. The result is the obstacle grid.
   */
  method PlaceObstacles(width: nat, height: nat, obstacle: (int, int) -> bool) returns (grid: Tiles)
    requires width >= 1 && height >= 1
    ensures grid == ObstacleGrid(width, height, obstacle)
  {
    grid := AllFloor(width, height);
    grid := DrawBorder(grid, width, height);
    var y := 1;
    while y < height - 1
      invariant 1 <= y && (height >= 2 ==> y <= height - 1)
      invariant IsGrid(grid, width, height)
      invariant forall xx, yy :: 0 <= xx < width && 0 <= yy < height ==>
                  grid[yy][xx] == if OnBorder(width, height, (xx, yy)) || (yy < y && obstacle(xx, yy)) then Wall else Floor
    {
      var x := 1;
      while x < width - 1
        invariant 1 <= x && (width >= 2 ==> x <= width - 1)
        invariant IsGrid(grid, width, height)
        invariant forall xx, yy :: 0 <= xx < width && 0 <= yy < height ==>
                    grid[yy][xx] == if OnBorder(width, height, (xx, yy)) || ((yy < y || (yy == y && xx < x)) && obstacle(xx, yy))
                                    then Wall else Floor
      {
        if obstacle(x, y) {
          grid := grid[y := grid[y][x := Wall]];
        }
        x := x + 1;
      }
      y := y + 1;
    }
    SameTiles(grid, ObstacleGrid(width, height, obstacle), width, height);
  }

  /**
   * The repair loops: every interior wall of g with a neighbour in reach
   * becomes floor; each tile is tested on its value before the pass.
   */
  method RepairPass(g: Tiles, width: nat, height: nat, reach: set<Cell>) returns (grid: Tiles)
    requires IsGrid(g, width, height)
    ensures grid == Repaired(g, width, height, reach)
  {
    grid := g;
    var y := 1;
    while y < height - 1
      invariant 1 <= y && (height >= 2 ==> y <= height - 1)
      invariant IsGrid(grid, width, height)
      invariant forall xx, yy :: 0 <= xx < width && 0 <= yy < height ==>
                  grid[yy][xx] == if yy < y then RepairedTile(g, width, height, reach, xx, yy) else g[yy][xx]
    {
      var x := 1;
      while x < width - 1
        invariant 1 <= x && (width >= 2 ==> x <= width - 1)
        invariant IsGrid(grid, width, height)
        invariant forall xx, yy :: 0 <= xx < width && 0 <= yy < height ==>
                    grid[yy][xx] == if yy < y || (yy == y && xx < x) then RepairedTile(g, width, height, reach, xx, yy)
                                    else g[yy][xx]
      {
        if grid[y][x] == Wall {
          var touches := AnyNeighbourIn(reach, (x, y));
          if touches {
            grid := grid[y := grid[y][x := Floor]];
          }
        }
        x := x + 1;
      }
      y := y + 1;
    }
    SameTiles(grid, Repaired(g, width, height, reach), width, height);
  }

  /**
   * generate_open_world: border, obstacles, flood fill, repair. The result is
   * the obstacle grid repaired around the flood-fill set, so the border stays
   * wall, every tile is floor or wall, floor never turns into wall and every
   * interior cell next to a reached cell is floor.
   */
  method GenerateOpenWorld(width: nat, height: nat, obstacle: (int, int) -> bool)
    returns (grid: Tiles, ghost reachable: set<Cell>)
    requires width >= 1 && height >= 1
    ensures IsFloodFill(ObstacleGrid(width, height, obstacle), width, height, reachable)
    ensures grid == Repaired(ObstacleGrid(width, height, obstacle), width, height, reachable)
    ensures IsGrid(grid, width, height) && OnlyFloorAndWall(grid, width, height)
    ensures forall x, y :: OnBorder(width, height, (x, y)) ==> grid[y][x] == Wall
    ensures forall x, y :: Interior(width, height, (x, y)) && !obstacle(x, y) ==> grid[y][x] == Floor
    ensures forall x, y :: Interior(width, height, (x, y)) && Touches(reachable, (x, y)) ==> grid[y][x] == Floor
  {
    var og := PlaceObstacles(width, height, obstacle);
    var reach := FloodFill(og, width, height);
    reachable := reach;
    grid := RepairPass(og, width, height, reach);
  }

  /**
   * The map of game/map.py. `reachable` records the flood-fill set of an
   * open-world generation; the source does not keep it.
   */
  class GameMap {
    const width: nat
    const height: nat
    var tiles: Tiles
    ghost const openWorld: bool
    ghost var reachable: set<Cell>

    /**
     * The map invariant: the size is right, the border is wall, every tile is
     * floor or wall; an open world has floor on every reached cell but the
     * start and on every interior cell next to a reached one; a closed world
     * has floor everywhere inside the border.
     */
    ghost predicate Valid()
      reads this
    {
      && IsGrid(tiles, width, height)
      && OnlyFloorAndWall(tiles, width, height)
      && (forall x, y :: OnBorder(width, height, (x, y)) ==> tiles[y][x] == Wall)
      && (openWorld ==> forall c :: c in reachable && c != Start ==> IsFloor(tiles, width, height, c))
      && (openWorld ==> forall x, y :: Interior(width, height, (x, y)) && Touches(reachable, (x, y)) ==> tiles[y][x] == Floor)
      && (!openWorld ==> forall x, y :: Interior(width, height, (x, y)) ==> tiles[y][x] == Floor)
    }

    /**
     * `GameMap(width, height, open_world)`; the seed is replaced by the
     * obstacle oracle. With open_world the tiles are the generated world,
     * otherwise floor inside a border of walls.
     */
    constructor (width: nat, height: nat, openWorld: bool, obstacle: (int, int) -> bool)
      requires width >= 1 && height >= 1
      ensures Valid()
      ensures this.width == width && this.height == height && this.openWorld == openWorld
      ensures openWorld ==> IsFloodFill(ObstacleGrid(width, height, obstacle), width, height, reachable)
      ensures openWorld ==> tiles == Repaired(ObstacleGrid(width, height, obstacle), width, height, reachable)
      ensures !openWorld ==> forall x, y :: 0 <= x < width && 0 <= y < height ==>
                tiles[y][x] == if OnBorder(width, height, (x, y)) then Wall else Floor
    {
      this.width := width;
      this.height := height;
      this.openWorld := openWorld;
      new;
      if openWorld {
        ghost var r;
        tiles, r := GenerateOpenWorld(width, height, obstacle);
        reachable := r;
        RepairOnlyOpens(ObstacleGrid(width, height, obstacle), width, height, r);
      } else {
        tiles := AllFloor(width, height);
        reachable := {};
        CreateWalls();
      }
    }

    /**
     * create_walls: a border of walls around the current tiles. Called by
     * the constructor on the all-floor grid of a map that is not an open
     * world, which it turns into a valid map.
     */
    method CreateWalls()
      requires width >= 1 && height >= 1 && IsGrid(tiles, width, height)
      modifies this`tiles
      ensures IsGrid(tiles, width, height)
      ensures !openWorld && (forall x, y :: 0 <= x < width && 0 <= y < height ==> old(tiles)[y][x] == Floor) ==> Valid()
      ensures forall x, y :: 0 <= x < width && 0 <= y < height ==>
                tiles[y][x] == if OnBorder(width, height, (x, y)) then Wall else old(tiles)[y][x]
    {
      tiles := DrawBorder(tiles, width, height);
    }

    /**
     * is_walkable: false outside the grid; inside, true exactly on floor. So
     * the border is never walkable, and in an open world every reached cell
     * but the start, and every interior cell next to a reached one, is.
     */
    function IsWalkable(x: int, y: int): (walkable: bool)
      reads this
      requires Valid()
      ensures !InBounds(width, height, (x, y)) ==> !walkable
      ensures InBounds(width, height, (x, y)) ==> (walkable <==> tiles[y][x] == Floor)
      ensures OnBorder(width, height, (x, y)) ==> !walkable
      ensures openWorld && (x, y) in reachable && (x, y) != Start ==> walkable
      ensures openWorld && Interior(width, height, (x, y)) && Touches(reachable, (x, y)) ==> walkable
      ensures !openWorld ==> (walkable <==> Interior(width, height, (x, y)))
    {
      if 0 <= x < width && 0 <= y < height then tiles[y][x] == Floor else false
    }
  }
}
