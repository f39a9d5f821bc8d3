/**
 * Vocabulary shared by the two map generators and the object spawner: cells,
 * bounds, the border, the four neighbours, the border-drawing loops and the
 * stack-based flood fill from the start cell (1, 1).
 *
 * A map is a list of rows, `tiles[y][x]`, as in the source.
 */
module Grid {

  /** A cell (x, y): x is the column, y the row. */
  type Cell = (int, int)

  /** A tile grid: a list of rows of tile characters. */
  type Tiles = seq<seq<char>>

  const Floor: char := '.'
  const Wall: char := '#'

  /** The cell every flood fill starts from. */
  const Start: Cell := (1, 1)

  predicate InBounds(width: int, height: int, c: Cell) {
    0 <= c.0 < width && 0 <= c.1 < height
  }

  /** Row 0, row height-1, column 0 or column width-1. */
  predicate OnBorder(width: int, height: int, c: Cell) {
    InBounds(width, height, c) && (c.0 == 0 || c.1 == 0 || c.0 == width - 1 || c.1 == height - 1)
  }

  /** Rows 1..height-2 and columns 1..width-2: the cells the obstacle and repair loops visit. */
  predicate Interior(width: int, height: int, c: Cell) {
    1 <= c.0 <= width - 2 && 1 <= c.1 <= height - 2
  }

  /** The four neighbours, in the order the source visits them: (0,1), (0,-1), (1,0), (-1,0). */
  function Neighbours(c: Cell): (ns: seq<Cell>)
    ensures |ns| == 4
  {
    [(c.0, c.1 + 1), (c.0, c.1 - 1), (c.0 + 1, c.1), (c.0 - 1, c.1)]
  }

  /** Some orthogonal neighbour of c belongs to r. */
  predicate Touches(r: set<Cell>, c: Cell) {
    (c.0, c.1 + 1) in r || (c.0, c.1 - 1) in r || (c.0 + 1, c.1) in r || (c.0 - 1, c.1) in r
  }

  /** Exactly `height` rows of exactly `width` tiles. */
  predicate IsGrid(t: Tiles, width: int, height: int) {
    |t| == height && forall y :: 0 <= y < |t| ==> |t[y]| == width
  }

  /** The grid has at least `height` rows of at least `width` tiles. */
  predicate Covers(t: Tiles, width: int, height: int) {
    height <= |t| && forall y :: 0 <= y < height ==> width <= |t[y]|
  }

  /** Every tile inside the window is floor or wall. */
  predicate OnlyFloorAndWall(t: Tiles, width: int, height: int)
    requires Covers(t, width, height)
  {
    forall x, y :: 0 <= x < width && 0 <= y < height ==> t[y][x] == Floor || t[y][x] == Wall
  }

  /** The flood fill's test for a neighbour: inside the window and floor. */
  predicate IsFloor(t: Tiles, width: int, height: int, c: Cell) {
    InBounds(width, height, c) && c.1 < |t| && c.0 < |t[c.1]| && t[c.1][c.0] == Floor
  }

  /** No floor neighbour of a member of r lies outside r. */
  ghost predicate Closed(t: Tiles, width: int, height: int, r: set<Cell>) {
    forall c, n :: c in r && n in Neighbours(c) && IsFloor(t, width, height, n) ==> n in r
  }

  /**
   * r is what a flood fill from Start computes: it holds Start, every other
   * member is floor, it is closed, and it lies inside every closed set that
   * holds Start (so it is the set of cells joined to Start through floor).
   */
  ghost predicate IsFloodFill(t: Tiles, width: int, height: int, r: set<Cell>) {
    && Start in r
    && (forall c :: c in r && c != Start ==> IsFloor(t, width, height, c))
    && Closed(t, width, height, r)
    && (forall s: set<Cell> {:trigger Closed(t, width, height, s)} ::
          Start in s && Closed(t, width, height, s) ==> r <= s)
  }

  /** The flood fill result is determined by the grid. */
  lemma FloodFillUnique(t: Tiles, width: int, height: int, r1: set<Cell>, r2: set<Cell>)
    requires IsFloodFill(t, width, height, r1) && IsFloodFill(t, width, height, r2)
    ensures r1 == r2
  {
    assert Closed(t, width, height, r1) && Closed(t, width, height, r2);
  }

  /** The cells a flood fill can ever visit: the window and the start cell. */
  ghost function Universe(width: int, height: int): (u: set<Cell>)
    ensures forall c :: c in u <==> InBounds(width, height, c) || c == Start
  {
    var w := if width < 0 then 0 else width;
    var h := if height < 0 then 0 else height;
    (set x: int, y: int | 0 <= x < w && 0 <= y < h :: (x, y)) + {Start}
  }

  /** The floor neighbours of c, in visiting order. */
  function FloorNeighbours(t: Tiles, width: int, height: int, c: Cell): (ns: seq<Cell>)
    ensures forall n :: n in ns <==> n in Neighbours(c) && IsFloor(t, width, height, n)
  {
    var all := Neighbours(c);
    (if IsFloor(t, width, height, all[0]) then [all[0]] else [])
    + (if IsFloor(t, width, height, all[1]) then [all[1]] else [])
    + (if IsFloor(t, width, height, all[2]) then [all[2]] else [])
    + (if IsFloor(t, width, height, all[3]) then [all[3]] else [])
  }

  /** The inner loop of the flood fill: push every in-bounds floor neighbour of c. */
  method PushFloorNeighbours(t: Tiles, width: int, height: int, c: Cell, stack: seq<Cell>)
    returns (stack': seq<Cell>)
    requires Covers(t, width, height)
    ensures stack' == stack + FloorNeighbours(t, width, height, c)
  {
    stack' := stack;
    var all := Neighbours(c);
    for i := 0 to 4
      invariant stack' == stack + FloorPrefix(t, width, height, all, i)
    {
      var n := all[i];
      if 0 <= n.0 < width && 0 <= n.1 < height && t[n.1][n.0] == Floor {
        stack' := stack' + [n];
      }
    }
    FloorPrefixAll(t, width, height, c);
  }

  /** Testing all four neighbours in order gives the floor neighbours. */
  lemma FloorPrefixAll(t: Tiles, width: int, height: int, c: Cell)
    ensures FloorPrefix(t, width, height, Neighbours(c), 4) == FloorNeighbours(t, width, height, c)
  {
    var all := Neighbours(c);
    var step := (i: nat) requires i < 4 => if IsFloor(t, width, height, all[i]) then [all[i]] else [];
    assert FloorPrefix(t, width, height, all, 1) == step(0);
    assert FloorPrefix(t, width, height, all, 2) == step(0) + step(1);
    assert FloorPrefix(t, width, height, all, 3) == step(0) + step(1) + step(2);
    assert FloorPrefix(t, width, height, all, 4) == step(0) + step(1) + step(2) + step(3);
  }

  /** The floor cells among the first i of ns, in order. */
  ghost function FloorPrefix(t: Tiles, width: int, height: int, ns: seq<Cell>, i: nat): seq<Cell>
    requires i <= |ns|
  {
    if i == 0 then []
    else FloorPrefix(t, width, height, ns, i - 1) + (if IsFloor(t, width, height, ns[i - 1]) then [ns[i - 1]] else [])
  }

  /**
   * The flood fill of the source: pop a cell; skip it if already reached;
   * otherwise mark it and push its in-bounds floor neighbours. The start cell
   * itself is never tested for floor.
   */
  method FloodFill(t: Tiles, width: int, height: int) returns (reachable: set<Cell>)
    requires Covers(t, width, height)
    ensures IsFloodFill(t, width, height, reachable)
  {
    reachable := {};
    var stack := [Start];
    ghost var universe := Universe(width, height);
    while stack != []
      invariant forall c :: c in stack && c != Start ==> IsFloor(t, width, height, c)
      invariant forall c :: c in reachable && c != Start ==> IsFloor(t, width, height, c)
      invariant reachable <= universe
      invariant Start in reachable || Start in stack
      invariant Frontier(t, width, height, reachable, stack)
      invariant forall s: set<Cell> {:trigger Closed(t, width, height, s)} ::
                  Start in s && Closed(t, width, height, s) ==>
                    reachable <= s && forall c :: c in stack ==> c in s
      decreases universe - reachable, |stack|
    {
      var c := stack[|stack| - 1];
      assert c in stack && (c == Start || InBounds(width, height, c));
      FrontierPop(t, width, height, reachable, stack);
      stack := stack[..|stack| - 1];
      if c in reachable {
        continue;
      }
      assert c in universe;
      assert universe - (reachable + {c}) < universe - reachable;
      reachable := reachable + {c};
      stack := PushFloorNeighbours(t, width, height, c, stack);
    }
  }

  /** Every floor neighbour of a reached cell is reached or still on the stack. */
  ghost predicate Frontier(t: Tiles, width: int, height: int, reachable: set<Cell>, stack: seq<Cell>) {
    forall c, n :: c in reachable && n in Neighbours(c) && IsFloor(t, width, height, n) ==>
      n in reachable || n in stack
  }

  /**
   * Popping the top cell keeps the frontier: it is dropped when already
   * reached, and otherwise reached with its floor neighbours pushed.
   */
  lemma FrontierPop(t: Tiles, width: int, height: int, reachable: set<Cell>, stack: seq<Cell>)
    requires stack != [] && Frontier(t, width, height, reachable, stack)
    ensures var c := stack[|stack| - 1];
            var rest := stack[..|stack| - 1];
            && (c in reachable ==> Frontier(t, width, height, reachable, rest))
            && Frontier(t, width, height, reachable + {c}, rest + FloorNeighbours(t, width, height, c))
  {
    var c := stack[|stack| - 1];
    var rest := stack[..|stack| - 1];
    assert forall n :: n in stack ==> n == c || n in rest;
  }

  /**
   * The border loops of the source: set row 0, row height-1, column 0 and
   * column width-1 to wall and leave every other tile as it was.
   */
  method DrawBorder(t: Tiles, width: int, height: int) returns (r: Tiles)
    requires width >= 1 && height >= 1 && IsGrid(t, width, height)
    ensures IsGrid(r, width, height)
    ensures forall x, y :: 0 <= x < width && 0 <= y < height ==>
              r[y][x] == if OnBorder(width, height, (x, y)) then Wall else t[y][x]
  {
    r := t;
    for x := 0 to width
      invariant IsGrid(r, width, height)
      invariant forall xx, yy :: 0 <= xx < width && 0 <= yy < height ==>
                  r[yy][xx] == if (yy == 0 || yy == height - 1) && xx < x then Wall else t[yy][xx]
    {
      r := r[0 := r[0][x := Wall]];
      r := r[height - 1 := r[height - 1][x := Wall]];
    }
    for y := 0 to height
      invariant IsGrid(r, width, height)
      invariant forall xx, yy :: 0 <= xx < width && 0 <= yy < height ==>
                  r[yy][xx] == if yy == 0 || yy == height - 1 || ((xx == 0 || xx == width - 1) && yy < y)
                               then Wall else t[yy][xx]
    {
      r := r[y := r[y][0 := Wall]];
      r := r[y := r[y][width - 1 := Wall]];
    }
  }

  /** A grid of the given size holding only floor (the source's list comprehension). */
  function AllFloor(width: nat, height: nat): (t: Tiles)
    ensures IsGrid(t, width, height)
    ensures forall x, y :: 0 <= x < width && 0 <= y < height ==> t[y][x] == Floor
  {
    seq(height, _ => seq(width, _ => Floor))
  }
}
