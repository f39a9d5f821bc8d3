/** The Player class of player.py: a position that moves only onto walkable tiles. */
module PlayerEntity {
  import WalledMap

  class Player {
    var x: int
    var y: int
    var glyph: char
    var hp: int

    /** `Player(x, y, char="@")`: the given position and glyph (`char`), 5 hit points. */
    constructor (x: int, y: int, glyph: char := '@')
      ensures this.x == x && this.y == y && this.glyph == glyph && hp == 5
    {
      this.x := x;
      this.y := y;
      this.glyph := glyph;
      hp := 5;
    }

    /** move: go to (x+dx, y+dy) exactly when the map says it is walkable; glyph and hp never change. */
    method Move(dx: int, dy: int, gameMap: WalledMap.GameMap)
      requires gameMap.Valid()
      modifies this`x, this`y
      ensures gameMap.IsWalkable(old(x) + dx, old(y) + dy) ==> x == old(x) + dx && y == old(y) + dy
      ensures !gameMap.IsWalkable(old(x) + dx, old(y) + dy) ==> x == old(x) && y == old(y)
    {
      var newX := x + dx;
      var newY := y + dy;
      if gameMap.IsWalkable(newX, newY) {
        x := newX;
        y := newY;
      }
    }

    /** attack: hands back the attack vector unchanged and touches no field. */
    function Attack(dx: int, dy: int): (vector: (int, int))
      ensures vector.0 == dx && vector.1 == dy
    {
      (dx, dy)
    }
  }
}
