/** The Enemy class of enemy.py: a position, a glyph and hit points that damage lowers. */
module EnemyEntity {

  class Enemy {
    var x: int
    var y: int
    var glyph: char
    var hp: int

    /** `Enemy(x, y, char="E", hp=3)`. */
    constructor (x: int, y: int, glyph: char := 'E', hp: int := 3)
      ensures this.x == x && this.y == y && this.glyph == glyph && this.hp == hp
    {
      this.x := x;
      this.y := y;
      this.glyph := glyph;
      this.hp := hp;
    }

    /** take_damage(damage=1): hp drops by exactly damage, with no clamp at zero. */
    method TakeDamage(damage: int := 1)
      modifies this`hp
      ensures hp == old(hp) - damage
    {
      hp := hp - damage;
    }
  }
}
