/**
 * World spawning of game/enemy.py. spawn_enemies builds two enemies at fixed
 * positions pulled inside the world. spawn_objects flood-fills the given map
 * from (1, 1) and places a tree on interior cells that the random draw
 * selects, keeping only reachable cells when a map is given. The draw
 * `random.random() < 0.02` is the oracle `place`; seeding the generator is
 * not modelled.
 */
module Spawn {
  import opened Wrappers
  import opened Basics
  import opened Registry
  import opened Grid
  import OpenWorldMap

  /** The enemy record both enemies start from. */
  function NewEnemy(x: int, y: int): Actor {
    Actor(x, y, 'E', 3)
  }

  /** spawn_enemies: two enemies, inserted in this order. */
  function SpawnEnemies(width: int, height: int): (d: Dict<Actor>)
    ensures Valid(d)
  {
    Dict(["enemy_1", "enemy_2"],
         map["enemy_1" := NewEnemy(Min(width - 2, 10), Min(height - 2, 10)),
             "enemy_2" := NewEnemy(Min(width - 2, 20), Min(height - 2, 15))])
  }

  /**
   * The enemies are exactly enemy_1 then enemy_2, each drawn 'E' with 3 hp,
   * both at most width - 2 across and height - 2 down, and at (10, 10) and
   * (20, 15) whenever the world is large enough for those.
   */
  lemma SpawnedEnemies(width: int, height: int)
    ensures var d := SpawnEnemies(width, height);
            && d.keys == ["enemy_1", "enemy_2"]
            && d.entries.Keys == {"enemy_1", "enemy_2"}
            && (forall k :: k in d.entries ==> d.entries[k].glyph == 'E' && d.entries[k].hp == 3)
            && (forall k :: k in d.entries ==> d.entries[k].x <= width - 2 && d.entries[k].y <= height - 2)
            && (width >= 22 && height >= 17 ==>
                  At(d.entries["enemy_1"], 10, 10) && At(d.entries["enemy_2"], 20, 15))
  {
  }

  /** The character of a decimal digit. */
  function DigitChar(d: nat): (c: char)
    requires d < 10
    ensures '0' <= c <= '9'
  {
    ('0' as int + d) as char
  }

  predicate IsDecimal(s: string) {
    forall i :: 0 <= i < |s| ==> '0' <= s[i] <= '9'
  }

  /** `str(n)` for a natural number. */
  function Decimal(n: nat): (s: string)
    ensures |s| >= 1 && IsDecimal(s)
  {
    if n < 10 then [DigitChar(n)] else Decimal(n / 10) + [DigitChar(n % 10)]
  }

  /** `int(s)` for a string of decimal digits. */
  function ParseDecimal(s: string): nat
    requires IsDecimal(s)
  {
    if s == [] then 0 else 10 * ParseDecimal(s[..|s| - 1]) + (s[|s| - 1] as int - '0' as int)
  }

  /** Reading back the decimal form of n gives n. */
  lemma {:induction false} DecimalRoundTrip(n: nat)
    ensures ParseDecimal(Decimal(n)) == n
  {
    if n >= 10 {
      DecimalRoundTrip(n / 10);
      var s := Decimal(n);
      assert s[..|s| - 1] == Decimal(n / 10);
    }
  }

  /** The dict key of the object at (x, y): `f"obj_{x}_{y}"`. */
  function ObjectKey(x: nat, y: nat): string {
    "obj_" + Decimal(x) + "_" + Decimal(y)
  }

  /** The position of the first '_' in s. */
  function FirstSeparator(s: string): (i: nat)
    requires '_' in s
    ensures i < |s| && s[i] == '_'
  {
    if s[0] == '_' then 0 else 1 + FirstSeparator(s[1..])
  }

  /** In a digit string followed by '_', the first '_' is the one after the digits. */
  lemma {:induction false} FirstSeparatorAfterDigits(a: string, b: string)
    requires IsDecimal(a)
    ensures FirstSeparator(a + "_" + b) == |a|
  {
    var s := a + "_" + b;
    if a != [] {
      assert s[0] == a[0] != '_';
      assert s[1..] == a[1..] + "_" + b;
      FirstSeparatorAfterDigits(a[1..], b);
    }
  }

  /** Two digit strings joined by '_' can be taken apart again. */
  lemma SeparatorSplit(a: string, b: string, c: string, d: string)
    requires IsDecimal(a) && IsDecimal(b) && IsDecimal(c) && IsDecimal(d)
    requires a + "_" + b == c + "_" + d
    ensures a == c && b == d
  {
    var s := a + "_" + b;
    FirstSeparatorAfterDigits(a, b);
    FirstSeparatorAfterDigits(c, d);
    assert |a| == |c|;
    assert a == s[..|a|] == c;
    assert b == s[|a| + 1..] == d;
  }

  /** Different cells have different keys, so one cell holds at most one object. */
  lemma ObjectKeyInjective(x1: nat, y1: nat, x2: nat, y2: nat)
    requires ObjectKey(x1, y1) == ObjectKey(x2, y2)
    ensures x1 == x2 && y1 == y2
  {
    var k1 := ObjectKey(x1, y1);
    assert k1[4..] == Decimal(x1) + "_" + Decimal(y1);
    assert ObjectKey(x2, y2)[4..] == Decimal(x2) + "_" + Decimal(y2);
    SeparatorSplit(Decimal(x1), Decimal(y1), Decimal(x2), Decimal(y2));
    DecimalRoundTrip(x1);
    DecimalRoundTrip(x2);
    DecimalRoundTrip(y1);
    DecimalRoundTrip(y2);
  }

  /** A tree stored under the key of its own cell. */
  predicate Tree(k: string, t: Thing) {
    t.x >= 0 && t.y >= 0 && k == ObjectKey(t.x, t.y) && t.glyph == 'T' && t.kind == "tree"
  }

  /**
   * Whether spawn_objects puts a tree on (x, y): an interior cell, reachable
   * when a map was given, and selected by the draw.
   */
  predicate Chosen(width: int, height: int, reachable: Option<set<Cell>>, place: (int, int) -> bool, x: int, y: int) {
    && 1 <= x <= width - 2 && 1 <= y <= height - 2
    && (reachable.None? || (x, y) in reachable.value)
    && place(x, y)
  }

  /** The objects hold a tree exactly on the chosen cells visited before row y, column x. */
  ghost predicate PlacedBefore(objects: map<string, Thing>, width: int, height: int, reachable: Option<set<Cell>>,
                         place: (int, int) -> bool, x: int, y: int)
  {
    && (forall cx: nat, cy: nat :: ObjectKey(cx, cy) in objects <==>
          Chosen(width, height, reachable, place, cx, cy) && (cy < y || (cy == y && cx < x)))
    && (forall k :: k in objects ==> Tree(k, objects[k]))
  }

  /** The result of spawn_objects: a tree on exactly the chosen cells, and nothing else. */
  ghost predicate IsPlacement(objects: map<string, Thing>, width: int, height: int, reachable: Option<set<Cell>>,
                        place: (int, int) -> bool)
  {
    && (forall x: nat, y: nat :: ObjectKey(x, y) in objects <==> Chosen(width, height, reachable, place, x, y))
    && (forall k :: k in objects ==> Tree(k, objects[k]))
  }

  /** Placing the tree of cell (x, y) extends the cells covered by one. */
  lemma PlaceStep(objects: map<string, Thing>, width: int, height: int, reachable: Option<set<Cell>>,
                  place: (int, int) -> bool, x: nat, y: nat)
    requires PlacedBefore(objects, width, height, reachable, place, x, y)
    ensures var next := if Chosen(width, height, reachable, place, x, y)
                        then objects[ObjectKey(x, y) := Thing(x, y, 'T', "tree")] else objects;
            PlacedBefore(next, width, height, reachable, place, x + 1, y)
  {
    forall cx: nat, cy: nat | ObjectKey(cx, cy) == ObjectKey(x, y)
      ensures cx == x && cy == y
    {
      ObjectKeyInjective(cx, cy, x, y);
    }
  }

  /** spawn_objects' inner loop over the interior cells of row y. */
  method PlaceRow(objects: map<string, Thing>, width: int, height: int, reach: set<Cell>, restricted: bool,
                  place: (int, int) -> bool, y: nat)
    returns (placed: map<string, Thing>)
    requires 1 <= y <= height - 2
    requires PlacedBefore(objects, width, height, if restricted then Some(reach) else None, place, 1, y)
    ensures PlacedBefore(placed, width, height, if restricted then Some(reach) else None, place, 0, y + 1)
  {
    ghost var reachable := if restricted then Some(reach) else None;
    placed := objects;
    var x := 1;
    while x < width - 1
      invariant 1 <= x
      invariant PlacedBefore(placed, width, height, reachable, place, x, y)
    {
      PlaceStep(placed, width, height, reachable, place, x, y);
      if !restricted || (x, y) in reach {
        if place(x, y) {
          placed := placed[ObjectKey(x, y) := Thing(x, y, 'T', "tree")];
        }
      }
      x := x + 1;
    }
  }

  /**
   * spawn_objects. Without a map every interior cell is a candidate; with
   * one, only the cells the flood fill from (1, 1) reaches. The returned
   * ghost set is that flood fill.
   */
  method SpawnObjects(width: int, height: int, gameMap: OpenWorldMap.GameMap?, place: (int, int) -> bool)
    returns (objects: map<string, Thing>, reachable: set<Cell>)
    requires gameMap != null ==> Covers(gameMap.tiles, width, height)
    ensures gameMap != null ==> IsFloodFill(gameMap.tiles, width, height, reachable)
    ensures IsPlacement(objects, width, height, if gameMap == null then None else Some(reachable), place)
  {
    var reach: set<Cell> := {};
    if gameMap != null {
      reach := FloodFill(gameMap.tiles, width, height);
    }
    reachable := reach;
    var restricted := gameMap != null;
    objects := map[];
    var y := 1;
    while y < height - 1
      invariant 1 <= y
      invariant PlacedBefore(objects, width, height, if restricted then Some(reach) else None, place, 0, y)
    {
      objects := PlaceRow(objects, width, height, reach, restricted, place, y);
      y := y + 1;
    }
  }

  /** With a map, every object stands on a cell the flood fill reached. */
  lemma ObjectsReachable(objects: map<string, Thing>, width: int, height: int, reachable: set<Cell>,
                         place: (int, int) -> bool)
    requires IsPlacement(objects, width, height, Some(reachable), place)
    ensures forall k :: k in objects ==> (objects[k].x, objects[k].y) in reachable
    ensures forall k :: k in objects ==> 1 <= objects[k].x <= width - 2 && 1 <= objects[k].y <= height - 2
  {
    forall k | k in objects
      ensures (objects[k].x, objects[k].y) in reachable
      ensures 1 <= objects[k].x <= width - 2 && 1 <= objects[k].y <= height - 2
    {
      assert ObjectKey(objects[k].x, objects[k].y) in objects;
    }
  }

  /** No two objects share a cell. */
  lemma OneObjectPerCell(objects: map<string, Thing>, width: int, height: int, reachable: Option<set<Cell>>,
                         place: (int, int) -> bool)
    requires IsPlacement(objects, width, height, reachable, place)
    ensures forall k1, k2 :: (k1 in objects && k2 in objects &&
              objects[k1].x == objects[k2].x && objects[k1].y == objects[k2].y) ==> k1 == k2
  {
  }
}
