/**
 * The state updates that network/server.py and server.py share: the player
 * record a connection creates, the arena a move is clamped to, joining and
 * leaving, and the attack handler's effect on the enemies (the two servers
 * differ only in the damage they pass).
 */
module ServerRules {
  import opened Wrappers
  import opened Basics
  import opened Registry

  /** The arena a move is clamped to: x in [1, 40], y in [1, 20]. */
  const MinX: int := 1
  const MaxX: int := 40
  const MinY: int := 1
  const MaxY: int := 20

  /** The record of a freshly connected player. */
  const NewPlayer: Actor := Actor(5, 5, '@', 5)

  /** `max(lo, min(hi, v))`. */
  function Clamp(v: int, lo: int, hi: int): (r: int)
    requires lo <= hi
    ensures lo <= r <= hi
    ensures lo <= v <= hi ==> r == v
    ensures v < lo ==> r == lo
    ensures v > hi ==> r == hi
  {
    var capped := if hi < v then hi else v;
    if lo > capped then lo else capped
  }

  predicate InArena(players: map<string, Actor>) {
    forall k :: k in players ==> MinX <= players[k].x <= MaxX && MinY <= players[k].y <= MaxY
  }

  /** Connecting: the client's record is (re)set to a new player. */
  function Joined(players: map<string, Actor>, client: string): (r: map<string, Actor>)
    ensures InArena(players) ==> InArena(r)
  {
    players[client := NewPlayer]
  }

  /**
   * Joining and then leaving restores the registries, when the client and
   * the connection were not there before.
   */
  lemma JoinThenLeave(players: map<string, Actor>, connections: seq<Socket>, client: string, conn: Socket)
    requires client !in players && conn !in connections
    ensures Joined(players, client) - {client} == players
    ensures RemoveFirst(connections + [conn], conn) == connections
  {
    assert Joined(players, client) - {client} == players;
    assert (connections + [conn])[..|connections|] == connections;
    IndexOfIs(connections + [conn], conn, |connections|);
  }

  /**
   * The attack handler's effect on the enemies: the first enemy, in dict
   * order, standing on the player's position plus (dx, dy) loses `damage`
   * hp and is deleted once its hp is at most 0. `if target_enemy:` treats
   * the empty key as no target.
   */
  function Attack(players: map<string, Actor>, enemies: Dict<Actor>, client: string, dx: int, dy: int, damage: int)
    : (r: Dict<Actor>)
    requires Valid(enemies)
    ensures Valid(r)
  {
    if client !in players then enemies
    else
      var p := players[client];
      match FirstAt(enemies, p.x + dx, p.y + dy)
      case None => enemies
      case Some(id) =>
        if id == "" then enemies else Hit(enemies, id, damage)
  }

  /** `enemies[id]["hp"] -= damage`, then `del enemies[id]` when its hp is at most 0. */
  function Hit(enemies: Dict<Actor>, id: string, damage: int): (r: Dict<Actor>)
    requires Valid(enemies) && id in enemies.entries
    ensures Valid(r)
  {
    var e := enemies.entries[id];
    var hit := e.(hp := e.hp - damage);
    if hit.hp <= 0 then Remove(enemies, id) else Put(enemies, id, hit)
  }

  /**
   * The hit enemy loses exactly `damage` hp and is deleted exactly when
   * that leaves at most 0; every other enemy is untouched and keeps its
   * place in the order.
   */
  lemma HitEffect(enemies: Dict<Actor>, id: string, damage: int)
    requires Valid(enemies) && id in enemies.entries
    ensures var r := Hit(enemies, id, damage);
            && (id in r.entries <==> enemies.entries[id].hp - damage > 0)
            && (id in r.entries ==> r.entries[id] == enemies.entries[id].(hp := enemies.entries[id].hp - damage))
            && (forall k :: k != id ==> (k in r.entries <==> k in enemies.entries))
            && (forall k :: k != id && k in r.entries ==> r.entries[k] == enemies.entries[k])
            && r.keys == if id in r.entries then enemies.keys else Without(enemies.keys, id)
  {
  }

  /** An enemy at (x, y) with none before it in the order is the first one there. */
  lemma FirstAtIs(enemies: Dict<Actor>, x: int, y: int, id: string)
    requires Valid(enemies) && id in enemies.entries && At(enemies.entries[id], x, y)
    requires forall i, j :: 0 <= i < j < |enemies.keys| && enemies.keys[j] == id ==> !At(enemies.entries[enemies.keys[i]], x, y)
    ensures FirstAt(enemies, x, y) == Some(id)
  {
    var j :| 0 <= j < |enemies.keys| && enemies.keys[j] == id;
    var first := FirstIndexAt(enemies.keys, enemies.entries, x, y, 0);
    assert first == j;
  }

  /**
   * An attack on the cell of enemy id, when no enemy earlier in the dict
   * stands there, hits id (see HitEffect).
   */
  lemma AttackHits(players: map<string, Actor>, enemies: Dict<Actor>, client: string, dx: int, dy: int,
                   damage: int, id: string)
    requires Valid(enemies) && client in players && id in enemies.entries && id != ""
    requires At(enemies.entries[id], players[client].x + dx, players[client].y + dy)
    requires forall i, j :: 0 <= i < j < |enemies.keys| && enemies.keys[j] == id ==>
               !At(enemies.entries[enemies.keys[i]], players[client].x + dx, players[client].y + dy)
    ensures Attack(players, enemies, client, dx, dy, damage) == Hit(enemies, id, damage)
  {
    var x, y := players[client].x + dx, players[client].y + dy;
    FirstAtIs(enemies, x, y, id);
    AttackOnTarget(players, enemies, client, dx, dy, damage, Some(id));
  }

  /** The attack of a known client is decided by the first enemy at the attacked cell. */
  lemma AttackOnTarget(players: map<string, Actor>, enemies: Dict<Actor>, client: string, dx: int, dy: int,
                       damage: int, target: Option<string>)
    requires Valid(enemies) && client in players
    requires target == FirstAt(enemies, players[client].x + dx, players[client].y + dy)
    ensures target.Some? ==> target.value in enemies.entries
    ensures Attack(players, enemies, client, dx, dy, damage)
            == if target.Some? && target.value != "" then Hit(enemies, target.value, damage) else enemies
  {
  }

  /** An attack from an unknown client, or on a cell no enemy stands on, changes nothing. */
  lemma AttackMisses(players: map<string, Actor>, enemies: Dict<Actor>, client: string, dx: int, dy: int, damage: int)
    requires Valid(enemies)
    requires client !in players ||
             forall k :: k in enemies.entries ==>
               !At(enemies.entries[k], players[client].x + dx, players[client].y + dy)
    ensures Attack(players, enemies, client, dx, dy, damage) == enemies
  {
  }

  /** The search of the attack branch: the first enemy, in dict order, at (x, y). */
  method FindTarget(enemies: Dict<Actor>, x: int, y: int) returns (target: Option<string>)
    requires Valid(enemies)
    ensures target == FirstAt(enemies, x, y)
  {
    target := None;
    var ids := enemies.keys;
    var i := 0;
    while i < |ids|
      invariant 0 <= i <= |ids|
      invariant forall m :: 0 <= m < i ==> !At(enemies.entries[ids[m]], x, y)
    {
      if At(enemies.entries[ids[i]], x, y) {
        target := Some(ids[i]);
        break;
      }
      i := i + 1;
    }
  }

  /**
   * `enemies[id]["hp"] -= damage`, then `del enemies[id]` once its hp is at
   * most 0: the two updates of the attack branch, applied to the dict.
   */
  method ApplyHit(enemies: Dict<Actor>, id: string, damage: int) returns (r: Dict<Actor>)
    requires Valid(enemies) && id in enemies.entries
    ensures r == Hit(enemies, id, damage)
  {
    var e := enemies.entries[id];
    r := Put(enemies, id, e.(hp := e.hp - damage));
    if r.entries[id].hp <= 0 {
      r := Remove(r, id);
      assert r.entries == enemies.entries - {id};
    }
  }
}
