/**
 * The older server of server.py. It keeps players, enemies and connections
 * (no objects), spawns its two enemies at fixed positions, and differs from
 * network/server.py in two rules: an attack always deals 1 damage, whatever
 * the message carries, and a move is clamped to the arena but never blocked.
 * As there, each block run under `state_lock` is one method, messages arrive
 * decoded and sends succeed or fail by the `sendOk` oracle.
 */
module LegacyServer {
  import opened Wrappers
  import opened Basics
  import opened Registry
  import opened Protocol
  import opened ServerRules
  import Spawn

  /** The server's state: players, enemies and connections. */
  datatype World = World(players: map<string, Actor>, enemies: Dict<Actor>, connections: seq<Socket>)

  /** spawn_enemies: enemy_1 at (10, 10) and enemy_2 at (20, 15), both 'E' with 3 hp. */
  function Spawned(enemies: Dict<Actor>): (r: Dict<Actor>)
    requires Valid(enemies)
    ensures Valid(r)
  {
    Put(Put(enemies, "enemy_1", Actor(10, 10, 'E', 3)), "enemy_2", Actor(20, 15, 'E', 3))
  }

  /**
   * Spawning sets exactly the two enemies and leaves every other enemy as it
   * was; into an empty dict it gives the enemies game/enemy.py spawns in any
   * world of at least 22 by 17.
   */
  lemma SpawnedEffect(enemies: Dict<Actor>, width: int, height: int)
    requires Valid(enemies)
    ensures var r := Spawned(enemies);
            && r.entries == enemies.entries["enemy_1" := Actor(10, 10, 'E', 3)]["enemy_2" := Actor(20, 15, 'E', 3)]
            && (enemies.keys == [] && width >= 22 && height >= 17 ==> r == Spawn.SpawnEnemies(width, height))
  {
    if enemies.keys == [] && width >= 22 && height >= 17 {
      var e1 := Actor(10, 10, 'E', 3);
      var e2 := Actor(20, 15, 'E', 3);
      assert enemies.entries == map[];
      assert Spawn.NewEnemy(Min(width - 2, 10), Min(height - 2, 10)) == e1;
      assert Spawn.NewEnemy(Min(width - 2, 20), Min(height - 2, 15)) == e2;
      assert Spawned(enemies).keys == ["enemy_1", "enemy_2"];
      assert Spawned(enemies).entries == map["enemy_1" := e1, "enemy_2" := e2];
    }
  }

  function Connected(w: World, client: string, conn: Socket): World {
    w.(players := Joined(w.players, client), connections := w.connections + [conn])
  }

  function Disconnected(w: World, client: string, conn: Socket): World {
    w.(connections := RemoveFirst(w.connections, conn), players := w.players - {client})
  }

  /** The move handler: the player goes to the clamped target, whatever stands there. */
  function Move(w: World, client: string, dx: int, dy: int): World {
    if client !in w.players then w
    else
      var p := w.players[client];
      w.(players := w.players[client := p.(x := Clamp(p.x + dx, MinX, MaxX), y := Clamp(p.y + dy, MinY, MaxY))])
  }

  /**
   * One decoded line: a truthy `attack` makes it an attack for 1 damage,
   * anything else a move; `dx` and `dy` default to 0, and a value that is
   * not an integer raises TypeError, which the handler catches.
   */
  function Dispatch(w: World, client: string, msg: Message): (r: World)
    requires Valid(w.enemies)
    ensures Valid(r.enemies)
  {
    match msg
    case Malformed => w
    case Command(attack, dx, dy, _) =>
      var ox := ValueOr(dx, 0);
      var oy := ValueOr(dy, 0);
      if !(ox.Some? && oy.Some?) then w
      else if attack then w.(enemies := Attack(w.players, w.enemies, client, ox.value, oy.value, 1))
      else Move(w, client, ox.value, oy.value)
  }

  /** The lines of one receive, handled in order. */
  function ApplyLines(w: World, client: string, lines: seq<string>, decode: string -> Message): (r: World)
    requires Valid(w.enemies)
    ensures Valid(r.enemies)
  {
    if lines == [] then w
    else Dispatch(ApplyLines(w, client, lines[..|lines| - 1], decode), client, decode(lines[|lines| - 1]))
  }

  lemma ApplyLinesSnoc(w: World, client: string, lines: seq<string>, line: string, decode: string -> Message)
    requires Valid(w.enemies)
    ensures ApplyLines(w, client, lines + [line], decode)
            == Dispatch(ApplyLines(w, client, lines, decode), client, decode(line))
  {
    assert (lines + [line])[..|lines|] == lines;
  }

  /**
   * A move of a known client puts it on the clamped target even when an
   * enemy stands there; nothing else changes.
   */
  lemma MoveEffect(w: World, client: string, dx: int, dy: int)
    requires client in w.players
    ensures var p := w.players[client];
            var r := Move(w, client, dx, dy);
            && r.players == w.players[client := p.(x := Clamp(p.x + dx, MinX, MaxX), y := Clamp(p.y + dy, MinY, MaxY))]
            && MinX <= r.players[client].x <= MaxX && MinY <= r.players[client].y <= MaxY
            && r.enemies == w.enemies && r.connections == w.connections
  {
  }

  /** A move can end on an enemy: a player at (9, 10) moving right lands on enemy_1. */
  lemma MoveOntoEnemy(enemies: Dict<Actor>)
    requires Valid(enemies)
    ensures var w := World(map["p" := Actor(9, 10, '@', 5)], Spawned(enemies), []);
            var r := Dispatch(w, "p", Command(false, Int(1), Missing, Missing));
            At(r.players["p"], 10, 10) && At(r.enemies.entries["enemy_1"], 10, 10)
  {
  }

  /** Handling any line keeps every player in the arena. */
  lemma DispatchStaysInArena(w: World, client: string, msg: Message)
    requires Valid(w.enemies) && InArena(w.players)
    ensures InArena(Dispatch(w, client, msg).players)
  {
  }

  lemma {:induction false} ApplyLinesStaysInArena(w: World, client: string, lines: seq<string>, decode: string -> Message)
    requires Valid(w.enemies) && InArena(w.players)
    ensures InArena(ApplyLines(w, client, lines, decode).players)
  {
    if lines != [] {
      ApplyLinesStaysInArena(w, client, lines[..|lines| - 1], decode);
      DispatchStaysInArena(ApplyLines(w, client, lines[..|lines| - 1], decode), client, decode(lines[|lines| - 1]));
    }
  }

  /** The damage field is ignored: an attack deals 1 whatever it says. */
  lemma DamageIgnored(w: World, client: string, dx: Field, dy: Field, d1: Field, d2: Field)
    requires Valid(w.enemies)
    ensures Dispatch(w, client, Command(true, dx, dy, d1)) == Dispatch(w, client, Command(true, dx, dy, d2))
    ensures dx.Int? && dy.Int? ==>
              Dispatch(w, client, Command(true, dx, dy, d1)) == w.(enemies := Attack(w.players, w.enemies, client, dx.n, dy.n, 1))
  {
  }

  /**
   * An attack whose target cell has enemy id first in dict order takes
   * exactly 1 hp from it and deletes it at 0, whatever the damage field.
   */
  lemma AttackTakesOne(w: World, client: string, dx: int, dy: int, d: Field, id: string)
    requires Valid(w.enemies) && client in w.players && id != ""
    requires FirstAt(w.enemies, w.players[client].x + dx, w.players[client].y + dy) == Some(id)
    ensures id in w.enemies.entries
    ensures var r := Dispatch(w, client, Command(true, Int(dx), Int(dy), d));
            && r == w.(enemies := Hit(w.enemies, id, 1))
            && (id in r.enemies.entries <==> w.enemies.entries[id].hp > 1)
            && (id in r.enemies.entries ==> r.enemies.entries[id].hp == w.enemies.entries[id].hp - 1)
  {
    AttackIsHit(w, client, dx, dy, d, id);
    HitTakesOne(w.enemies, id);
  }

  /** Under AttackTakesOne's conditions the line is a hit of 1 on id. */
  lemma AttackIsHit(w: World, client: string, dx: int, dy: int, d: Field, id: string)
    requires Valid(w.enemies) && client in w.players && id != ""
    requires FirstAt(w.enemies, w.players[client].x + dx, w.players[client].y + dy) == Some(id)
    ensures id in w.enemies.entries
    ensures Dispatch(w, client, Command(true, Int(dx), Int(dy), d)) == w.(enemies := Hit(w.enemies, id, 1))
  {
    AttackOnTarget(w.players, w.enemies, client, dx, dy, 1, Some(id));
    AttackLineIs(w, client, dx, dy, d, Hit(w.enemies, id, 1));
  }

  /** An attack line with integer dx and dy whose attack gives h leaves enemies h. */
  lemma AttackLineIs(w: World, client: string, dx: int, dy: int, d: Field, h: Dict<Actor>)
    requires Valid(w.enemies) && Attack(w.players, w.enemies, client, dx, dy, 1) == h
    ensures Dispatch(w, client, Command(true, Int(dx), Int(dy), d)) == w.(enemies := h)
  {
  }

  /** The part of HitEffect about the hit enemy, for a hit of 1. */
  lemma HitTakesOne(enemies: Dict<Actor>, id: string)
    requires Valid(enemies) && id in enemies.entries
    ensures var r := Hit(enemies, id, 1);
            && (id in r.entries <==> enemies.entries[id].hp > 1)
            && (id in r.entries ==> r.entries[id].hp == enemies.entries[id].hp - 1)
  {
    HitEffect(enemies, id, 1);
  }

  /** A line from a client without a player changes nothing. */
  lemma UnknownClientIsNoop(w: World, client: string, msg: Message)
    requires Valid(w.enemies) && client !in w.players
    ensures Dispatch(w, client, msg) == w
  {
  }

  class Server {
    var players: map<string, Actor>
    var enemies: Dict<Actor>
    var connections: seq<Socket>

    /** The enemy dict is well formed and every player is in the arena. */
    ghost predicate Valid()
      reads this
    {
      Registry.Valid(enemies) && InArena(players)
    }

    function State(): World
      reads this
    {
      World(players, enemies, connections)
    }

    /** The module's globals: empty registries. */
    constructor ()
      ensures Valid() && State() == World(map[], Dict([], map[]), [])
    {
      players := map[];
      enemies := Dict([], map[]);
      connections := [];
    }

    /** spawn_enemies. */
    method SpawnEnemies()
      requires Valid()
      modifies this`enemies
      ensures Valid() && enemies == Spawned(old(enemies))
    {
      enemies := Put(enemies, "enemy_1", Actor(10, 10, 'E', 3));
      enemies := Put(enemies, "enemy_2", Actor(20, 15, 'E', 3));
    }

    /** handle_client's start: a new player at (5, 5) and the connection appended. */
    method HandleConnect(client: string, conn: Socket)
      requires Valid()
      modifies this`players, this`connections
      ensures Valid() && State() == Connected(old(State()), client, conn)
    {
      players := players[client := NewPlayer];
      connections := connections + [conn];
    }

    /** handle_client's end: the connection and the player are removed if present. */
    method HandleDisconnect(client: string, conn: Socket)
      requires Valid()
      modifies this`players, this`connections
      ensures Valid() && State() == Disconnected(old(State()), client, conn)
    {
      if conn in connections {
        connections := RemoveFirst(connections, conn);
      }
      if client in players {
        players := players - {client};
      }
    }

    /** The attack branch under the lock: the enemy found loses 1 hp. */
    method HandleAttack(client: string, dx: int, dy: int)
      requires Registry.Valid(enemies)
      modifies this`enemies
      ensures Registry.Valid(enemies) && enemies == Attack(old(players), old(enemies), client, dx, dy, 1)
    {
      if client in players {
        var player := players[client];
        var target := FindTarget(enemies, player.x + dx, player.y + dy);
        AttackOnTarget(players, enemies, client, dx, dy, 1, target);
        if target.Some? && target.value != "" {
          enemies := ApplyHit(enemies, target.value, 1);
        }
      } else {
        AttackMisses(players, enemies, client, dx, dy, 1);
      }
    }

    /** The move branch under the lock: the player's x and y are set to the clamped target. */
    method HandleMove(client: string, dx: int, dy: int)
      requires Valid()
      modifies this`players
      ensures Valid() && State() == Move(old(State()), client, dx, dy)
    {
      if client in players {
        var player := players[client];
        var newX := Clamp(player.x + dx, MinX, MaxX);
        var newY := Clamp(player.y + dy, MinY, MaxY);
        players := players[client := player.(x := newX)];
        players := players[client := players[client].(y := newY)];
      }
    }

    /** One line of handle_client's framing loop, decoded. */
    method HandleMessage(client: string, msg: Message)
      requires Valid()
      modifies this`players, this`enemies
      ensures Valid() && State() == Dispatch(old(State()), client, msg)
    {
      match msg
      case Malformed =>
      case Command(attack, dx, dy, _) =>
        var ox := ValueOr(dx, 0);
        var oy := ValueOr(dy, 0);
        if ox.Some? && oy.Some? {
          if attack {
            HandleAttack(client, ox.value, oy.value);
          } else {
            HandleMove(client, ox.value, oy.value);
          }
        }
    }

    /**
     * One receive of handle_client: the data is appended to the buffer and
     * every complete line is taken off and handled.
     */
    method Receive(client: string, buffer: string, data: string, decode: string -> Message)
      returns (lines: seq<string>, rest: string)
      requires Valid()
      modifies this`players, this`enemies
      ensures Valid()
      ensures lines == Frames(buffer + data).0 && rest == Frames(buffer + data).1
      ensures State() == ApplyLines(old(State()), client, lines, decode)
    {
      ghost var start := State();
      ghost var cut := Frames(buffer + data);
      rest := buffer + data;
      lines := [];
      while Newline in rest
        invariant Valid()
        invariant cut.0 == lines + Frames(rest).0 && cut.1 == Frames(rest).1
        invariant State() == ApplyLines(start, client, lines, decode)
        decreases |rest|
      {
        var parts := Split(rest).value;
        FramesTake(lines, rest);
        HandleLine(client, start, lines, parts.0, decode);
        lines := lines + [parts.0];
        rest := parts.1;
      }
      FramesDone(rest);
      assert lines + [] == lines;
    }

    /** Handling the next line extends the lines handled so far by one. */
    method HandleLine(client: string, ghost start: World, ghost lines: seq<string>, line: string,
                      decode: string -> Message)
      requires Valid() && Registry.Valid(start.enemies)
      requires State() == ApplyLines(start, client, lines, decode)
      modifies this`players, this`enemies
      ensures Valid() && State() == ApplyLines(start, client, lines + [line], decode)
    {
      HandleMessage(client, decode(line));
      ApplyLinesSnoc(start, client, lines, line, decode);
    }

    /** broadcast_state: the connections whose send failed are dropped. */
    method Broadcast(sendOk: Socket -> bool)
      modifies this`connections
      ensures connections == Delivered(old(connections), sendOk)
    {
      connections := PruneFailed(connections, sendOk);
    }
  }
}
