/**
 * The authoritative server of network/server.py. The global registries
 * become the fields of a Server; each block the source runs under
 * `state_lock` becomes one method, so the threads and the lock are not
 * modelled. Messages arrive decoded (the `decode` parameter stands for
 * `json.loads`), and whether a send succeeds comes from the `sendOk`
 * oracle.
 *
 * Each method is proved against a function on World values: Connected,
 * Disconnected, Move, Attack (from ServerRules), Dispatch and ApplyLines.
 * The lemmas below state what those functions promise.
 */
module NetworkServer {
  import opened Wrappers
  import opened Registry
  import opened Protocol
  import opened ServerRules
  import Spawn

  /** The server's state: players, enemies, objects and connections. */
  datatype World = World(players: map<string, Actor>, enemies: Dict<Actor>, objects: map<string, Thing>,
                         connections: seq<Socket>)

  /** The size of the world enemies and objects are spawned for. */
  const WorldWidth: int := 80
  const WorldHeight: int := 24

  /** A cell an enemy or an object stands on; players never block. */
  predicate Blocked(w: World, x: int, y: int) {
    || (exists k :: k in w.enemies.entries && At(w.enemies.entries[k], x, y))
    || (exists k :: k in w.objects && w.objects[k].x == x && w.objects[k].y == y)
  }

  function Connected(w: World, client: string, conn: Socket): World {
    w.(players := Joined(w.players, client), connections := w.connections + [conn])
  }

  function Disconnected(w: World, client: string, conn: Socket): World {
    w.(connections := RemoveFirst(w.connections, conn), players := w.players - {client})
  }

  /** The move handler: clamp the target into the arena, then move unless it is blocked. */
  function Move(w: World, client: string, dx: int, dy: int): World {
    if client !in w.players then w
    else
      var p := w.players[client];
      var newX := Clamp(p.x + dx, MinX, MaxX);
      var newY := Clamp(p.y + dy, MinY, MaxY);
      if Blocked(w, newX, newY) then w else w.(players := w.players[client := p.(x := newX, y := newY)])
  }

  /**
   * One decoded line. A truthy `attack` makes it an attack, anything else a
   * move; `dx` and `dy` default to 0 and `damage` to 1. A field that is not
   * an integer raises TypeError, which the handler catches and logs, so the
   * state is left as it was, as it is for a line that does not decode.
   */
  function Dispatch(w: World, client: string, msg: Message): (r: World)
    requires Valid(w.enemies)
    ensures Valid(r.enemies)
  {
    match msg
    case Malformed => w
    case Command(attack, dx, dy, damage) =>
      var ox := ValueOr(dx, 0);
      var oy := ValueOr(dy, 0);
      if attack then
        var od := ValueOr(damage, 1);
        if ox.Some? && oy.Some? && od.Some?
        then w.(enemies := Attack(w.players, w.enemies, client, ox.value, oy.value, od.value))
        else w
      else if ox.Some? && oy.Some? then Move(w, client, ox.value, oy.value)
      else w
  }

  /** The lines of one receive, handled in order. */
  function ApplyLines(w: World, client: string, lines: seq<string>, decode: string -> Message): (r: World)
    requires Valid(w.enemies)
    ensures Valid(r.enemies)
  {
    if lines == [] then w
    else Dispatch(ApplyLines(w, client, lines[..|lines| - 1], decode), client, decode(lines[|lines| - 1]))
  }

  /** Handling one more line is one more dispatch. */
  lemma ApplyLinesSnoc(w: World, client: string, lines: seq<string>, line: string, decode: string -> Message)
    requires Valid(w.enemies)
    ensures ApplyLines(w, client, lines + [line], decode)
            == Dispatch(ApplyLines(w, client, lines, decode), client, decode(line))
  {
    assert (lines + [line])[..|lines|] == lines;
  }

  /** A move stays in the arena. */
  lemma MoveStaysInArena(w: World, client: string, dx: int, dy: int)
    requires InArena(w.players)
    ensures InArena(Move(w, client, dx, dy).players)
  {
  }

  /**
   * A move of a known client either leaves everything as it was, when an
   * enemy or object occupies the clamped target, or puts the player on the
   * target. Nothing else changes: not its char or hp, not the other players,
   * enemies, objects or connections.
   */
  lemma MoveEffect(w: World, client: string, dx: int, dy: int)
    requires client in w.players
    ensures var p := w.players[client];
            var x := Clamp(p.x + dx, MinX, MaxX);
            var y := Clamp(p.y + dy, MinY, MaxY);
            var r := Move(w, client, dx, dy);
            && client in r.players
            && r.players[client] == (if Blocked(w, x, y) then p else p.(x := x, y := y))
            && r.players.Keys == w.players.Keys
            && (forall k :: k in w.players && k != client ==> r.players[k] == w.players[k])
            && r.enemies == w.enemies && r.objects == w.objects && r.connections == w.connections
  {
  }

  /** A move never lands on an enemy or an object: a player that moved stands on a free cell. */
  lemma MoveNeverOntoObstacle(w: World, client: string, dx: int, dy: int)
    requires client in w.players
    requires Move(w, client, dx, dy).players[client] != w.players[client]
    ensures var q := Move(w, client, dx, dy).players[client];
            && (forall k :: k in w.enemies.entries ==> !At(w.enemies.entries[k], q.x, q.y))
            && (forall k :: k in w.objects ==> !(w.objects[k].x == q.x && w.objects[k].y == q.y))
  {
  }

  /** Handling any line keeps every player in the arena. */
  lemma DispatchStaysInArena(w: World, client: string, msg: Message)
    requires Valid(w.enemies) && InArena(w.players)
    ensures InArena(Dispatch(w, client, msg).players)
  {
    match msg
    case Malformed =>
    case Command(attack, dx, dy, damage) =>
      if !attack && ValueOr(dx, 0).Some? && ValueOr(dy, 0).Some? {
        MoveStaysInArena(w, client, ValueOr(dx, 0).value, ValueOr(dy, 0).value);
      }
  }

  lemma {:induction false} ApplyLinesStaysInArena(w: World, client: string, lines: seq<string>, decode: string -> Message)
    requires Valid(w.enemies) && InArena(w.players)
    ensures InArena(ApplyLines(w, client, lines, decode).players)
  {
    if lines != [] {
      ApplyLinesStaysInArena(w, client, lines[..|lines| - 1], decode);
      DispatchStaysInArena(ApplyLines(w, client, lines[..|lines| - 1], decode), client, decode(lines[|lines| - 1]));
    }
  }

  /**
   * Lines that change nothing: one that does not decode, one from a client
   * without a player, and one whose dx or dy (or, for an attack, damage) is
   * not an integer.
   */
  lemma DispatchNoops(w: World, client: string, msg: Message)
    requires Valid(w.enemies)
    requires || msg.Malformed?
             || client !in w.players
             || (msg.Command? && (msg.dx.NonInt? || msg.dy.NonInt? || (msg.attack && msg.damage.NonInt?)))
    ensures Dispatch(w, client, msg) == w
  {
  }

  /** An empty command `{}` is a move by (0, 0), which leaves a player in the arena where it is. */
  lemma EmptyCommandIsNoop(w: World, client: string, damage: Field)
    requires Valid(w.enemies) && InArena(w.players)
    ensures Dispatch(w, client, Command(false, Missing, Missing, damage)) == w
  {
    if client in w.players {
      var p := w.players[client];
      assert p.(x := p.x, y := p.y) == p;
      assert w.players[client := p] == w.players;
    }
  }

  /** Missing fields take their defaults: an attack without fields hits the player's own cell for 1. */
  lemma AttackDefaults(w: World, client: string)
    requires Valid(w.enemies)
    ensures Dispatch(w, client, Command(true, Missing, Missing, Missing))
            == w.(enemies := Attack(w.players, w.enemies, client, 0, 0, 1))
  {
  }

  /** Disconnecting removes that client's player and one entry of its connection, nothing else. */
  lemma DisconnectEffect(w: World, client: string, conn: Socket)
    ensures var r := Disconnected(w, client, conn);
            && client !in r.players
            && (forall k :: k != client ==> (k in r.players <==> k in w.players))
            && (forall k :: k in r.players ==> r.players[k] == w.players[k])
            && multiset(r.connections) == multiset(w.connections) - multiset{conn}
            && r.enemies == w.enemies && r.objects == w.objects
  {
  }

  /** Connecting a new client and disconnecting it again restores the state. */
  lemma ConnectThenDisconnect(w: World, client: string, conn: Socket)
    requires client !in w.players && conn !in w.connections
    ensures Disconnected(Connected(w, client, conn), client, conn) == w
  {
    JoinThenLeave(w.players, w.connections, client, conn);
  }

  class Server {
    var players: map<string, Actor>
    var enemies: Dict<Actor>
    var objects: map<string, Thing>
    var connections: seq<Socket>
    const mapSeed: int

    /** The enemy dict is well formed and every player is in the arena. */
    ghost predicate Valid()
      reads this
    {
      Registry.Valid(enemies) && InArena(players)
    }

    function State(): World
      reads this
    {
      World(players, enemies, objects, connections)
    }

    /**
     * Server start-up and server_main's spawning: no players or
     * connections, the two enemies of an 80 by 24 world, and trees on the
     * interior cells the `place` draw selects (no map is passed, so every
     * interior cell is a candidate).
     */
    constructor (mapSeed: int, place: (int, int) -> bool)
      ensures Valid() && this.mapSeed == mapSeed
      ensures players == map[] && connections == []
      ensures enemies == Spawn.SpawnEnemies(WorldWidth, WorldHeight)
      ensures Spawn.IsPlacement(objects, WorldWidth, WorldHeight, None, place)
    {
      var spawned, reachable := Spawn.SpawnObjects(WorldWidth, WorldHeight, null, place);
      this.mapSeed := mapSeed;
      players := map[];
      enemies := Spawn.SpawnEnemies(WorldWidth, WorldHeight);
      objects := spawned;
      connections := [];
    }

    /** handle_client's start: a new player at (5, 5) and the connection appended. */
    method HandleConnect(client: string, conn: Socket)
      requires Valid()
      modifies this`players, this`connections
      ensures Valid() && State() == Connected(old(State()), client, conn)
    {
      players := players[client := NewPlayer];
      connections := connections + [conn];
    }

    /** handle_client's end: the connection and the player are removed if present. */
    method HandleDisconnect(client: string, conn: Socket)
      requires Valid()
      modifies this`players, this`connections
      ensures Valid() && State() == Disconnected(old(State()), client, conn)
    {
      if conn in connections {
        connections := RemoveFirst(connections, conn);
      }
      if client in players {
        players := players - {client};
      }
    }

    /** The attack branch of handle_client under the lock. */
    method HandleAttack(client: string, dx: int, dy: int, damage: int)
      requires Registry.Valid(enemies)
      modifies this`enemies
      ensures Registry.Valid(enemies) && enemies == Attack(old(players), old(enemies), client, dx, dy, damage)
    {
      if client in players {
        var player := players[client];
        var target := FindTarget(enemies, player.x + dx, player.y + dy);
        AttackOnTarget(players, enemies, client, dx, dy, damage, target);
        if target.Some? && target.value != "" {
          enemies := ApplyHit(enemies, target.value, damage);
        }
      } else {
        AttackMisses(players, enemies, client, dx, dy, damage);
      }
    }

    /** The move branch of handle_client under the lock. */
    method HandleMove(client: string, dx: int, dy: int)
      requires Valid()
      modifies this`players
      ensures Valid() && State() == Move(old(State()), client, dx, dy)
    {
      if client in players {
        var player := players[client];
        var newX := Clamp(player.x + dx, MinX, MaxX);
        var newY := Clamp(player.y + dy, MinY, MaxY);
        var blocked := false;
        var ids := enemies.keys;
        var i := 0;
        while i < |ids|
          invariant 0 <= i <= |ids|
          invariant forall j :: 0 <= j < i ==> !At(enemies.entries[ids[j]], newX, newY)
        {
          if At(enemies.entries[ids[i]], newX, newY) {
            blocked := true;
            break;
          }
          i := i + 1;
        }
        if !blocked {
          var rest := objects.Keys;
          while rest != {}
            invariant rest <= objects.Keys
            invariant forall k :: k in objects && k !in rest ==> !(objects[k].x == newX && objects[k].y == newY)
            decreases |rest|
          {
            var k :| k in rest;
            if objects[k].x == newX && objects[k].y == newY {
              blocked := true;
              break;
            }
            rest := rest - {k};
          }
        }
        assert blocked == Blocked(State(), newX, newY);
        if !blocked {
          players := players[client := player.(x := newX, y := newY)];
        }
      }
    }

    /** One line of handle_client's framing loop, decoded. */
    method HandleMessage(client: string, msg: Message)
      requires Valid()
      modifies this`players, this`enemies
      ensures Valid() && State() == Dispatch(old(State()), client, msg)
    {
      match msg
      case Malformed =>
      case Command(attack, dx, dy, damage) =>
        var ox := ValueOr(dx, 0);
        var oy := ValueOr(dy, 0);
        if attack {
          var od := ValueOr(damage, 1);
          if ox.Some? && oy.Some? && od.Some? {
            HandleAttack(client, ox.value, oy.value, od.value);
          }
        } else if ox.Some? && oy.Some? {
          HandleMove(client, ox.value, oy.value);
        }
    }

    /**
     * One receive of handle_client: the data is appended to the buffer and
     * every complete line is taken off and handled. The lines handled and
     * the buffer left are the framing of the old buffer plus the data.
     */
    method Receive(client: string, buffer: string, data: string, decode: string -> Message)
      returns (lines: seq<string>, rest: string)
      requires Valid()
      modifies this`players, this`enemies
      ensures Valid()
      ensures lines == Frames(buffer + data).0 && rest == Frames(buffer + data).1
      ensures State() == ApplyLines(old(State()), client, lines, decode)
    {
      ghost var start := State();
      ghost var cut := Frames(buffer + data);
      rest := buffer + data;
      lines := [];
      while Newline in rest
        invariant Valid()
        invariant cut.0 == lines + Frames(rest).0 && cut.1 == Frames(rest).1
        invariant State() == ApplyLines(start, client, lines, decode)
        decreases |rest|
      {
        lines, rest := TakeLine(client, start, lines, rest, decode);
      }
      FramesDone(rest);
      assert lines + [] == lines;
    }

    /**
     * One turn of the framing loop: the first line comes off the buffer and
     * is handled, which extends the lines handled so far by one.
     */
    method TakeLine(client: string, ghost start: World, lines: seq<string>, buffer: string, decode: string -> Message)
      returns (handled: seq<string>, rest: string)
      requires Valid() && Registry.Valid(start.enemies) && Newline in buffer
      requires State() == ApplyLines(start, client, lines, decode)
      modifies this`players, this`enemies
      ensures Valid() && State() == ApplyLines(start, client, handled, decode)
      ensures handled + Frames(rest).0 == lines + Frames(buffer).0 && Frames(rest).1 == Frames(buffer).1
      ensures |rest| < |buffer|
    {
      var parts := Split(buffer).value;
      FramesTake(lines, buffer);
      HandleLine(client, start, lines, parts.0, decode);
      handled := lines + [parts.0];
      rest := parts.1;
    }

    /** Handling the next line extends the lines handled so far by one. */
    method HandleLine(client: string, ghost start: World, ghost lines: seq<string>, line: string,
                      decode: string -> Message)
      requires Valid() && Registry.Valid(start.enemies)
      requires State() == ApplyLines(start, client, lines, decode)
      modifies this`players, this`enemies
      ensures Valid() && State() == ApplyLines(start, client, lines + [line], decode)
    {
      HandleMessage(client, decode(line));
      ApplyLinesSnoc(start, client, lines, line, decode);
    }

    /** broadcast_state: the connections whose send failed are dropped. */
    method Broadcast(sendOk: Socket -> bool)
      modifies this`connections
      ensures connections == Delivered(old(connections), sendOk)
    {
      connections := PruneFailed(connections, sendOk);
    }
  }
}
