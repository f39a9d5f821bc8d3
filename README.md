# TTG game rules in Dafny

This project models the game-rule core of TTG, a small multiplayer grid game,
and proves properties of that model. The model covers these parts:

- **The authoritative server** of `network/server.py`, and the older server of
  `server.py`.
  - Players, enemies, objects and connections are registries that connect,
    disconnect, move and attack update.
  - A receive is cut into lines at the newline.
  - A broadcast prunes the connections whose send failed.
- **The two map generators.**
  - `game/map.py` builds a bordered grid. It places random obstacles,
    flood-fills from (1, 1), then opens every obstacle next to a reached cell.
  - `map.py` is the fixed map with a middle wall column.
- **World spawning** (`game/enemy.py`): two enemies at clamped fixed
  positions, and trees on interior cells the flood fill reaches.
- **Combat** (`game/combat.py`).
  - Mastermind scoring of a four-digit guess.
  - The key-handling state machine of the combat minigame.
- **The entity classes** `Player` (`player.py`) and `Enemy` (`enemy.py`).

## How the code is modelled

Code that updates state in place is modelled imperatively:

- The servers are classes whose fields are the registries. Each block that
  the source runs under `state_lock` is one method.
- The maps and the player and enemy objects are classes.
- Loops are `while`/`for` loops with invariants.

Each method is proved against a function on values, and lemmas state what
those functions promise:

- `Dispatch`, `Move`, `Attack` and `ApplyLines` for the servers.
- `ObstacleGrid` and `Repaired` for the open-world map.
- `IsFloodFill` for the flood fill. It is the least closed set of floor cells
  that holds the start cell.
- `IsFeedback` for `compute_feedback`. It is a counting specification, and
  `FeedbackUnique` shows that it determines the colours.
- `Frames` for the framing loop.
- `Delivered` for the broadcast pruning.

Inputs from outside the model:

- Randomness becomes input. The obstacle draw and the tree draw are oracles
  `(x, y) -> bool`, and the combat secret is a parameter.
- Decoding JSON is the parameter `decode`, which yields a `Message`. A decoded
  field is missing, an integer, or some other value; any other value makes the
  handler's arithmetic raise, the exception is caught, and nothing changes.
- Whether a send succeeds is the oracle `sendOk`.

Enemies are kept in an insertion-ordered `Dict`, because the attack handler
takes the first enemy in dict order. Players and objects are maps.

## Behaviour worth noting

- **Moves.** The code does not consult map walkability. It clamps the target
  to [1, 40] x [1, 20] and accepts any integer deltas. `network/server.py`
  blocks on enemies and objects only; `server.py` blocks on nothing.
- **Enemy hp.** It can go negative; an enemy is deleted at hp <= 0.
- **Failed sends.** A failed send removes only the connection. The player
  stays until its own receive loop ends.

## Model

| member | source | states |
|---|---|---|
| Feedback.ComputeFeedback | game/combat.py:15-41 | The colours are four. GREEN falls exactly where guess and secret agree. For every digit, the non-RED positions holding it equal the smaller of its counts in guess and secret. ORANGE goes to the leftmost candidates. |
| Feedback.ExactPass | game/combat.py:23-32 | The first pass marks GREEN exactly on exact matches and blanks those positions in both copies; every other entry is RED or the original digit. |
| Feedback.MisplacedPass | game/combat.py:34-39 | The second pass never touches GREEN. Every ORANGE consumes one slot of the copied secret holding its digit. A position left RED has a digit absent from what remains of the copy. An ORANGE is never preceded by a RED holding the same digit. |
| Basics.IndexOf | game/combat.py:38 | `secret_copy.index(x)`, and the `list.index` behind `connections.remove`, is a slot holding x with no x before it. |
| Feedback.FeedbackUnique | game/combat.py:15-41 | Two colourings meeting the scoring specification are equal, so the specification pins down the function. |
| Feedback.ExactGuessAllGreen | game/combat.py:28-31 | Guessing the secret exactly scores four GREENs. |
| Feedback.NoDigitOverCredited | game/combat.py:31-39 | No digit gets more non-RED positions than it occurs in the secret (or in the guess). |
| Feedback.OrangeHasUnmatchedSlot | game/combat.py:36-39 | The digit of an ORANGE position occurs at a secret position that was not matched GREEN. |
| Minigame.InitialConsistent | game/combat.py:104-109 | The start state (empty buffer, no attempts, running, no victory) satisfies the round invariant. |
| Minigame.BackspaceDropsLast | game/combat.py:116-117 | BACKSPACE drops exactly the last typed character (nothing on an empty buffer) and uses no attempt. |
| Minigame.AttemptOnlyOnFullEnter | game/combat.py:118-127 | An attempt is used only by RETURN on a four-character buffer, and that buffer is recorded as the guess. |
| Minigame.StepGuardedConsistent | game/combat.py:110-137 | The corrected step keeps the round invariant. The buffer holds at most four digits 1-9. There is one guess per attempt, attempts stay within the allowance, victory holds exactly when the secret was guessed, and a round ends only by victory or exhausted attempts. |
| Minigame.RunBatchGuardedConsistent | game/combat.py:111-137 | A whole batch of events, handled with the corrected step, keeps the round invariant. |
| Minigame.PlayConsistent | game/combat.py:110-137 | After any sequence of event batches the corrected round satisfies the invariant. |
| Minigame.GameOverIsFinal | game/combat.py:109-111 | In the corrected loop a finished round ignores all further events. |
| Minigame.LateVictory | game/combat.py:111-133 | As written, one batch can lose the round and then win it, using two attempts out of one; the corrected batch stops at the defeat. |
| Minigame.CombatMinigame | game/combat.py:104-185 | The corrected loop returns enemy_hp on victory and 0 on defeat. Its history holds exactly the submitted guesses, in order, each scored by compute_feedback. |
| Minigame.HandleBatch | game/combat.py:111-137 | One frame's events, handled with the corrected step, give the corrected run of the batch. The round invariant holds, and every RETURN on a full buffer adds its scored guess to the history. |
| Minigame.Outcome | game/combat.py:128-132 | A victory means the secret was among at most the allowed number of guesses. A defeat means every allowed attempt was used and none matched. |
| Grid.AllFloor | game/map.py:40 | The comprehension gives exactly height rows of width floor tiles. |
| Grid.DrawBorder | game/map.py:42-47 | The border loops make every border cell a wall, leave every other tile as it was and keep the grid's shape. |
| Grid.PushFloorNeighbours | game/map.py:64-67 | The neighbour loop pushes exactly the in-bounds floor neighbours, in the source's visiting order. |
| Grid.FloodFill | game/map.py:57-67 | The stack-based flood fill terminates. It holds the start cell, and every other member is in bounds and floor. Every floor neighbour of a member is a member, and the result lies inside every such closed set holding the start. |
| Grid.FloodFillUnique | game/map.py:57-67 | The flood-fill set is determined by the grid. |
| OpenWorldMap.ObstacleGrid | game/map.py:40-54 | The grid before the flood fill has the right shape. A tile is wall exactly on the border or where the obstacle draw came up. |
| OpenWorldMap.Repaired | game/map.py:70-76 | The repaired grid keeps its shape. A tile becomes floor exactly when it is an interior wall next to a reached cell. |
| OpenWorldMap.RepairOnlyOpens | game/map.py:70-76 | The repair pass never turns floor into wall; every tile it changes went from wall to floor. |
| OpenWorldMap.AnyNeighbourIn | game/map.py:73-76 | The inner repair loop finds a neighbour in the reachable set exactly when one exists. |
| OpenWorldMap.PlaceObstacles | game/map.py:40-54 | The floor grid, the border loops and the obstacle loops together give the obstacle grid. |
| OpenWorldMap.RepairPass | game/map.py:70-76 | The repair loops, testing each tile in place, give the repaired grid. |
| OpenWorldMap.GenerateOpenWorld | game/map.py:32-77 | The result is the obstacle grid repaired around the flood-fill set. It has the right shape and holds only floor and wall. The border is wall, obstacle-free interior cells are floor, and every interior cell next to a reached cell is floor. |
| OpenWorldMap.GameMap.constructor | game/map.py:6-21 | An open world holds the generated grid. Otherwise the map is floor inside a border of walls. The map invariant holds either way. |
| OpenWorldMap.GameMap.CreateWalls | game/map.py:23-30 | create_walls sets the border to wall and changes no other tile; on the all-floor grid of a map that is not an open world it leaves a valid map. |
| OpenWorldMap.GameMap.IsWalkable | game/map.py:79-83 | The result is false outside the grid and, inside, true exactly on floor. So the border is never walkable. In an open world every reached cell but the start is walkable, and so is every interior cell next to a reached one. |
| WalledMap.GameMap.constructor | map.py:5-9 | The new map is exactly the walled layout: border and middle column wall, everything else floor. |
| WalledMap.GameMap.CreateWalls | map.py:11-20 | The border and column width/2 for rows 2 to height-3 become wall; every other tile is left as it was, so the all-floor grid becomes a valid map. |
| WalledMap.GameMap.IsWalkable | map.py:22-25 | The result is false outside the grid and on the border. Inside the grid it is true exactly when the tile is not a wall. |
| WalledMap.MiddleColumnGaps | map.py:18-20 | The middle column is open at rows 1 and height-2 and closed in between. |
| PlayerEntity.Player.constructor | player.py:4-8 | The given position and glyph, and 5 hp. |
| PlayerEntity.Player.Move | player.py:10-15 | The player goes to (x+dx, y+dy) exactly when the map says it is walkable, and stays put otherwise. Only x and y may change. |
| PlayerEntity.Player.Attack | player.py:17-19 | Returns (dx, dy) unchanged and reads no field. |
| EnemyEntity.Enemy.constructor | enemy.py:4-8 | The given position, glyph 'E' and 3 hp by default. |
| EnemyEntity.Enemy.TakeDamage | enemy.py:10-11 | hp drops by exactly the damage (1 by default), with no clamp; only hp changes. |
| Spawn.SpawnedEnemies | game/enemy.py:12-15 | The keys are exactly enemy_1 then enemy_2, each 'E' with 3 hp. Both are at most width-2 across and height-2 down, and at (10, 10) and (20, 15) in a large enough world. |
| Spawn.ObjectKeyInjective | game/enemy.py:47 | Different cells give different `obj_{x}_{y}` keys. |
| Spawn.PlaceRow | game/enemy.py:43-47 | One row of the placement loop adds a tree on exactly the chosen cells of that row. |
| Spawn.SpawnObjects | game/enemy.py:17-48 | With a map the reachable set is its flood fill from (1, 1). There is a tree, under its own cell's key, on exactly the interior cells that are reachable (when a map is given) and selected by the draw. |
| Spawn.ObjectsReachable | game/enemy.py:42-47 | With a map, every object stands on a reached interior cell. |
| Spawn.OneObjectPerCell | game/enemy.py:47 | No two objects share a cell. |
| Registry.Put | network/server.py:74 | Assigning into a dict updates the entry. A present key keeps its place in the order; a new key goes last. |
| Registry.Remove | network/server.py:78 | `del` removes exactly that entry and keeps every other one; deleting an absent key changes nothing. |
| Registry.RemoveKeepsOrder | network/server.py:78 | `del` cuts the key out of the iteration order at its one position, so the other keys keep their relative order and the next attack searches them in the same order. |
| Registry.FirstAt | network/server.py:68-72 | The search finds nothing exactly when no enemy is at the cell. Otherwise it names an enemy at the cell with none before it in dict order. |
| Registry.RemoveFirst | network/server.py:112-113 | `if conn in connections: connections.remove(conn)` removes one occurrence of conn and leaves the list unchanged when conn is absent. |
| Registry.RemoveFirstIsFirst | network/server.py:112-113 | `connections.remove(conn)` cuts out the first occurrence of conn: the position that holds it with none before it. |
| Registry.Delivered | network/server.py:31-36 | Pruning keeps only connections whose send succeeded, each as often as before. |
| Registry.PruneFailed | network/server.py:31-36 | Walking a copy and removing each failed connection leaves exactly the delivered connections in their original order. |
| ServerRules.Clamp | network/server.py:87-88 | `max(lo, min(hi, v))` lies in [lo, hi]: it is v inside the range and the nearer bound outside. |
| ServerRules.Joined | network/server.py:41-44 | Connecting keeps every player in the arena. |
| ServerRules.JoinThenLeave | network/server.py:41-44 | Connecting a new client and removing it again restores players and connections. |
| ServerRules.HitEffect | network/server.py:73-78 | The hit enemy loses exactly `damage` hp and is deleted exactly when that leaves at most 0. Every other enemy is untouched and keeps its place. |
| ServerRules.AttackHits | network/server.py:63-74 | An attack on the cell of enemy id, with no earlier enemy there, hits id. |
| ServerRules.AttackOnTarget | network/server.py:66-78 | The attack's effect is decided by the first enemy at the attacked cell; the empty id counts as no target. |
| ServerRules.AttackMisses | network/server.py:62-73 | An attack from an unknown client, or on a cell no enemy stands on, changes nothing. |
| ServerRules.FindTarget | network/server.py:68-72 | The search loop returns the first enemy, in dict order, at the target cell. |
| ServerRules.ApplyHit | network/server.py:73-78 | The subtraction and the conditional delete give the hit described by HitEffect. |
| Protocol.ValueOr | network/server.py:59-61 | `message.get(name, default)` gives the default when the field is absent and the integer when there is one. It has no value exactly when the field is not an integer. |
| Protocol.Split | network/server.py:55 | `buffer.split("\n", 1)` succeeds exactly when there is a newline. The line holds no newline, and line, newline and rest make up the buffer. |
| Protocol.FramesSound | network/server.py:53-55 | The framing loop loses nothing: the lines, each followed by a newline, then the leftover make up the input. Neither the lines nor the leftover contain a newline. |
| Protocol.FramesUnique | network/server.py:53-55 | Any such decomposition into newline-free lines and tail is the one the loop computes. |
| Protocol.FramesConcat | network/server.py:51-55 | For decoded text, the lines do not depend on how the stream was chunked across receives. |
| NetworkServer.MoveStaysInArena | network/server.py:87-88 | A move keeps every player in [1, 40] x [1, 20]. |
| NetworkServer.MoveEffect | network/server.py:83-104 | A known client's move either leaves everything unchanged, when an enemy or object occupies the clamped target, or puts the player on the target. Nothing else changes. |
| NetworkServer.MoveNeverOntoObstacle | network/server.py:89-104 | A player that moved stands on a cell without an enemy or object. |
| NetworkServer.DispatchStaysInArena | network/server.py:56-107 | Handling any line keeps every player in the arena. |
| NetworkServer.ApplyLinesStaysInArena | network/server.py:54-107 | Handling any sequence of lines keeps every player in the arena. |
| NetworkServer.DispatchNoops | network/server.py:56-107 | A line that does not decode, one from a client without a player, or one whose dx, dy (or, for an attack, damage) is not an integer changes nothing. |
| NetworkServer.EmptyCommandIsNoop | network/server.py:79-104 | `{}` is a move by (0, 0), which changes nothing. |
| NetworkServer.AttackDefaults | network/server.py:58-61 | An attack without fields hits the player's own cell for 1. |
| NetworkServer.DisconnectEffect | network/server.py:109-115 | Disconnecting removes exactly that player and one occurrence of its connection; enemies and objects are unchanged. |
| NetworkServer.ConnectThenDisconnect | network/server.py:109-115 | Connecting and then disconnecting a new client restores the state. |
| NetworkServer.Server.constructor | network/server.py:119-125 | Start-up: no players or connections, the enemies of an 80 by 24 world, and trees exactly on the interior cells the draw selects. |
| NetworkServer.Server.HandleConnect | network/server.py:41-44 | The client's player is set to (5, 5), '@', 5 hp and the connection is appended. |
| NetworkServer.Server.HandleDisconnect | network/server.py:109-115 | The connection and the player are removed. |
| NetworkServer.Server.HandleAttack | network/server.py:62-78 | The enemies become the attack's effect on them. |
| NetworkServer.Server.HandleMove | network/server.py:83-104 | The search over enemies and objects decides the move exactly as Move does; players stay in the arena. |
| NetworkServer.Server.HandleMessage | network/server.py:56-107 | The state becomes the dispatch of the decoded line. |
| NetworkServer.Server.Receive | network/server.py:53-107 | With the received data as decoded text, the lines handled and the buffer left are the framing of buffer plus data. The state is the old state with those lines handled in order. |
| NetworkServer.Server.TakeLine | network/server.py:54-55 | One turn of the framing loop takes off the first line, handles it and shortens the buffer. |
| NetworkServer.Server.HandleLine | network/server.py:56-58 | Handling the next line extends the lines handled so far by one. |
| NetworkServer.Server.Broadcast | network/server.py:22-36 | The connections left are exactly the delivered ones, in order. |
| LegacyServer.SpawnedEffect | server.py:19-23 | spawn_enemies sets enemy_1 to (10, 10) and enemy_2 to (20, 15), both 'E' with 3 hp, and leaves every other enemy. Into an empty dict this gives what game/enemy.py spawns in any world of at least 22 by 17. |
| LegacyServer.MoveEffect | server.py:78-89 | A known client goes to the clamped target, whatever stands there; nothing else changes. |
| LegacyServer.MoveOntoEnemy | server.py:84-89 | A player at (9, 10) moving right lands on enemy_1. |
| LegacyServer.DispatchStaysInArena | server.py:56-91 | Handling any line keeps every player in the arena. |
| LegacyServer.ApplyLinesStaysInArena | server.py:53-91 | Handling any sequence of lines keeps every player in the arena. |
| LegacyServer.DamageIgnored | server.py:58-73 | The damage field is ignored: an attack always deals 1. |
| LegacyServer.AttackTakesOne | server.py:62-77 | An attack on an occupied cell takes exactly 1 hp from the first enemy there and deletes it when it had at most 1. |
| LegacyServer.UnknownClientIsNoop | server.py:62-83 | Attack and move lines from a client without a player change nothing. |
| LegacyServer.Server.constructor | server.py:13-17 | No players, enemies or connections. |
| LegacyServer.Server.SpawnEnemies | server.py:19-23 | The enemies become the spawned ones. |
| LegacyServer.Server.HandleConnect | server.py:39-42 | The client's player is set to (5, 5), '@', 5 hp and the connection is appended. |
| LegacyServer.Server.HandleDisconnect | server.py:93-99 | The connection and the player are removed. |
| LegacyServer.Server.HandleAttack | server.py:57-77 | The enemies become the effect of an attack for 1 damage. |
| LegacyServer.Server.HandleMove | server.py:78-89 | The player's x and y become the clamped target. |
| LegacyServer.Server.HandleMessage | server.py:53-91 | The state becomes the dispatch of the decoded line. |
| LegacyServer.Server.Receive | server.py:51-91 | With the received data as decoded text, the lines handled and the buffer left are the framing of buffer plus data. The state is the old state with those lines handled in order. |
| LegacyServer.Server.HandleLine | server.py:55-58 | Handling the next line extends the lines handled so far by one. |
| LegacyServer.Server.Broadcast | server.py:25-34 | The connections left are exactly the delivered ones, in order. |

## Left out

- **Sockets, threads and `state_lock`.** Each locked block is one atomic method; interleavings between clients are not modelled.
- **The receive loop's end and `conn.close()`.** Only the bookkeeping of the `finally` block is modelled.
- **JSON.** `json.dumps` and `json.loads` are not modelled, so the broadcast payload is not built. Floating-point field values are not modelled: a decoded field is an integer or "not an integer".
- **Broadcast timing.** When broadcasts happen (after connect, after each receive, after disconnect) is not modelled; only the pruning of connections is.
- **Python's `random`.** Seeding and the probabilities 0.1 and 0.02 are replaced by oracles. `map_seed` is a constructor parameter with no further use; the clients' use of it is out of scope.
- **Minigame input.** `pygame.QUIT` and `sys.exit`, drawing, `animate_guess_row` and the result screen are not modelled. A key event carries one character; multi-character `event.unicode` strings are not modelled.
- **Dict order.** The iteration order of `players` and `objects` is not modelled; no rule depends on it.
- **Rendering and front ends.** `draw` of both maps, the client programs and the menus are not part of this model.
- Feedback.ComputeFeedback: requires a four-digit secret and guess, as the minigame always passes; other lengths, which the source indexes past or ignores, are not modelled.
- Minigame.CombatMinigame: models the corrected event loop (see Findings) and returns no result while the given events leave the round running.
- Spawn.SpawnObjects: requires the map to cover the world's size, so maps smaller than the world are not modelled. No caller passes a map at all. The source handles a bordered map of at least 3 by 3 that is smaller than the world, because the fill only steps onto floor cells inside the map's border. It raises IndexError only when the fill indexes outside the map.
- OpenWorldMap.GenerateOpenWorld: requires width and height of at least 1, and the sizes are `nat`, so negative sizes are excluded as well. When both sizes are at most 0 (0 by 0, or both negative), the source returns the empty map `[]` without error; that case is not modelled. When only one size is at most 0, the border loops raise IndexError.
- OpenWorldMap.GameMap.constructor: requires width and height of at least 1 and takes them as `nat`, as GenerateOpenWorld does. The empty map that the source builds when both sizes are at most 0 (including negative sizes, with or without `open_world`) is not modelled.
- WalledMap.GameMap.constructor: requires width and height of at least 1 and takes them as `nat`, so negative sizes are excluded. When both sizes are at most 0, the source builds the empty map `[]` without error; that case is not modelled. When only one size is at most 0, the border loops raise IndexError.
- PlayerEntity.Player.Move: takes the map of map.py. Passing the open-world map of game/map.py, which has an `is_walkable` of its own, is not modelled.
- Protocol.FramesConcat, NetworkServer.Server.Receive, LegacyServer.Server.Receive: the received data is modelled as text already decoded. `data.decode()` runs on each receive separately, and a multi-byte UTF-8 character split across two receives, or an invalid byte sequence, raises UnicodeDecodeError outside the per-line `try`, which ends that client's receive loop; that decoding and its failure are not modelled.

## Findings

| source | as written | input that shows it | evidently intended | confidence | as-written member | corrected member |
|---|---|---|---|---|---|---|
| game/combat.py:111-133 | Every event fetched in one frame is handled, even after a guess has set `running` to false. | secret 1234, attempts_allowed 1, one batch: 5 5 5 5 RETURN 1 2 3 4 RETURN. The first guess loses, the second wins, and the result is enemy_hp after 2 attempts out of 1. | Events after the round has ended are ignored, so a lost round stays lost and attempts never exceed the allowance. | medium, not executed | Minigame.LateVictory | Minigame.CombatMinigame |
