# Dungeon crawler: a verified model

A Dafny model of the core of a multiplayer dungeon crawler: the framed byte stream between client and server, the
dungeon simulation, the lobbies and running games, the packed names and hashed ids, and the client's picture of a
dungeon. `dafny verify dfyconfig.toml` checks it.

| file | what it models |
|---|---|
| `Framing.dfy` | the frame format, what a receiver owes for a byte string, and the theorems both codecs share |
| `FrameCodec.dfy` | the codec that client and server run, and exactly when junk on the stream is harmless |
| `ZeroCopyCodec.dfy` | the second codec, with throwing callbacks, and its agreement with the first on every stream |
| `Connection.dfy` | the client's writer, the session's reader, and one whole connection under events in any order |
| `Positions.dfy` | saturating 64-bit arithmetic, distance, one step in a direction |
| `GameMap.dfy`, `Entities.dfy` | the map with barriers; entities, their manager, and the closest target |
| `Worlds.dfy` | the dungeon as a transition system; every random draw and hash-map order is part of an action |
| `Turns.dfy` | what one tick plays: the players' commands and, from the dice, the monsters' moves and attacks |
| `Snapshots.dfy` | the snapshot of a world that clients get, and that it tells the whole world |
| `Dungeons.dfy` | the dungeon object: spawning, the command queue, the tick, and its runs |
| `Render.dfy` | the grid that the client draws from a snapshot |
| `Lobby.dfy`, `LobbyRegistry.dfy`, `LobbyManager.dfy` | one lobby, the three-way registry, the request handlers |
| `DungeonRegistry.dfy`, `GameManager.dfy` | the registry of running games, game start and game tick |
| `GameRuns.dfy` | running games as values: rounds of ticks, the events they post, and where each dungeon comes from |
| `Membership.dfy` | lobbies and games as one transition system: what holds in every run |
| `PackedName.dfy`, `IdHash.dfy` | names packed into 64-bit codes; the 64-bit id mixer |

Each class has a value, and each state-changing method is proved to take the old value to the value that a
specification function gives. The lemmas are about those functions, for all inputs and all runs. A registry
operation is specified for inconsistent values too, so that its recovery branches are part of the model and are proved
unreachable rather than left out. Random draws are inputs, with what the generators guarantee about them as a
precondition; hash-map iteration order and the interleaving of reads, writes and requests are arbitrary choices.
Beside each specification function stands a lemma that says what it means without it: in coordinates, distances, hit
points, bits, map entries. Settings (`LOBBY_MAX_PLAYERS`, hit points, radius, ...) are constants of unspecified
value. Request handlers are atomic steps.

Where code and comments differ, the model follows the code:

- The header comment of `src/common/network/frame_codec.h` says that valid data after corruption is not lost. That holds
  exactly when the corruption leaves no acceptable header pending (`FrameCodec.JunkIsHarmlessIff`); otherwise the pending
  header swallows what follows (`FrameCodec.ValidFrameAfterCorruptionIsLost`). The scan reads the length field in the
  combined stream, so three bytes of a length can be completed by the magic of the next frame. "Exactly" is about all
  messages that can follow: for one particular message with a repeating payload a swallowed frame can happen to be
  replaced by an equal one.
- The comment of `src/common/network/frame_codec_zc.h` (lines 66-72) says of the second codec that a valid frame following a
  malformed one is still recovered. After a frame whose length is too large that is so (`Framing.Resynchronises`); after
  junk in general exactly when the bytes then kept hold no acceptable header (`ZeroCopyCodec.JunkIsHarmlessIff`).
- The server sends signed corners as unsigned numbers, so the guards let a map pass exactly if neither pair of corner
  coordinates straddles zero and the map has at most 40000 cells. It is then drawn exactly if its lower edge is not -2^63:
  there the signed row counter overflows (`Render.DrawnIff`, `Render.LowestRowOverflows`). The overflow is undefined in the
  source; the model makes it an outcome of its own, neither a picture nor a message.
- `findClosestTarget` is to find the closest living target within the radius. It does exactly if the radius is not the
  largest 64-bit number or nobody is alive: one above that radius wraps around to zero, and nobody is found
  (`Entities.FindsClosestIff`, `Entities.LargestRadiusMisses`). The callers pass 32-bit radii.
- A player whose draws hit no free cell is in the roster of a game but not in its dungeon. He is told of the end of the
  game exactly if a cell was found for him (`GameRuns.ToldIff`). If one and the same cell is drawn for two players, the second
  is not told (`GameRuns.SecondIsNotTold`), and such a game does end (`GameRuns.SuchAGameEnds`).
- A disconnect clears the buffer of a write that may still be in flight: that buffer is intact exactly while connected,
  and empty afterwards (`Connection.Delivery`).

## Model

| member | source | states |
|---|---|---|
| Framing.ReceiveBuffer.Commit | src/server/network/session.cpp:87 | bytes enter the receive buffer at the back |
| Framing.ReceiveBuffer.Consume | src/common/network/frame_codec.h:180 | bytes leave the receive buffer at the front |
| Framing.ParseInTwoReads | src/common/network/frame_codec.h:121-180 | parsing a string equals parsing a prefix, then parsing what was kept followed by the rest |
| Framing.ChunkingNeverMatters | src/common/network/frame_codec.h:103-182 | for every byte string and every split into reads, the payloads and the final remainder are those of one extraction of the whole |
| Framing.Retention | src/common/network/frame_codec.h:165-181 | the remainder is a suffix of the input, re-extracting it yields nothing, and it is shorter than the scan bound or an incomplete frame below 8 bytes plus the cap |
| Framing.MagicBytes | src/common/network/frame_codec.h:46-53 | the magic is DE AD BE EF on the wire, and only those bytes read as the magic |
| Framing.WireFormat | src/common/network/frame_codec.h:63-85 | the frame byte by byte: DE AD BE EF, the length with the most significant byte first, the payload |
| Framing.RoundTrip | src/common/network/frame_codec.h:63-182 | encoding any payloads within the cap and extracting gives them back in order with an empty remainder |
| Framing.Resynchronises | src/common/network/frame_codec.h:121-163 | after junk in which every complete magic declares a length above the cap, extraction returns exactly the payloads that follow |
| FrameCodec.EncodeFrame | src/common/network/frame_codec.h:63-85 | fills magic, big-endian length and payload; an oversized payload gives the empty vector |
| FrameCodec.ScanFrames | src/common/network/frame_codec.h:117-177 | the scan loop returns the payloads of all complete frames and the number of bytes to consume |
| FrameCodec.ExtractFrames | src/common/network/frame_codec.h:103-182 | the buffer is left with exactly the remainder, the result is every complete payload |
| FrameCodec.NothingPendingDelivers | src/common/network/frame_codec.h:121-163 | with no acceptable header pending, every following message arrives, after the junk's own frames |
| FrameCodec.PendingLoses | src/common/network/frame_codec.h:130-156 | with an acceptable header pending, one empty message is already lost |
| FrameCodec.JunkIsHarmlessIff | src/common/network/frame_codec.h:29-33 | junk costs no following message if and only if extraction leaves no acceptable header pending |
| FrameCodec.ValidFrameAfterCorruptionIsLost | src/common/network/frame_codec.h:29-33 | a stray header for 16 bytes followed by a valid empty frame: nothing is delivered |
| ZeroCopyCodec.EncodeFrame | src/common/network/frame_codec_zc.h:190-206 | header and payload buffers concatenate to the same frame; oversized payloads are refused |
| ZeroCopyCodec.Scan | src/common/network/frame_codec_zc.h:106-139 | delivers every complete payload in order and stops at the first unresolved byte, or at the frame whose callback throws |
| ZeroCopyCodec.Decode | src/common/network/frame_codec_zc.h:231-256 | consumes what was resolved on every exit; after a throw the buffer starts with exactly the undelivered frame |
| ZeroCopyCodec.ThrowLosesNothing | src/common/network/frame_codec_zc.h:241-255 | what was delivered before a throw, followed by what the buffer left behind would deliver, is what the whole buffer would have delivered; the undelivered frame comes first, whole |
| ZeroCopyCodec.NarrowTrailsWide | src/common/network/frame_codec_zc.h:110-127 | on one string both codecs find the same payloads, and the first keeps a suffix of what the second keeps, dropping no magic |
| ZeroCopyCodec.CodecsAgree | src/common/network/frame_codec_zc.h:106-139 | after each chunk of any chunk sequence both codecs have delivered the same payloads; only bytes that start no magic separate their remainders |
| ZeroCopyCodec.ShortRest | src/common/network/frame_codec_zc.h:110-127 | fewer than eight kept bytes hold an acceptable header exactly if the first codec, on the same bytes, would keep one |
| ZeroCopyCodec.DeliverAlike | src/common/network/frame_codec_zc.h:106-139 | after any junk, both codecs deliver all following messages or neither does |
| ZeroCopyCodec.JunkIsHarmlessIff | src/common/network/frame_codec_zc.h:66-72 | junk costs no following message if and only if no acceptable header stands in the bytes that the codec keeps after it |
| Connection.Client.Connect | src/client/network/client.cpp:52 | the state of a fresh connection |
| Connection.Client.Send | src/client/network/client.cpp:105-132 | encodes and queues an acceptable message, and starts a write when none is in progress |
| Connection.Client.DoWrite | src/client/network/client.cpp:155-181 | hands the front of the queue to the socket, unless a write is in progress |
| Connection.Client.OnWriteCompleted | src/client/network/client.cpp:169-180 | the next write follows a success, the connection staying up; a failure disconnects |
| Connection.Client.HandleDisconnect | src/client/network/client.cpp:183-220 | the first disconnect clears queue and flags, later ones do nothing |
| Connection.Session.OnRead | src/server/network/session.cpp:85-113 | appends the chunk, extracts, and hands every payload on in order |
| Connection.StepKeeps | src/client/network/client.cpp:105-220 | no event breaks the link between accepted messages, sent bytes, received bytes and delivered payloads |
| Connection.Delivery | src/client/network/client.cpp:105-181 | for all events in any order: delivered is a prefix of accepted, all of it once idle and drained; one write in flight, its buffer untouched exactly while connected and empty after a disconnect, at most 1000 queued, nothing stranded |
| Connection.ConnectedIff | src/client/network/client.cpp:169-180 | in every run the client is connected exactly until the first drop or failed write that takes place |
| Connection.StaysUpAndAccepts | src/client/network/client.cpp:105-132 | without a drop or a failed write the client stays connected; a message is accepted exactly if connected, fewer than 1000 frames wait and it is within 16 MiB; a refused one changes nothing |
| Connection.NothingIsStranded | src/client/network/client.cpp:155-181 | from every state in which the client is connected, transmission, successful completions and reads alone deliver everything that was accepted |
| Positions.Add | src/server/domain/map/position.h:85-95 | signed addition equals the true sum clamped to 64 bits, with no intermediate overflow |
| Positions.Sub | src/server/domain/map/position.h:97-107 | signed subtraction equals the true difference clamped |
| Positions.AddUnsigned | src/server/domain/map/position.h:85-95 | unsigned addition equals the true sum clamped |
| Positions.SubUnsigned | src/server/domain/map/position.h:97-107 | unsigned subtraction equals the true difference clamped at zero |
| Positions.Mul | src/server/domain/map/position.h:109-140 | signed multiplication equals the true product clamped, with truncating divisions as guards |
| Positions.MulUnsigned | src/server/domain/map/position.h:115-119 | unsigned multiplication equals the true product clamped |
| Positions.Delta | src/server/domain/map/position.h:79-83 | the wrapping unsigned difference is the exact distance of two signed words |
| Positions.Position.ManhattanDistance | src/server/domain/map/position.h:50-54 | equals the smaller of the true distance and 2^64-1 |
| Positions.DistanceIsAMetric | src/server/domain/map/position.h:50-54 | zero only for equal positions, symmetric, and obeys the triangle inequality |
| Positions.StepLength | src/server/domain/map/position.h:150-163 | one step has length one, except exactly at the end of the number range or for an unknown direction byte |
| Positions.MinusUndoesPlusIff | src/server/domain/map/position.h:23-44 | subtracting undoes adding exactly when the addition did not saturate |
| GameMap.Map.constructor | src/server/domain/map/game_map.cpp:8-15 | an ordered pair of corners gives a map without barriers |
| GameMap.Map.AddBarrier | src/server/domain/map/game_map.cpp:17-38 | adds exactly a free cell of the map; every barrier stays on the map |
| GameMap.CornersAreOnMap | src/server/domain/map/map_size.h:16-19 | both corners and the two others belong to the map |
| GameMap.OnMapIff | src/server/domain/map/map_size.h:16-19 | a position is on the map exactly if its exact distances to the two corners add up to the distance of the corners |
| GameMap.Map.RemoveBarrier | src/server/domain/map/game_map.cpp:40-47 | removes that barrier and reports whether it was there |
| Entities.Entity.Damage | src/server/domain/entity/entity.h:57-62 | hit points saturate at zero, and zero is death |
| Entities.Entity.SetPosition | src/server/domain/entity/entity.h:53-55 | moves the entity and changes nothing else |
| Entities.DamageIsBounded | src/server/domain/entity/entity_health.h:14-16 | hit points fall by the smaller of the damage and what is left; nothing else changes but death |
| Entities.EntityManager.AddEntity | src/server/domain/dungeon/entity_manager.h:27-33 | a known id is refused, a new one gets a fresh living entity |
| Entities.EntityManager.MoveEntity | src/server/domain/dungeon/entity_manager.h:36-43 | moves a living entity, touches no other, refuses the rest |
| Entities.EntityManager.IsOccupied | src/server/domain/dungeon/entity_manager.h:55-62 | true exactly when some entity, living or dead, stands there |
| Entities.EntityManager.FindClosestTarget | src/server/domain/dungeon/entity_manager.h:65-85 | in any iteration order and for any 64-bit radius: a living target of least distance within the radius, or none exactly when there is none, if and only if the radius is not the largest or nobody is alive |
| Entities.FindsClosestIff | src/server/domain/dungeon/entity_manager.h:70 | the bound of one above the radius wraps around for the largest radius, and only then, and only if somebody is alive, the search misses |
| Entities.ClosestIsNearest | src/server/domain/dungeon/entity_manager.h:65-85 | in exact distances, below the largest radius: the target lives, is within the radius and none that lives is nearer; without one, none that lives is within it |
| Entities.LargestRadiusMisses | src/server/domain/dungeon/entity_manager.h:66-75 | a living target on the very spot is not found with the largest radius |
| Entities.EntityManager.RemoveDeadEntities | src/server/domain/dungeon/entity_manager.h:87-95 | exactly the living remain, unchanged |
| Worlds.SoundForever | src/server/domain/dungeon/dungeon.cpp:32-75 | in every reachable state all entities, living or dead, stand on pairwise distinct cells of the map without barrier |
| Worlds.AvailableIff | src/server/domain/dungeon/collision_check.h:20-22 | a cell is available exactly if its coordinates lie between the corners, edges included, and no barrier and no entity, living or dead, has them |
| Worlds.MoveIsOneStep | src/server/domain/dungeon/dungeon.cpp:32-48 | a move command with any direction byte shifts only that player, by one in the direction meant, when he lives and the cell ahead is free, and otherwise changes nothing; the same for a monster |
| Worlds.HitReachesClosest | src/server/domain/dungeon/dungeon.cpp:18-28 | a legal attack of a player strikes one monster at most, alive, in reach and none nearer in exact distances, which loses the smaller of damage and hit points; it strikes one exactly if it does damage and there is one; the same for a monster |
| Worlds.VitalForever | src/server/domain/entity/entity.h:57-62 | with positive starting hit points, alive means hit points are left, in every reachable state |
| Worlds.PlayIsLater | src/server/domain/dungeon/dungeon.cpp:50-75 | play keeps the id sets, never raises hit points, and the dead neither revive nor move |
| Worlds.TheDeadDoNothing | src/server/domain/dungeon/monster_control.h:36-65 | all that the dead of some moment try later can be deleted from any stretch of play: it stays legal and leads to the same world |
| Worlds.GameOverForever | src/server/domain/dungeon/dungeon.cpp:99-106 | once no player is alive, none ever is |
| Dungeons.CommandQueue.Push | src/server/domain/dungeon/command_queue.h:13-16 | appends a command |
| Dungeons.CommandQueue.PopAll | src/server/domain/dungeon/command_queue.h:19-24 | returns all commands in order and leaves none |
| Snapshots.CreateGameState | src/server/domain/dungeon/create_game_state.cpp:5-46 | the snapshot lists every barrier and every entity, each entity once, in some order |
| Snapshots.SnapshotIsTrue | src/server/domain/dungeon/create_game_state.cpp:5-46 | every entity has exactly one entry, with its kind, life and hit points, whose two words read back as its position; nothing else is listed; corners and barriers read back too |
| Dungeons.Dungeon.IsAvailable | src/server/domain/dungeon/collision_check.h:20-22 | on the map, no barrier, no player and no monster there |
| Dungeons.Dungeon.DrawFree | src/server/domain/dungeon/spawner.h:27-45 | finds the first available of at most 101 draws, if there is one |
| Dungeons.Dungeon.SpawnEntity | src/server/domain/dungeon/spawner.h:21-53 | succeeds exactly for a new id with an available draw, puts the entity on the first such draw at its full hit points, and otherwise leaves the world as it was |
| Dungeons.Dungeon.Place | src/server/domain/dungeon/spawner.h:47 | the new entity stands on the available cell, and the world stays reachable |
| Dungeons.SpawnIs | src/server/domain/dungeon/spawner.h:27-45 | the first available draw is unique, so a spawn has one outcome |
| Dungeons.SpawnTakesFirstFree | src/server/domain/dungeon/spawner.h:21-53 | of a hundred and one draws the first available cell is taken, by a living entity with the hit points and radius of its kind; without one, or for a known id, the world stays as it is |
| Dungeons.Dungeon.Populate | src/server/domain/dungeon/dungeon.h:67-77 | from an empty world: every given player in order, then the configured number of monsters for each, numbered from 0, each from its own draws |
| Dungeons.PlayersAreInvited | src/server/domain/dungeon/dungeon.h:67-70 | exactly those given players are spawned whose turn comes while one of their draws is available |
| Dungeons.MonstersAreNumbered | src/server/domain/dungeon/dungeon.h:72-77 | spawning monsters changes no player and numbers them below the total |
| Dungeons.NewDungeon | src/server/domain/dungeon/dungeon.h:59-78 | in a new dungeon everybody is unhurt, and monster number i is there exactly if it is due and a cell was free when its turn came |
| Dungeons.Dungeon.constructor | src/server/domain/dungeon/dungeon.h:59-78 | a new dungeon is the world populated by these spawns, is reachable by legal spawns alone, and has no pending command |
| Dungeons.Dungeon.NextMobId | src/server/domain/dungeon/dungeon.h:39-41 | numbers monsters from zero without reuse |
| Dungeons.Dungeon.AddPlayerAttackCommand | src/server/domain/dungeon/dungeon.cpp:11-30 | queues the attack |
| Dungeons.Dungeon.AddMovePlayerCommand | src/server/domain/dungeon/dungeon.cpp:32-48 | queues the move |
| Turns.CommandsAreObeyed | src/server/domain/dungeon/dungeon.cpp:11-57 | each command of a queue, in order, is a step of its player or a strike of its player at the monsters, in the world that its predecessors leave |
| Dungeons.Dungeon.TryStep | src/server/domain/dungeon/dungeon.cpp:39-46 | a living entity moves to the next cell if it is available |
| Dungeons.Dungeon.TryHit | src/server/domain/dungeon/dungeon.cpp:18-28 | a living attacker damages a closest target, if there is one |
| Dungeons.Dungeon.Execute | src/server/domain/dungeon/dungeon.cpp:11-48 | one command is one legal action of the world, and its effect is the step or the strike that was asked for |
| Dungeons.Dungeon.MoveRandomMonsters | src/server/domain/dungeon/monster_control.h:25-48 | of the first min(asked for, number of monsters) draws, each whose monster lives is one move by it in the drawn direction, in the order drawn, and nothing else |
| Dungeons.Dungeon.PerformRandomAttacks | src/server/domain/dungeon/monster_control.h:51-76 | of the first min(asked for, number of monsters) draws, each whose monster lives is one legal attack by it with the given power, in the order drawn, and nothing else |
| Turns.EveryDrawActs | src/server/domain/dungeon/monster_control.h:25-76 | while all drawn monsters live, every draw is an action, in the order drawn |
| Turns.DrawnAndAliveAct | src/server/domain/dungeon/monster_control.h:36-65 | exactly the drawn monsters that are alive act |
| Turns.TurnsKeepLives | src/server/domain/dungeon/monster_control.h:25-76 | no monster dies in the monsters' turn |
| Dungeons.Dungeon.ProcessTick | src/server/domain/dungeon/dungeon.cpp:50-89 | takes the world and its queue through the tick that the dice give: commands in order, then one move and one attack for each drawn monster that lives, and an empty queue; no snapshot exactly when no player is alive, and then never again |
| Dungeons.Dungeon.IsGameOver | src/server/domain/dungeon/dungeon.cpp:99-106 | true exactly when no player is alive |
| Dungeons.Dungeon.GetPlayers | src/server/domain/dungeon/dungeon.cpp:91-97 | lists the player ids, each once |
| Dungeons.RecordedIsSound | src/server/domain/dungeon/dungeon.cpp:50-89 | a dungeon object's world is a reachable one and has all that reachable worlds have |
| Dungeons.RecordedLater | src/server/domain/dungeon/dungeon.cpp:78-80 | what is played on a dungeon makes it later, and a finished game stays finished |
| Dungeons.TicksIsLater | src/server/domain/dungeon/dungeon.cpp:50-75 | every tick leads to a later world: same ids, no hit point gained, the dead stay where they are |
| Dungeons.AfterTicksIsLater | src/server/domain/dungeon/dungeon.cpp:50-75 | so does any number of ticks, with any commands between them |
| Render.PlaceOnGrid | src/client/ui/render_game_state.cpp:87-95 | writes the symbol exactly into the cells of the items on the map |
| Render.PaintGrid | src/client/ui/render_game_state.cpp:83-100 | each cell shows a mob, else a player, else a barrier, else the floor |
| Render.PrintRows | src/client/ui/render_game_state.cpp:112-116 | the rows from top to bottom; nothing exactly if the signed counter overflows below a bottom row of -2^63 |
| Render.RenderGameState | src/client/ui/render_game_state.cpp:46-131 | the guards in order, then frame, rows and a line per entity, for every snapshot |
| Render.DrawnIff | src/client/ui/render_game_state.cpp:56-116 | refused exactly if a pair of corners straddles zero or the map has more than 40000 cells; drawn exactly if not refused and the lower edge is not -2^63 |
| Render.LowestRowOverflows | src/client/ui/render_game_state.cpp:113 | a map of two by two cells at the lower end of the number range passes the guards and is not drawn |
| Render.NoPictureBecause | src/client/ui/render_game_state.cpp:56-81 | which message or failure a map without a picture gives; the overflow message never |
| Render.SymbolIsTrue | src/server/domain/dungeon/create_game_state.cpp:15-43 | the symbol of a cell is what stands there in the world, through the unsigned coordinates |
| Render.NothingIsLost | src/client/ui/render_game_state.cpp:97-116 | for every reachable dungeon on a displayable map: a frame around one place per position of the map, each showing what stands there; one @ per player, one M per monster, a b per barrier, a dot on free cells, and nothing else; below, the number of entities and one line for each with its own hit points |
| Lobby.LobbyObject.constructor | src/server/domain/lobby/lobby.cpp:9-13 | the founder leads and is not added |
| Lobby.LobbyObject.AddPlayer | src/server/domain/lobby/lobby.cpp:15-28 | adds exactly a new player while there is room, not ready, and leaves the leader and the other flags alone |
| Lobby.LobbyObject.RemovePlayer | src/server/domain/lobby/lobby.cpp:30-41 | removes a member; a leaving leader is followed by a remaining member |
| Lobby.LobbyObject.AssignNewLeader | src/server/domain/lobby/lobby.cpp:83-89 | some remaining member leads; an empty lobby is left as it is |
| Lobby.LobbyObject.SetReady | src/server/domain/lobby/lobby.cpp:47-55 | sets the flag of a member only |
| Lobby.LobbyObject.CheckAllReady | src/server/domain/lobby/lobby.cpp:57-61 | true exactly when every player is ready |
| Lobby.LobbyObject.GetAllPlayers | src/server/domain/lobby/lobby.cpp:91-98 | lists the players in some order, each once |
| LobbyRegistry.AddLobbyAgreesIff | src/server/domain/lobby/lobby_registry.cpp:11-28 | adding a lobby keeps the records in agreement exactly when it is refused or empty |
| LobbyRegistry.RemoveLobbyRefines | src/server/domain/lobby/lobby_registry.cpp:30-49 | removing a lobby deletes its players from the membership map and nothing else |
| LobbyRegistry.AddPlayerRefines | src/server/domain/lobby/lobby_registry.cpp:75-116 | an add is an insertion into one partial map or changes nothing; the roll-back branch is not taken |
| LobbyRegistry.RollBackRestores | src/server/domain/lobby/lobby_registry.cpp:99-110 | a roll-back leaves indexes, flags and other lobbies as they were, and the leader unless the returned player led |
| LobbyRegistry.RemovePlayerRefines | src/server/domain/lobby/lobby_registry.cpp:118-160 | a removal is a deletion from the map or changes nothing; an emptied lobby disappears |
| LobbyRegistry.AgreedNeverRecovers | src/server/domain/lobby/lobby_registry.cpp:128-143 | with agreeing records neither branch that only drops a wrong index entry is taken |
| LobbyRegistry.RecoveryDropsEntry | src/server/domain/lobby/lobby_registry.cpp:128-143 | a recovery drops the wrong entry of the index by player and nothing else |
| LobbyRegistry.AddPlayerHealthy | src/server/domain/lobby/lobby_registry.cpp:90-94 | an add keeps every lobby non-empty, within capacity and led by a member |
| LobbyRegistry.RemovePlayerHealthy | src/server/domain/lobby/lobby_registry.cpp:137-157 | a removal keeps them so |
| LobbyRegistry.Lobbies.AddLobby | src/server/domain/lobby/lobby_registry.cpp:11-28 | registers a lobby under a free number; a null lobby or a taken number is refused |
| LobbyRegistry.Lobbies.RemoveLobby | src/server/domain/lobby/lobby_registry.cpp:30-49 | erases the lobby and both kinds of index entries |
| LobbyRegistry.Lobbies.AddPlayerToLobby | src/server/domain/lobby/lobby_registry.cpp:75-116 | the checks, the lobby's own set, then both indexes |
| LobbyRegistry.Lobbies.MapPlayer | src/server/domain/lobby/lobby_registry.cpp:96-111 | inserts both index entries, or rolls all three records back |
| LobbyRegistry.Lobbies.RemovePlayerFromLobby | src/server/domain/lobby/lobby_registry.cpp:118-160 | removes a player, cleans stale mappings, deletes an emptied lobby |
| LobbyRegistry.Lobbies.UnmapPlayer | src/server/domain/lobby/lobby_registry.cpp:145-157 | erases both index entries and an emptied lobby |
| LobbyRegistry.Lobbies.GenerateNextLobbyId | src/server/domain/lobby/lobby_registry.cpp:174-176 | numbers lobbies without reuse |
| LobbyManager.NeverStale | src/server/domain/lobby/lobby_manager.cpp:143-160 | with agreeing records the stale-mapping recovery is never taken |
| LobbyManager.StaleIsCleaned | src/server/domain/lobby/lobby_manager.cpp:93-160 | a mapping to a missing lobby is dropped, and the request fails |
| LobbyManager.CreateRefines | src/server/domain/lobby/lobby_manager.cpp:46-71 | creation succeeds exactly for a player in no lobby and a positive capacity, giving a lobby of its leader alone; otherwise membership is unchanged |
| LobbyManager.JoinRefines | src/server/domain/lobby/lobby_manager.cpp:73-91 | joining succeeds exactly when the lobby exists, has room and the player is in none; he is added not ready, the leader and the other flags stay, no other lobby is touched; each refusal has its response and changes nothing |
| LobbyManager.LeaveRefines | src/server/domain/lobby/lobby_manager.cpp:93-113 | leaving succeeds exactly for a member, who is then in no lobby; the lobby is gone if nobody else was there, else the others keep their flags and a member leads; no other lobby is touched |
| LobbyManager.ReadyRefines | src/server/domain/lobby/lobby_manager.cpp:115-131 | a ready request changes one flag, and is refused only to a player in no lobby |
| LobbyManager.Manager.OnCreateLobbyRequest | src/server/domain/lobby/lobby_manager.cpp:46-71 | the handler over the registry, with both failure branches |
| LobbyManager.Manager.OnJoinLobbyRequest | src/server/domain/lobby/lobby_manager.cpp:73-91 | the handler with its responses |
| LobbyManager.Manager.OnLeaveLobbyRequest | src/server/domain/lobby/lobby_manager.cpp:93-113 | the handler with its responses |
| LobbyManager.Manager.OnPlayerReadyRequest | src/server/domain/lobby/lobby_manager.cpp:115-131 | the handler with its responses |
| LobbyManager.Manager.GetLobbyForPlayer | src/server/domain/lobby/lobby_manager.cpp:143-160 | looks the lobby up and cleans a stale mapping |
| DungeonRegistry.AddRefines | src/server/domain/dungeon/dungeon_registry.cpp:14-57 | a game is created exactly for distinct players who are in none, and takes all of them |
| DungeonRegistry.RemoveRefines | src/server/domain/dungeon/dungeon_registry.cpp:59-82 | ending a game releases exactly its players; the three maps stay in agreement |
| DungeonRegistry.DistinctIff | src/server/domain/dungeon/dungeon_registry.cpp:20-25 | comparing the two sizes detects exactly the duplicates |
| DungeonRegistry.Games.AddDungeon | src/server/domain/dungeon/dungeon_registry.cpp:14-57 | checks, then a new dungeon populated with these players and its entries in the three maps; a refusal leaves the dungeons as they were |
| DungeonRegistry.Games.MayEnter | src/server/domain/dungeon/dungeon_registry.cpp:15-34 | non-empty, no duplicates, nobody in another game |
| DungeonRegistry.Games.RemoveDungeon | src/server/domain/dungeon/dungeon_registry.cpp:59-82 | erases the dungeon and its players' entries |
| Membership.StartIsAllOrNothing | src/server/app/game_manager.cpp:34-55 | the whole member set of one lobby enters one new game and the lobby vanishes with all others untouched, exactly when no member is in a game; or nothing changes |
| Membership.StepKeeps | src/server/app/game_manager.cpp:34-82 | every handler keeps lobbies and games coherent |
| Membership.EveryRun | src/server/domain/lobby/lobby_manager.cpp:46-160 | in every run: lobbies non-empty, within capacity, led by a member, numbered below the next id; records agree; between handlers, stale mapping, roll-back and recovery cannot occur |
| Membership.CreateNeverRollsBack | src/server/domain/lobby/lobby_manager.cpp:54-63 | inside the create handler, in every run: the number is free and the founder is mapped without roll-back |
| Membership.StartNeverRecovers | src/server/app/game_manager.cpp:43-46 | inside the start handler, in every run and before each step of its loop: no recovery branch is taken, and the step removes its player |
| Membership.EveryGame | src/server/domain/dungeon/dungeon_registry.cpp:14-82 | in every run the three maps of the games agree and every game has players |
| GameManager.Manager.OnStartGameRequest | src/server/app/game_manager.cpp:34-55 | the handler takes the system to the specified start, leaves all dungeons as they were, and populates any new one with the members of the lobby; it keeps every dungeon on the roster of its game |
| GameManager.Manager.TickDungeon | src/server/app/game_manager.cpp:61-75 | one dungeon is ticked with its dice; exactly a game-over event per player, or exactly the new state, is posted |
| GameManager.Manager.OnGameTick | src/server/app/game_manager.cpp:57-82 | every dungeon is ticked once, in some order, and the events are exactly theirs in that order; exactly the finished dungeons leave, and each that stays has a living player; it keeps every dungeon on the roster of its game |
| GameRuns.ToldArePlayers | src/server/app/game_manager.cpp:66-70 | the end of a game is told exactly to the players of its dungeon |
| GameRuns.ToldIff | src/server/app/game_manager.cpp:66-70 | a member of the roster is told of the end exactly if a free cell was drawn for him at the start |
| GameRuns.StartDescends | src/server/app/game_manager.cpp:42 | a started game adds a dungeon populated with its roster, so every dungeon stems, by ticks, from the roster that the registry keeps for it |
| GameRuns.RoundDescends | src/server/app/game_manager.cpp:61-63 | a round of ticks keeps that |
| GameRuns.EndDescends | src/server/app/game_manager.cpp:77-81 | the end of games keeps that, and the agreement of the maps |
| GameRuns.NobodyPlaysTwice | src/server/domain/dungeon/dungeon_registry.cpp:14-57 | whoever stands in a dungeon is in the roster of its game, and in no other dungeon |
| GameRuns.RoundTellsPlacedMembers | src/server/app/game_manager.cpp:61-71 | a round that ends a game tells nobody outside its roster, and in it exactly the members for whom a free cell was drawn at the start |
| GameRuns.RoundPostsStates | src/server/app/game_manager.cpp:74 | a game in which a player lives posts one state and nothing else: under its own number, and telling its whole world |
| GameRuns.SecondIsNotTold | src/server/domain/dungeon/spawner.h:41-45 | if one cell is drawn for two players again and again, whatever is drawn for the monsters and however many ticks it takes, the end is told to the first and never to the second |
| GameRuns.BlowIsTick | src/server/domain/dungeon/dungeon.cpp:58-75 | one attack by one of two or more monsters, and nothing else, is a tick that the code can play |
| GameRuns.SuchAGameEnds | src/server/domain/dungeon/dungeon.cpp:58-80 | such a game does end after some ticks, and its end is posted to the first player only: with a monster drawn beside the player, another one anywhere, and a positive attack and radius |
| GameRuns.AllEndRefines | src/server/app/game_manager.cpp:77-81 | ending several games releases exactly their players |
| PackedName.Find | src/common/utility/hash.h:31-35 | the position of a letter in the charset |
| PackedName.SetDigit | src/common/utility/hash.h:24-41 | or-ing six bits into a free place changes that place only |
| PackedName.PackedParts | src/common/utility/hash.h:24-41 | a code holds each letter's index in its own six bits and the length on top |
| PackedName.BitsOfCode | src/common/utility/hash.h:24-41 | bit by bit: the length in the top four, letter i in the six from bit 6 * i on |
| PackedName.LetterTable | src/common/utility/hash.h:31-35 | the charset in its order: lower case, upper case, numerals |
| PackedName.EncodeString | src/common/utility/hash.h:24-41 | the loop computes the code, or nothing for a long or non-alphanumeric name |
| PackedName.DecodeString | src/common/utility/hash.h:46-77 | the loop computes the name, or nothing for a malformed code |
| PackedName.EncodeDomain | src/common/utility/hash.h:24-41 | exactly alphanumeric names of at most ten letters have a code |
| PackedName.NamesAndCodes | src/common/utility/hash.h:24-77 | a name encodes to a code if and only if the code decodes to the name |
| IdHash.Hash | src/common/utility/hash.h:79-92 | the id can be computed back from its hash, and no other id has that hash |
| IdHash.MixedIds | src/common/utility/hash.h:79-92 | the hashes of three ids |
| IdHash.MultipliersInvert | src/common/utility/hash.h:81-87 | each odd multiplier has an inverse modulo 2^64 |
| IdHash.MixIsABijection | src/common/utility/hash.h:79-92 | the mixer is a bijection on 64-bit words, so two ids never collide |

## Left out

- Sockets, strands, timers, logging, terminal and keyboard: reads, partial writes and completions are events in any order.
- Reconnects: one connection from connected to its first disconnect; an old write that completes after a reconnect is not modelled.
- The server's own writer, the session registry, event bus, message routing and the wire format of messages: other concerns than the ones above.
- Entities.Entity: `getEntity` hands out a pointer in the source; here damage goes through the manager that owns the entity.
- Positions.Position: `+=` and `-=` are modelled by the value they leave behind; `euclideanDistance` is floating point.
- Dungeons.Dungeon: the spawner, the collision checker and the monster controller hold references to the dungeon's parts, and are methods of the dungeon here.
- Dungeons.Dungeon.Execute: a queued command is a value; that its closure finds the dungeon already destroyed is not modelled.
- Render.RenderGameState: the text of the messages, of the total and of the hit-point lines is not spelled out.
- GameManager.Manager: move and attack requests only look up the player's dungeon and queue a command; the dungeon's map is a parameter instead of a setting.
- LobbyManager.Manager: listing the lobbies; the join time of a player.
- Identifiers are unbounded: the wrap-around of the 64-bit counters for lobbies, games and monsters is not modelled.
- PackedName.EncodeString: the shift `6 * pos` is written out per position; the charset is the concatenation of its three runs.
