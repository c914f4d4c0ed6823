/** The dungeon object: spawning, the command queue, the tick, and what holds in all its runs. */
module Dungeons {
  import opened Wrappers
  import opened Bytes
  import opened Positions
  import opened GameMap
  import opened Entities
  import opened Worlds
  import opened Turns
  import opened Snapshots

  const MAX_SPAWN_ATTEMPTS: nat := 100
  const MONSTERS_PER_PLAYER: nat

  class CommandQueue {
    var queue: seq<Command>

    constructor ()
      ensures queue == []
    {
      queue := [];
    }

    method Push(c: Command)
      modifies this
      ensures queue == old(queue) + [c]
    {
      queue := queue + [c];
    }

    method PopAll() returns (local: seq<Command>)
      modifies this
      ensures local == old(queue) && queue == []
    {
      local, queue := queue, [];
    }
  }

  // ---------------------------------------------------------------------------------------
  // The dungeon
  // ---------------------------------------------------------------------------------------

  /** The n-th position that the generator draws for one spawn. */
  type Draws = nat -> Position

  /** Spawning takes the first available position among the first try and a hundred retries. */
  ghost predicate FirstAvailable(w: World, draws: Draws, k: nat) {
    k <= MAX_SPAWN_ATTEMPTS && Available(w, draws(k)) && forall j: nat :: j < k ==> !Available(w, draws(j))
  }

  ghost predicate HasFreeDraw(w: World, draws: Draws) {
    exists k :: FirstAvailable(w, draws, k)
  }

  function SpawnOf(kind: Kind, id: Id, pos: Position): Action {
    if kind.Player? then SpawnPlayer(id, pos) else SpawnMonster(id, pos)
  }

  /** One spawn: the first available draw, for a new id; otherwise nothing. */
  ghost function AfterSpawn(w: World, kind: Kind, id: Id, draws: Draws): World {
    if id in (if kind.Player? then w.players else w.monsters) then w
    else if HasFreeDraw(w, draws) then
      var k :| FirstAvailable(w, draws, k);
      Apply(w, SpawnOf(kind, id, draws(k)))
    else w
  }

  lemma SpawnIs(w: World, kind: Kind, id: Id, draws: Draws, k: nat)
    requires id !in (if kind.Player? then w.players else w.monsters) && FirstAvailable(w, draws, k)
    ensures AfterSpawn(w, kind, id, draws) == Apply(w, SpawnOf(kind, id, draws(k)))
  {
    forall j: nat | FirstAvailable(w, draws, j)
      ensures j == k
    {
      assert j < k ==> !Available(w, draws(j));
      assert k < j ==> !Available(w, draws(k));
    }
    hide Available, FirstAvailable, Apply;
  }

  /** A hundred and one draws: the first free cell is taken, by an unhurt entity; without one, nobody comes. */
  lemma SpawnTakesFirstFree(w: World, kind: Kind, id: Id, draws: Draws, k: nat)
    ensures var m := if kind.Player? then w.players else w.monsters;
            var hp := if kind.Player? then PLAYER_DEFAULT_HP else MONSTER_DEFAULT_HP;
            var spawned := m[id := EntityValue(draws(k), hp, true, DEFAULT_RADIUS_ATTACK)];
            && (id in m || (forall j: nat :: j <= 100 ==> !Available(w, draws(j)))
                ==> AfterSpawn(w, kind, id, draws) == w)
            && (id !in m && k <= 100 && Available(w, draws(k)) && (forall j: nat :: j < k ==> !Available(w, draws(j)))
                ==> AfterSpawn(w, kind, id, draws) ==
                    if kind.Player? then w.(players := spawned) else w.(monsters := spawned))
  {
    hide Available;
    if id !in (if kind.Player? then w.players else w.monsters) && FirstAvailable(w, draws, k) {
      SpawnIs(w, kind, id, draws, k);
    }
  }

  /** The first `n` players, in order. */
  ghost function AfterPlayers(w: World, players: seq<Id>, n: nat, draws: nat -> Draws): World
    requires n <= |players|
  {
    if n == 0 then w else AfterSpawn(AfterPlayers(w, players, n - 1, draws), Player, players[n - 1], draws(n - 1))
  }

  /** Monsters number 0 to `n - 1`, with the draws that follow the players'. */
  ghost function AfterMonsters(w: World, n: nat, skip: nat, draws: nat -> Draws): World {
    if n == 0 then w else AfterSpawn(AfterMonsters(w, n - 1, skip, draws), Monster, n - 1, draws(skip + n - 1))
  }

  /** A new dungeon: the players, then a number of monsters for each of them. */
  ghost function Populated(area: Area, players: seq<Id>, draws: nat -> Draws): World {
    var withPlayers := AfterPlayers(EmptyWorld(area), players, |players|, draws);
    AfterMonsters(withPlayers, |players| * MONSTERS_PER_PLAYER, |players|, draws)
  }

  lemma SpawnedIff(w: World, kind: Kind, id: Id, draws: Draws, other: Id)
    ensures var m := if kind.Player? then w.players else w.monsters;
            var v := AfterSpawn(w, kind, id, draws);
            other in (if kind.Player? then v.players else v.monsters) <==>
              other in m || (other == id && HasFreeDraw(w, draws))
  {
    hide Available, FirstAvailable;
  }

  /** The turn of player `i` comes while one of its draws is available. */
  ghost predicate GetsPlace(w: World, players: seq<Id>, i: nat, draws: nat -> Draws) {
    i < |players| && HasFreeDraw(AfterPlayers(w, players, i, draws), draws(i))
  }

  /** Exactly those given players are spawned whose turn comes while one of their draws is available. */
  lemma {:induction false} PlayersAreInvited(w: World, players: seq<Id>, n: nat, draws: nat -> Draws, id: Id)
    requires n <= |players|
    ensures id in AfterPlayers(w, players, n, draws).players <==>
              id in w.players || exists i: nat :: i < n && GetsPlace(w, players, i, draws) && players[i] == id
  {
    hide AfterSpawn, HasFreeDraw;
    if n > 0 {
      PlayersAreInvited(w, players, n - 1, draws, id);
      SpawnedIff(AfterPlayers(w, players, n - 1, draws), Player, players[n - 1], draws(n - 1), id);
      assert HasFreeDraw(AfterPlayers(w, players, n - 1, draws), draws(n - 1)) <==> GetsPlace(w, players, n - 1, draws);
    }
  }

  lemma {:induction false} MonstersAreNumbered(w: World, n: nat, skip: nat, draws: nat -> Draws)
    ensures AfterMonsters(w, n, skip, draws).players == w.players
    ensures forall id :: id in AfterMonsters(w, n, skip, draws).monsters ==> id in w.monsters || id < n
  {
    if n > 0 {
      MonstersAreNumbered(w, n - 1, skip, draws);
    }
  }

  /** Monster `id` is there exactly if its turn comes while one of its draws is available. */
  lemma {:induction false} MonstersGetPlaces(w: World, n: nat, skip: nat, draws: nat -> Draws, id: Id)
    ensures id in AfterMonsters(w, n, skip, draws).monsters <==>
              id in w.monsters || (id < n && HasFreeDraw(AfterMonsters(w, id, skip, draws), draws(skip + id)))
  {
    hide AfterSpawn, HasFreeDraw;
    if n > 0 {
      MonstersGetPlaces(w, n - 1, skip, draws, id);
      SpawnedIff(AfterMonsters(w, n - 1, skip, draws), Monster, n - 1, draws(skip + n - 1), id);
    }
  }

  /** Nobody has lost a hit point or moved away from his cell yet. */
  ghost predicate Unhurt(w: World) {
    && (forall id :: id in w.players ==>
          w.players[id] == EntityValue(w.players[id].pos, PLAYER_DEFAULT_HP, true, DEFAULT_RADIUS_ATTACK))
    && (forall id :: id in w.monsters ==>
          w.monsters[id] == EntityValue(w.monsters[id].pos, MONSTER_DEFAULT_HP, true, DEFAULT_RADIUS_ATTACK))
  }

  lemma SpawnUnhurt(w: World, kind: Kind, id: Id, draws: Draws)
    requires Unhurt(w)
    ensures Unhurt(AfterSpawn(w, kind, id, draws))
  {
    hide HasFreeDraw, FirstAvailable;
  }

  lemma {:induction false} PlayersUnhurt(w: World, players: seq<Id>, n: nat, draws: nat -> Draws)
    requires Unhurt(w) && n <= |players|
    ensures Unhurt(AfterPlayers(w, players, n, draws))
  {
    hide Unhurt, AfterSpawn;
    if n > 0 {
      PlayersUnhurt(w, players, n - 1, draws);
      SpawnUnhurt(AfterPlayers(w, players, n - 1, draws), Player, players[n - 1], draws(n - 1));
    }
  }

  lemma {:induction false} MonstersUnhurt(w: World, n: nat, skip: nat, draws: nat -> Draws)
    requires Unhurt(w)
    ensures Unhurt(AfterMonsters(w, n, skip, draws))
  {
    hide Unhurt, AfterSpawn;
    if n > 0 {
      MonstersUnhurt(w, n - 1, skip, draws);
      SpawnUnhurt(AfterMonsters(w, n - 1, skip, draws), Monster, n - 1, draws(skip + n - 1));
    }
  }

  /**
   A new dungeon: everybody is unhurt, and monster `id` is there exactly if it is one of the number
   due to the players, and a cell was free when its turn came.
   */
  lemma NewDungeon(area: Area, players: seq<Id>, draws: nat -> Draws, id: Id)
    ensures Unhurt(Populated(area, players, draws)) && Populated(area, players, draws).area == area
    ensures var n := |players|;
            var start := AfterPlayers(EmptyWorld(area), players, n, draws);
            id in Populated(area, players, draws).monsters <==>
              id < n * MONSTERS_PER_PLAYER && HasFreeDraw(AfterMonsters(start, id, n, draws), draws(n + id))
  {
    hide AfterSpawn, AfterPlayers, AfterMonsters, HasFreeDraw;
    var n := |players|;
    var start := AfterPlayers(EmptyWorld(area), players, n, draws);
    NobodyIsHurt(area);
    PlayersUnhurt(EmptyWorld(area), players, n, draws);
    MonstersUnhurt(start, n * MONSTERS_PER_PLAYER, n, draws);
    NoMonstersYet(EmptyWorld(area), players, n, draws);
    MonstersGetPlaces(start, n * MONSTERS_PER_PLAYER, n, draws, id);
    PopulatedOn(area, players, draws);
  }

  lemma NobodyIsHurt(area: Area)
    ensures Unhurt(EmptyWorld(area))
  {
  }

  lemma {:induction false} NoMonstersYet(w: World, players: seq<Id>, n: nat, draws: nat -> Draws)
    requires n <= |players|
    ensures AfterPlayers(w, players, n, draws).monsters == w.monsters
  {
    hide HasFreeDraw, FirstAvailable;
    if n > 0 {
      NoMonstersYet(w, players, n - 1, draws);
    }
  }

  /** Spawning does not change the map. */
  lemma {:induction false} PlayersOn(w: World, players: seq<Id>, n: nat, draws: nat -> Draws)
    requires n <= |players|
    ensures AfterPlayers(w, players, n, draws).area == w.area
  {
    if n > 0 {
      PlayersOn(w, players, n - 1, draws);
    }
  }

  lemma {:induction false} MonstersOn(w: World, n: nat, skip: nat, draws: nat -> Draws)
    ensures AfterMonsters(w, n, skip, draws).area == w.area
  {
    if n > 0 {
      MonstersOn(w, n - 1, skip, draws);
    }
  }

  lemma PopulatedOn(area: Area, players: seq<Id>, draws: nat -> Draws)
    ensures Populated(area, players, draws).area == area
  {
    hide AfterPlayers, AfterMonsters;
    var n := |players|;
    PlayersOn(EmptyWorld(area), players, n, draws);
    MonstersOn(AfterPlayers(EmptyWorld(area), players, n, draws), n * MONSTERS_PER_PLAYER, n, draws);
  }

  /** The world is what the history leads to, legally: `spawns` spawns first, then play. */
  ghost predicate Recorded(area: Area, history: seq<Action>, spawns: nat, w: World) {
    && LegalRun(EmptyWorld(area), history) && w == Run(EmptyWorld(area), history)
    && spawns <= |history|
    && forall i :: 0 <= i < |history| ==> (IsPlay(history[i]) <==> spawns <= i)
  }

  lemma RecordNext(area: Area, history: seq<Action>, spawns: nat, w: World, a: Action)
    requires Recorded(area, history, spawns, w) && Legal(w, a)
    requires IsPlay(a) || spawns == |history|
    ensures Recorded(area, history + [a], if IsPlay(a) then spawns else spawns + 1, Apply(w, a))
  {
    hide Legal, Apply;
    RunExtends(EmptyWorld(area), history, a);
  }

  /**
   One tick: the commands in order, then the turn that the dice give in the world that they leave.
   Each action is legal when it is taken, and no dead monster takes one.
   */
  ghost predicate Ticks(w: World, commands: seq<Command>, dice: Dice, v: World) {
    && Fits(dice, w.monsters.Keys)
    && exists acts, moves, attacks ::
         && AreCommands(commands, acts) && AreTurns(Run(w, acts), dice, moves, attacks)
         && LegalRun(w, acts + moves + attacks) && v == Run(w, acts + moves + attacks)
         && LiveActors(Run(w, acts), moves + attacks)
  }

  /** The dungeon's own runs: `n` ticks, with any commands and any dice. */
  ghost predicate AfterTicks(w: World, n: nat, v: World) {
    if n == 0 then v == w
    else exists u, commands, dice :: AfterTicks(w, n - 1, u) && Ticks(u, commands, dice, v)
  }

  lemma {:induction false} AfterTicksIsLater(w: World, n: nat, v: World)
    requires AfterTicks(w, n, v)
    ensures Later(w, v)
  {
    hide Ticks, Later;
    if n == 0 {
      PlayIsLater(w, []);
      assert Run(w, []) == w;
    } else {
      var u, commands, dice :| AfterTicks(w, n - 1, u) && Ticks(u, commands, dice, v);
      AfterTicksIsLater(w, n - 1, u);
      TicksIsLater(u, commands, dice, v);
      LaterAndLater(w, u, v);
    }
  }

  /** A world together with the commands that wait in its queue. */
  datatype Moment = Moment(world: World, commands: seq<Command>)

  ghost predicate Ticked(m: Moment, dice: Dice, n: Moment) {
    Ticks(m.world, m.commands, dice, n.world) && n.commands == []
  }

  /** A tick leads to a later world. */
  lemma TicksIsLater(w: World, commands: seq<Command>, dice: Dice, v: World)
    requires Ticks(w, commands, dice, v)
    ensures Later(w, v) && (GameOver(w) ==> GameOver(v))
  {
    hide Later, GameOver, LegalRun, LiveActors, Run, AreCommands, AreTurns;
    var acts, moves, attacks :|
      && AreCommands(commands, acts) && AreTurns(Run(w, acts), dice, moves, attacks)
      && LegalRun(w, acts + moves + attacks) && v == Run(w, acts + moves + attacks)
      && LiveActors(Run(w, acts), moves + attacks);
    var play := acts + moves + attacks;
    CommandsArePlay(commands, acts);
    TurnsArePlay(Run(w, acts), dice, moves, attacks);
    PlayIsLater(w, play);
    GameOverForever(w, play);
  }

  /** What is recorded after a world was played on it. */
  lemma RecordedPlay(area: Area, history: seq<Action>, played: seq<Action>, spawns: nat, w: World, v: World)
    requires Recorded(area, history, spawns, w) && Recorded(area, history + played, spawns, v)
    ensures LegalRun(w, played) && v == Run(w, played)
  {
    hide Run, LegalRun;
    RunConcat(EmptyWorld(area), history, played);
  }

  /** What is played after a recorded history leads to a later world. */
  lemma RecordedLater(area: Area, history: seq<Action>, played: seq<Action>, spawns: nat, w: World, v: World)
    requires Recorded(area, history, spawns, w) && Recorded(area, history + played, spawns, v)
    ensures Later(w, v) && (GameOver(w) ==> GameOver(v))
  {
    hide Run, LegalRun, Later, GameOver;
    RunConcat(EmptyWorld(area), history, played);
    forall i | 0 <= i < |played|
      ensures IsPlay(played[i])
    {
      assert (history + played)[|history| + i] == played[i];
    }
    PlayIsLater(w, played);
    GameOverForever(w, played);
  }

  lemma RecordedTick(area: Area, history: seq<Action>, spawns: nat, w: World, commands: seq<Command>, dice: Dice,
                     acts: seq<Action>, moves: seq<Action>, attacks: seq<Action>, v: World)
    requires Recorded(area, history, spawns, w) && Recorded(area, history + (acts + moves + attacks), spawns, v)
    requires Fits(dice, w.monsters.Keys)
    requires AreCommands(commands, acts) && AreTurns(Run(w, acts), dice, moves, attacks)
    requires LiveActors(Run(w, acts), moves + attacks)
    ensures Ticks(w, commands, dice, v)
  {
    hide Recorded, Run, LegalRun, LiveActors, Fits, AreCommands, AreTurns;
    RecordedPlay(area, history, acts + moves + attacks, spawns, w, v);
  }

  /** A recorded world is a reachable one, with all that reachable worlds have. */
  lemma RecordedIsSound(area: Area, history: seq<Action>, spawns: nat, w: World)
    requires Recorded(area, history, spawns, w)
    ensures Sound(w) && w.area == area
    ensures PLAYER_DEFAULT_HP > 0 && MONSTER_DEFAULT_HP > 0 ==> Vital(w)
  {
    SoundForever(area, history);
    if PLAYER_DEFAULT_HP > 0 && MONSTER_DEFAULT_HP > 0 {
      VitalForever(area, history);
    }
  }

  lemma NobodyRecorded(area: Area)
    ensures Recorded(area, [], 0, EmptyWorld(area))
  {
  }

  class Dungeon {
    const area: Area
    const players: EntityManager
    const monsters: EntityManager
    const commandQueue: CommandQueue
    var mobIdCounter: nat
    ghost var history: seq<Action>
    ghost var spawns: nat

    /** The objects that a dungeon owns. */
    ghost function Repr(): set<object>
      reads players`entities, monsters`entities
    {
      {this, players, monsters, commandQueue} + players.entities.Values + monsters.entities.Values
    }

    ghost function Value(): World
      reads players`entities, players.entities.Values, monsters`entities, monsters.entities.Values
    {
      World(area, players.View(), monsters.View())
    }

    ghost function Now(): Moment
      reads players`entities, players.entities.Values, monsters`entities, monsters.entities.Values, commandQueue
    {
      Moment(Value(), commandQueue.queue)
    }

    ghost predicate Shaped()
      reads players`entities, monsters`entities
    {
      && players.kind == Player && players.Valid() && monsters.kind == Monster && monsters.Valid()
      && players.entities.Values !! monsters.entities.Values
    }

    ghost predicate Valid()
      reads `history, `spawns, players`entities, players.entities.Values, monsters`entities, monsters.entities.Values
    {
      Shaped() && Recorded(area, history, spawns, Value())
    }

    lemma IsRecorded()
      requires Valid()
      ensures Recorded(area, history, spawns, Value()) && |Value().monsters| == |monsters.entities|
    {
      hide Recorded;
      assert Value().monsters.Keys == monsters.entities.Keys;
      assert |Value().monsters| == |Value().monsters.Keys| && |monsters.entities| == |monsters.entities.Keys|;
    }

    lemma TwoManagers()
      requires Valid()
      ensures players != monsters && players.kind == Player && monsters.kind == Monster
    {
    }

    /** Nothing about a dungeon changes while none of its own objects does. */
    twostate lemma Untouched()
      requires forall o :: o in old(Repr()) ==> unchanged(o)
      ensures Repr() == old(Repr()) && Now() == old(Now()) && Valid() == old(Valid())
    {
    }

    method IsAvailable(pos: Position) returns (available: bool)
      ensures available == Available(Value(), pos)
    {
      if !area.IsAvailable(pos) {
        return false;
      }
      var byPlayer := players.IsOccupied(pos);
      if byPlayer {
        return false;
      }
      var byMonster := monsters.IsOccupied(pos);
      return !byMonster;
    }

    /** Draws a position, and again up to a hundred times while it is not available. */
    method DrawFree(draws: Draws) returns (pos: Position, available: bool, ghost k: nat)
      ensures pos == draws(k)
      ensures available ==> FirstAvailable(Value(), draws, k) && Available(Value(), pos)
      ensures available <==> HasFreeDraw(Value(), draws)
    {
      hide Available;
      var attempts := 1;
      pos := draws(0);
      available := IsAvailable(pos);
      while !available && attempts <= MAX_SPAWN_ATTEMPTS
        invariant 1 <= attempts <= MAX_SPAWN_ATTEMPTS + 1 && pos == draws(attempts - 1)
        invariant available == Available(Value(), pos)
        invariant forall j: nat :: j < attempts - 1 ==> !Available(Value(), draws(j))
      {
        attempts := attempts + 1;
        pos := draws(attempts - 1);
        available := IsAvailable(pos);
      }
      k := attempts - 1;
      if available {
        assert FirstAvailable(Value(), draws, k);
      } else {
        forall j: nat
          ensures !FirstAvailable(Value(), draws, j)
        {
          assert j <= k ==> !Available(Value(), draws(j));
        }
      }
    }

    /** A new entity stands on an available cell. */
    method Place(manager: EntityManager, id: Id, pos: Position) returns (ok: bool)
      requires Valid() && (manager == players || manager == monsters) && spawns == |history|
      requires Available(Value(), pos) && id !in manager.entities
      modifies this`history, this`spawns, manager
      ensures ok && Valid() && spawns == |history|
      ensures fresh(manager.entities.Values - old(manager.entities.Values))
      ensures Value() == Apply(old(Value()), SpawnOf(manager.kind, id, pos))
      ensures manager == players ==> monsters.entities == old(monsters.entities)
      ensures manager == monsters ==> players.entities == old(players.entities)
    {
      hide Recorded, Available, EntityManager.View, EntityManager.Valid;
      ghost var a := SpawnOf(manager.kind, id, pos);
      RecordNext(area, history, spawns, Value(), a);
      ok := manager.AddEntity(id, pos);
      assert Value() == Apply(old(Value()), a);
      history, spawns := history + [a], spawns + 1;
    }

    lemma ManagerViews()
      requires Valid()
      ensures Value().players.Keys == players.entities.Keys && Value().monsters.Keys == monsters.entities.Keys
    {
      hide Recorded, EntityManager.View;
    }

    /** A new entity stands on the first free draw; without one, or for a known id, nothing happens. */
    method SpawnEntity(manager: EntityManager, id: Id, draws: Draws) returns (ok: bool)
      requires Valid() && (manager == players || manager == monsters) && spawns == |history|
      modifies this`history, this`spawns, manager
      ensures Valid() && spawns == |history| && fresh(manager.entities.Values - old(manager.entities.Values))
      ensures Value() == AfterSpawn(old(Value()), manager.kind, id, draws)
      ensures ok <==> id !in old(manager.entities) && HasFreeDraw(old(Value()), draws)
      ensures manager == players ==> monsters.entities == old(monsters.entities)
      ensures manager == monsters ==> players.entities == old(players.entities)
    {
      hide Dungeon.Valid, Dungeon.Value, Available, FirstAvailable, Apply, EntityManager.View, EntityManager.Valid;
      TwoManagers();
      ManagerViews();
      if id in manager.entities {
        return false;
      }
      var pos, available;
      ghost var k;
      pos, available, k := DrawFree(draws);
      if !available {
        return false;
      }
      SpawnIs(Value(), manager.kind, id, draws, k);
      ok := Place(manager, id, pos);
    }

    lemma Unborn()
      requires players.kind == Player && players.entities == map[]
      requires monsters.kind == Monster && monsters.entities == map[]
      requires history == [] && spawns == 0
      ensures Valid() && Value() == EmptyWorld(area)
    {
      NobodyRecorded(area);
    }

    constructor (gameMap: Area, initialPlayers: seq<Id>, draws: nat -> Draws)
      ensures Valid() && fresh(Repr()) && area == gameMap && spawns == |history| && commandQueue.queue == []
      ensures Value() == Populated(gameMap, initialPlayers, draws)
      ensures mobIdCounter == |initialPlayers| * MONSTERS_PER_PLAYER
    {
      hide Dungeon.Valid, Dungeon.Value, Populated, EntityManager.View, EntityManager.Valid;
      area := gameMap;
      players := new EntityManager(Player);
      monsters := new EntityManager(Monster);
      commandQueue := new CommandQueue();
      mobIdCounter, history, spawns := 0, [], 0;
      new;
      Unborn();
      Populate(initialPlayers, draws);
    }

    /** Players first, then a number of monsters for each of them. */
    method Populate(initialPlayers: seq<Id>, draws: nat -> Draws)
      requires Valid() && spawns == |history| && mobIdCounter == 0 && Value() == EmptyWorld(area)
      modifies this`history, this`spawns, this`mobIdCounter, players, monsters
      ensures Valid() && spawns == |history| && mobIdCounter == |initialPlayers| * MONSTERS_PER_PLAYER
      ensures fresh(players.entities.Values - old(players.entities.Values))
      ensures fresh(monsters.entities.Values - old(monsters.entities.Values))
      ensures Value() == Populated(area, initialPlayers, draws)
    {
      hide Dungeon.Valid, Dungeon.Value, AfterSpawn, EntityManager.View, EntityManager.Valid, FirstAvailable;
      TwoManagers();
      for i := 0 to |initialPlayers|
        invariant Valid() && spawns == |history| && mobIdCounter == 0
        invariant fresh(players.entities.Values - old(players.entities.Values))
        invariant monsters.entities == old(monsters.entities)
        invariant Value() == AfterPlayers(EmptyWorld(area), initialPlayers, i, draws)
      {
        var ok := SpawnEntity(players, initialPlayers[i], draws(i));
      }
      var totalMonsters := |initialPlayers| * MONSTERS_PER_PLAYER;
      SpawnMonsters(totalMonsters, |initialPlayers|, draws);
    }

    method SpawnMonsters(total: nat, skip: nat, draws: nat -> Draws)
      requires Valid() && spawns == |history| && mobIdCounter == 0
      modifies this`history, this`spawns, this`mobIdCounter, monsters
      ensures Valid() && spawns == |history| && mobIdCounter == total
      ensures fresh(monsters.entities.Values - old(monsters.entities.Values))
      ensures players.entities == old(players.entities)
      ensures Value() == AfterMonsters(old(Value()), total, skip, draws)
    {
      hide Dungeon.Valid, Dungeon.Value, AfterSpawn, EntityManager.View, EntityManager.Valid, FirstAvailable;
      TwoManagers();
      for i := 0 to total
        invariant Valid() && spawns == |history| && mobIdCounter == i
        invariant fresh(monsters.entities.Values - old(monsters.entities.Values))
        invariant players.entities == old(players.entities)
        invariant Value() == AfterMonsters(old(Value()), i, skip, draws)
      {
        SpawnNext(draws(skip + i));
      }
    }

    /** The monster with the next number. */
    method SpawnNext(draws: Draws)
      requires Valid() && spawns == |history|
      modifies this`history, this`spawns, this`mobIdCounter, monsters
      ensures Valid() && spawns == |history| && mobIdCounter == old(mobIdCounter) + 1
      ensures fresh(monsters.entities.Values - old(monsters.entities.Values))
      ensures players.entities == old(players.entities)
      ensures Value() == AfterSpawn(old(Value()), Monster, old(mobIdCounter), draws)
    {
      hide Dungeon.Valid, Dungeon.Value, AfterSpawn, EntityManager.View, EntityManager.Valid, FirstAvailable;
      TwoManagers();
      var id := NextMobId();
      var ok := SpawnEntity(monsters, id, draws);
    }

    method NextMobId() returns (id: Id)
      modifies this`mobIdCounter
      ensures id == old(mobIdCounter) && mobIdCounter == id + 1
    {
      id := mobIdCounter;
      mobIdCounter := mobIdCounter + 1;
    }

    method AddPlayerAttackCommand(p: Id, damage: uint32)
      modifies commandQueue
      ensures commandQueue.queue == old(commandQueue.queue) + [Attack(p, damage)]
    {
      commandQueue.Push(Attack(p, damage));
    }

    method AddMovePlayerCommand(p: Id, direction: byte)
      modifies commandQueue
      ensures commandQueue.queue == old(commandQueue.queue) + [Move(p, direction)]
    {
      commandQueue.Push(Move(p, direction));
    }

    /** The move of one player or monster. */
    method TryStep(manager: EntityManager, id: Id, direction: byte)
      requires Shaped() && (manager == players || manager == monsters)
      modifies manager.entities.Values
      ensures Shaped()
      ensures manager.View() == Moved(old(Value()), old(manager.View()), id, direction)
    {
      hide Available;
      if id !in manager.entities || !manager.entities[id].alive {
        return;
      }
      var newPos := manager.entities[id].position.Plus(OffsetOf(direction));
      var available := IsAvailable(newPos);
      if available {
        var moved := manager.MoveEntity(id, newPos);
      }
    }

    /** The attack of one living player or monster on the other kind. */
    method TryHit(attackers: EntityManager, id: Id, targets: EntityManager, damage: uint32)
      returns (ghost target: Option<Id>)
      requires Shaped()
      requires (attackers == players && targets == monsters) || (attackers == monsters && targets == players)
      modifies targets.entities.Values
      ensures Shaped()
      ensures targets.View() == Hit(attackers.View(), id, old(targets.View()), damage, target)
      ensures IsAlive(attackers.View(), id) ==>
                IsClosest(old(targets.View()), attackers.View()[id].pos, attackers.View()[id].radius as uint64, target)
      ensures attackers.View() == old(attackers.View())
    {
      hide EntityValue.Damaged, EntityManager.View, IsClosest;
      attackers.ViewAt(id);
      target := None;
      if id !in attackers.entities || !attackers.entities[id].alive {
        return;
      }
      var attacker := attackers.entities[id];
      var targetId := attackers.FindClosestTarget(attacker.position, attacker.radiusAttack as uint64, targets);
      target := targetId;
      ClosestIsInReach(targets.View(), attacker.position, attacker.radiusAttack as uint64, target);
      if target.Some? {
        targets.ViewAt(target.value);
      }
      if targetId.Some? && targetId.value in targets.entities && targets.entities[targetId.value].alive {
        targets.DamageEntity(targetId.value, damage);
      }
    }

    /** Runs one queued command. */
    method Execute(c: Command) returns (ghost a: Action)
      requires Valid()
      modifies this`history, players.entities.Values, monsters.entities.Values
      ensures Valid() && Carries(c, a) && history == old(history) + [a]
      ensures Obeys(old(Value()), c, Value())
    {
      hide Recorded, Moved, Hit, IsClosest, Obeys, EntityManager.View, EntityManager.Valid;
      ghost var before := Value();
      match c {
        case Attack(p, damage) =>
          ghost var target := TryHit(players, p, monsters, damage);
          a := AttackMonster(p, damage, target);
        case Move(p, direction) =>
          TryStep(players, p, direction);
          a := MovePlayer(p, direction);
      }
      assert Value() == Apply(before, a);
      CarriedIsObeyed(before, c, a);
      RecordNext(area, history, spawns, before, a);
      history := history + [a];
    }

    /** The drawn monster tries one step in the drawn direction; a dead one forfeits its turn. */
    method MoveRandomMonster(roll: Roll) returns (ghost turn: seq<Action>)
      requires Valid() && roll.id in monsters.entities
      modifies this`history, monsters.entities.Values
      ensures Valid() && history == old(history) + turn
      ensures turn == if IsAlive(old(Value()).monsters, roll.id) then [MoveMonster(roll.id, roll.direction)] else []
      ensures Played(old(Value()), turn, Value())
    {
      hide Recorded, Moved, Run, LiveActors, EntityManager.View, EntityManager.Valid;
      var id := roll.id;
      monsters.ViewAt(id);
      LiveActorAlone(Value(), MoveMonster(id, 0));
      if !monsters.entities[id].alive {
        return [];
      }
      ghost var before, a := Value(), MoveMonster(id, roll.direction);
      LiveActorAlone(before, a);
      TryStep(monsters, id, roll.direction);
      assert Value() == Apply(before, a);
      RecordNext(area, history, spawns, before, a);
      history := history + [a];
      return [a];
    }

    method MoveRandomMonsters(maxMoves: nat, rolls: nat -> Roll) returns (ghost moves: seq<Action>)
      requires Valid() && (monsters.entities != map[] ==> RollsFit(rolls, monsters.entities.Keys))
      modifies this`history, monsters.entities.Values
      ensures Valid() && history == old(history) + moves
      ensures moves == Movers(old(Value()), rolls, Least(maxMoves, |monsters.entities|))
      ensures Played(old(Value()), moves, Value())
    {
      hide Dungeon.Valid, Dungeon.Value, Played, IsAlive, SameLives;
      moves := [];
      PlayedNone(Value());
      if monsters.entities == map[] {
        assert |monsters.entities| == 0;
        return;
      }
      var count := Least(maxMoves, |monsters.entities|);
      for i := 0 to count
        invariant Valid() && history == old(history) + moves
        invariant moves == Movers(old(Value()), rolls, i)
        invariant Played(old(Value()), moves, Value())
      {
        MoversAreTurns(old(Value()), rolls, i);
        ghost var now := Value();
        SameLife(old(Value()), moves, now, rolls(i).id);
        ghost var turn := MoveRandomMonster(rolls(i));
        PlayedMore(old(Value()), moves, now, turn, Value());
        moves := moves + turn;
      }
    }

    /** The drawn monster, if alive, hits the closest player within reach. */
    method AttackByRandomMonster(id: Id, attackPower: uint32) returns (ghost turn: seq<Action>)
      requires Valid() && id in monsters.entities
      modifies this`history, players.entities.Values
      ensures Valid() && history == old(history) + turn
      ensures AttackedBy(turn, if IsAlive(old(Value()).monsters, id) then [id] else [], attackPower)
      ensures Played(old(Value()), turn, Value())
    {
      hide Recorded, Hit, IsClosest, Run, LiveActors, EntityManager.View, EntityManager.Valid;
      monsters.ViewAt(id);
      LiveActorAlone(Value(), AttackPlayer(id, attackPower, None));
      if !monsters.entities[id].alive {
        return [];
      }
      ghost var before := Value();
      ghost var target := TryHit(monsters, id, players, attackPower);
      ghost var a := AttackPlayer(id, attackPower, target);
      LiveActorAlone(before, a);
      assert Value() == Apply(before, a);
      RecordNext(area, history, spawns, before, a);
      history := history + [a];
      return [a];
    }

    method PerformRandomAttacks(attackPower: uint32, maxAttacks: nat, draws: nat -> Id)
      returns (ghost attacks: seq<Action>)
      requires Valid() && (monsters.entities != map[] ==> DrawsFit(draws, monsters.entities.Keys))
      modifies this`history, players.entities.Values
      ensures Valid() && history == old(history) + attacks
      ensures AttackedBy(attacks, Attackers(old(Value()), draws, Least(maxAttacks, |monsters.entities|)), attackPower)
      ensures Played(old(Value()), attacks, Value())
    {
      hide Dungeon.Valid, Dungeon.Value, Played, IsAlive, SameLives, AttackedBy;
      attacks := [];
      AttackedByMore([], [], [], [], attackPower);
      PlayedNone(Value());
      if monsters.entities == map[] {
        assert |monsters.entities| == 0;
        return;
      }
      var count := Least(maxAttacks, |monsters.entities|);
      for i := 0 to count
        invariant Valid() && history == old(history) + attacks
        invariant AttackedBy(attacks, Attackers(old(Value()), draws, i), attackPower)
        invariant Played(old(Value()), attacks, Value())
      {
        ghost var ids := Attackers(old(Value()), draws, i);
        ghost var next := if IsAlive(old(Value()).monsters, draws(i)) then [draws(i)] else [];
        AttackedByMore(attacks, ids, [], [], attackPower);
        ghost var now := Value();
        SameLife(old(Value()), attacks, now, draws(i));
        ghost var turn := AttackByRandomMonster(draws(i), attackPower);
        AttackedByMore(attacks, ids, turn, next, attackPower);
        PlayedMore(old(Value()), attacks, now, turn, Value());
        attacks := attacks + turn;
      }
    }

    method IsGameOver() returns (over: bool)
      ensures over == GameOver(Value())
      ensures over <==> forall id :: id in players.entities ==> !players.entities[id].alive
    {
      var rest := players.entities.Keys;
      while rest != {}
        invariant rest <= players.entities.Keys
        invariant forall id :: id in players.entities && id !in rest ==> !players.entities[id].alive
      {
        var id :| id in rest;
        if players.entities[id].alive {
          assert Value().players[id].alive;
          return false;
        }
        rest := rest - {id};
      }
      return true;
    }

    method GetPlayers() returns (ids: seq<Id>)
      ensures Listing(ids, players.entities.Keys)
    {
      ids := [];
      var rest := players.entities.Keys;
      while rest != {}
        invariant rest <= players.entities.Keys && Listing(ids, players.entities.Keys - rest)
      {
        var id :| id in rest;
        ids := ids + [id];
        rest := rest - {id};
      }
      assert players.entities.Keys - rest == players.entities.Keys;
    }

    /** Every command in order. */
    method RunCommands(commands: seq<Command>) returns (ghost acts: seq<Action>)
      requires Valid()
      modifies this`history, players.entities.Values, monsters.entities.Values
      ensures Valid() && history == old(history) + acts && AreCommands(commands, acts)
    {
      hide Dungeon.Valid, EntityManager.View, EntityManager.Valid, Carries;
      acts := [];
      for i := 0 to |commands|
        invariant Valid() && history == old(history) + acts && |acts| == i
        invariant forall j :: 0 <= j < i ==> Carries(commands[j], acts[j])
      {
        ghost var a := Execute(commands[i]);
        acts := acts + [a];
      }
    }

    method MonstersTurn(dice: Dice) returns (ghost moves: seq<Action>, ghost attacks: seq<Action>)
      requires Valid() && Fits(dice, monsters.entities.Keys)
      modifies this`history, players.entities.Values, monsters.entities.Values
      ensures Valid() && history == old(history) + moves + attacks
      ensures AreTurns(old(Value()), dice, moves, attacks)
      ensures Played(old(Value()), moves + attacks, Value())
    {
      hide Dungeon.Valid, Dungeon.Value, Played, IsAlive, SameLives, Movers, Attackers, AttackedBy;
      moves, attacks := [], [];
      PlayedNone(Value());
      ManagerViews();
      var monsterCount := |monsters.entities|;
      if monsterCount > 0 {
        assert monsters.entities.Keys != {} && |monsters.entities.Keys| == monsterCount;
        moves := MoveRandomMonsters(dice.moveCount, dice.movers);
        MoversAreTurns(old(Value()), dice.movers, dice.moveCount);
        ghost var now := Value();
        SameLife(old(Value()), moves, now, 0);
        SameLivesSameTurns(old(Value()), now, dice, dice.attackCount);
        attacks := PerformRandomAttacks(MONSTER_DEFAULT_ATTACK, dice.attackCount, dice.attackers);
        PlayedMore(old(Value()), moves, now, attacks, Value());
      } else {
        assert moves + attacks == [];
        assert monsters.entities.Keys == {};
      }
    }

    method TakeSnapshot() returns (snapshot: Option<DungeonSnapshot>)
      requires Valid()
      ensures snapshot.None? <==> GameOver(Value())
      ensures snapshot.Some? ==> Shows(snapshot.value, Value())
    {
      hide Recorded, GameOver, Shows;
      var over := IsGameOver();
      if over {
        return None;
      }
      var s := CreateGameState(area, players, monsters);
      return Some(s);
    }

    /** What a tick plays: the queued commands in order, then the monsters' moves and attacks. */
    method PlayTick(dice: Dice)
      returns (ghost acts: seq<Action>, ghost moves: seq<Action>, ghost attacks: seq<Action>)
      requires Valid() && Fits(dice, monsters.entities.Keys)
      modifies this`history, commandQueue, players.entities.Values, monsters.entities.Values
      ensures Valid() && commandQueue.queue == [] && history == old(history) + (acts + moves + attacks)
      ensures AreCommands(old(commandQueue.queue), acts)
      ensures AreTurns(Run(old(Value()), acts), dice, moves, attacks)
      ensures LiveActors(Run(old(Value()), acts), moves + attacks)
    {
      hide Recorded, Dungeon.Valid, Dungeon.Value, Run, LiveActors, Fits, AreCommands, AreTurns;
      IsRecorded();
      var commands := commandQueue.PopAll();
      acts := RunCommands(commands);
      IsRecorded();
      RecordedPlay(area, old(history), acts, spawns, old(Value()), Value());
      moves, attacks := MonstersTurn(dice);
      assert old(history) + acts + (moves + attacks) == old(history) + (acts + moves + attacks);
    }

    /** One tick: play, then the snapshot, unless no player is alive. */
    method ProcessTick(dice: Dice)
      returns (snapshot: Option<DungeonSnapshot>, ghost acts: seq<Action>, ghost moves: seq<Action>,
               ghost attacks: seq<Action>)
      requires Valid() && Fits(dice, monsters.entities.Keys)
      modifies this`history, commandQueue, players.entities.Values, monsters.entities.Values
      ensures Valid() && commandQueue.queue == [] && history == old(history) + (acts + moves + attacks)
      ensures AreCommands(old(commandQueue.queue), acts)
      ensures AreTurns(Run(old(Value()), acts), dice, moves, attacks)
      ensures snapshot.None? <==> GameOver(Value())
      ensures snapshot.Some? ==> Shows(snapshot.value, Value())
      ensures Ticked(old(Now()), dice, Now())
      ensures Later(old(Value()), Value()) && (old(GameOver(Value())) ==> snapshot.None?)
    {
      hide Recorded, Fits, AreCommands, AreTurns, LiveActors, Run, Ticks, GameOver, Shows, Later;
      hide Dungeon.Valid, Dungeon.Value;
      IsRecorded();
      ManagerViews();
      acts, moves, attacks := PlayTick(dice);
      IsRecorded();
      RecordedLater(area, old(history), acts + moves + attacks, spawns, old(Value()), Value());
      RecordedTick(area, old(history), spawns, old(Value()), old(commandQueue.queue), dice, acts, moves, attacks,
                   Value());
      snapshot := TakeSnapshot();
    }
  }
}
