/** The game manager: starts a game from a lobby, and ticks every running dungeon. */
module GameManager {
  import opened Wrappers
  import opened GameMap
  import opened Entities
  import opened Worlds
  import opened Turns
  import opened Snapshots
  import opened Dungeons
  import opened Lobby
  import opened LobbyRegistry
  import opened DungeonRegistry
  import opened GameRuns
  import Membership

  /** No two dungeons own a common object. */
  ghost predicate Apart(ds: map<GameId, Dungeon>)
    reads (set g | g in ds :: ds[g].players), (set g | g in ds :: ds[g].monsters)
  {
    forall g, h :: g in ds && h in ds && g != h ==> ds[g].Repr() !! ds[h].Repr()
  }

  ghost predicate InOrder(ds: map<GameId, Dungeon>)
    reads (set g | g in ds :: ds[g]), (set g | g in ds :: ds[g].players), (set g | g in ds :: ds[g].monsters)
    reads (set g, e | g in ds && e in ds[g].players.entities.Values :: e)
    reads (set g, e | g in ds && e in ds[g].monsters.entities.Values :: e)
  {
    Apart(ds) && forall g :: g in ds ==> ds[g].Valid()
  }

  /** The dungeons that were there are still there. */
  ghost predicate Keeps(ds: map<GameId, Dungeon>, before: map<GameId, Dungeon>) {
    forall g :: g in before ==> g in ds && ds[g] == before[g]
  }

  ghost function Moments(ds: map<GameId, Dungeon>): (m: map<GameId, Moment>)
    reads (set g | g in ds :: ds[g].players), (set g | g in ds :: ds[g].monsters)
    reads (set g | g in ds :: ds[g].commandQueue)
    reads (set g, e | g in ds && e in ds[g].players.entities.Values :: e)
    reads (set g, e | g in ds && e in ds[g].monsters.entities.Values :: e)
    ensures m.Keys == ds.Keys
  {
    map g | g in ds :: ds[g].Now()
  }

  lemma MomentAt(ds: map<GameId, Dungeon>, g: GameId)
    requires g in ds
    ensures Moments(ds)[g] == ds[g].Now()
  {
    hide Dungeon.Now;
  }

  /** If only one dungeon has changed, only its moment has. */
  twostate lemma OneMomentChanged(ds: map<GameId, Dungeon>, new g: GameId)
    requires g in ds && forall h :: h in ds && h != g ==> ds[h].Now() == old(ds[h].Now())
    ensures Moments(ds) == old(Moments(ds))[g := ds[g].Now()]
    ensures Moments(ds)[g] == ds[g].Now() && old(Moments(ds))[g] == old(ds[g].Now())
  {
    hide Dungeon.Now;
  }

  /** New dungeons among unchanged ones. */
  twostate lemma MomentsGrow(ds: map<GameId, Dungeon>, new grown: map<GameId, Dungeon>, new w: World)
    requires forall g :: g in ds ==> g in grown && grown[g] == ds[g] && ds[g].Now() == old(ds[g].Now())
    requires forall g :: g in grown && g !in ds ==> grown[g].Now() == Moment(w, [])
    ensures GrownBy(Moments(grown), old(Moments(ds)), w)
  {
    hide Dungeon.Now;
  }

  class Manager {
    const lobbyRegistry: Lobbies
    const games: Games

    constructor (lobbies: Lobbies, running: Games)
      ensures lobbyRegistry == lobbies && games == running
      ensures running.Value() == NO_GAMES ==> WellRostered()
    {
      lobbyRegistry, games := lobbies, running;
    }

    ghost function Value(): Membership.System
      reads lobbyRegistry, lobbyRegistry.lobbies.Values, games
    {
      Membership.System(lobbyRegistry.Value(), games.Value())
    }

    /** The maps of the registry agree, and each dungeon stems from the roster that is kept for it. */
    ghost predicate WellRostered()
      reads games, (set g | g in games.dungeons :: games.dungeons[g].players)
      reads (set g | g in games.dungeons :: games.dungeons[g].monsters)
      reads (set g | g in games.dungeons :: games.dungeons[g].commandQueue)
      reads (set g, e | g in games.dungeons && e in games.dungeons[g].players.entities.Values :: e)
      reads (set g, e | g in games.dungeons && e in games.dungeons[g].monsters.entities.Values :: e)
    {
      Consistent(games.Value()) && Descended(Moments(games.dungeons), games.dungeonToPlayers)
    }

    lemma RosteredAfterStart(ix: Index, was: map<GameId, Moment>, roster: seq<PlayerId>,
                             area: Area, draws: nat -> Draws)
      requires Consistent(ix) && was.Keys == ix.dungeons && Descended(was, ix.rosters)
      requires GrownBy(Moments(games.dungeons), was, Populated(area, roster, draws))
      requires games.Value() == AfterAdd(ix, roster).0
      ensures WellRostered()
    {
      hide Consistent, AfterAdd, Descended, GrownBy, Populated, Moments;
      StartDescends(ix, roster, was, Moments(games.dungeons), area, draws);
    }

    lemma IsWellRostered()
      requires WellRostered()
      ensures Consistent(games.Value()) && Descended(Moments(games.dungeons), games.Value().rosters)
    {
    }

    method OnStartGameRequest(p: PlayerId, area: Area, draws: nat -> Draws)
      returns (ghost roster: seq<PlayerId>, ghost leaving: seq<PlayerId>, ghost heirs: seq<PlayerId>)
      requires lobbyRegistry.Valid()
      requires InOrder(games.dungeons)
      modifies lobbyRegistry, lobbyRegistry.lobbies.Values, games
      ensures lobbyRegistry.Valid() && |leaving| == |heirs|
      ensures Membership.Legal(old(Value()), Membership.StartGame(p, roster, leaving, heirs))
      ensures Value() == Membership.AfterStart(old(Value()), p, roster, leaving, heirs)
      ensures InOrder(games.dungeons)
      ensures Keeps(games.dungeons, old(games.dungeons))
      ensures GrownBy(Moments(games.dungeons), old(Moments(games.dungeons)), Populated(area, roster, draws))
      ensures old(WellRostered()) ==> WellRostered()
    {
      hide AfterAdd, Membership.AfterAllLeave, InOrder, Moments, WellRostered, Populated;
      roster, leaving, heirs := [], [], [];
      if p !in lobbyRegistry.playerToLobby {
        return;
      }
      var id := lobbyRegistry.playerToLobby[p];
      if id !in lobbyRegistry.lobbies {
        return;
      }
      ghost var before, was := games.Value(), Moments(games.dungeons);
      if WellRostered() {
        IsWellRostered();
      }
      roster, leaving, heirs := StartFrom(id, area, draws);
      if old(WellRostered()) {
        RosteredAfterStart(before, was, roster, area, draws);
      }
    }

    /** Moves the players of a lobby into a new game, if the game can be created. */
    method StartFrom(id: LobbyId, area: Area, draws: nat -> Draws)
      returns (ghost roster: seq<PlayerId>, ghost leaving: seq<PlayerId>, ghost heirs: seq<PlayerId>)
      requires lobbyRegistry.Valid() && id in lobbyRegistry.lobbies
      requires InOrder(games.dungeons)
      modifies lobbyRegistry, lobbyRegistry.lobbies.Values, games
      ensures InOrder(games.dungeons)
      ensures Keeps(games.dungeons, old(games.dungeons))
      ensures GrownBy(Moments(games.dungeons), old(Moments(games.dungeons)), Populated(area, roster, draws))
      ensures lobbyRegistry.Valid() && |leaving| == |heirs|
      ensures Listing(roster, old(Value()).lobbies.lobbies[id].ready.Keys)
      ensures Listing(leaving, old(Value()).lobbies.lobbies[id].ready.Keys)
      ensures var (index, added) := AfterAdd(old(games.Value()), roster);
              && games.Value() == index
              && lobbyRegistry.Value() ==
                 if added then Membership.AfterAllLeave(old(lobbyRegistry.Value()), leaving, heirs)
                 else old(lobbyRegistry.Value())
    {
      hide AfterAdd, Membership.AfterAllLeave, Listing, InOrder, Keeps, GrownBy, Moments, WellRostered, Populated;
      hide Lobbies.LobbyValues, Lobbies.Valid;
      lobbyRegistry.ValueAt(id);
      var players := lobbyRegistry.lobbies[id].GetAllPlayers();
      roster, leaving, heirs := players, players, players;
      var added := CreateGame(players, area, draws);
      if added {
        leaving, heirs := Disband(id);
      }
    }

    /** All players leave a lobby, in any order. */
    method Disband(id: LobbyId) returns (ghost leaving: seq<PlayerId>, ghost heirs: seq<PlayerId>)
      requires lobbyRegistry.Valid() && id in lobbyRegistry.lobbies
      modifies lobbyRegistry, lobbyRegistry.lobbies.Values
      ensures lobbyRegistry.Valid() && |leaving| == |heirs|
      ensures Listing(leaving, old(lobbyRegistry.Value()).lobbies[id].ready.Keys)
      ensures lobbyRegistry.Value() == Membership.AfterAllLeave(old(lobbyRegistry.Value()), leaving, heirs)
    {
      hide Membership.AfterAllLeave, Listing, Lobbies.LobbyValues;
      lobbyRegistry.ValueAt(id);
      var all := lobbyRegistry.lobbies[id].GetAllPlayers();
      leaving := all;
      heirs := RemoveAll(all);
    }

    /** A new dungeon joins the others without touching them. */
    method CreateGame(players: seq<PlayerId>, area: Area, draws: nat -> Draws) returns (added: bool)
      requires InOrder(games.dungeons)
      modifies games
      ensures InOrder(games.dungeons)
      ensures Keeps(games.dungeons, old(games.dungeons))
      ensures GrownBy(Moments(games.dungeons), old(Moments(games.dungeons)), Populated(area, players, draws))
      ensures (games.Value(), added) == AfterAdd(old(games.Value()), players)
    {
      hide AfterAdd, GrownBy, InOrder, Moments, Populated, Dungeon.Now;
      ghost var ds := games.dungeons;
      added := AddAmong(players, area, draws);
      MomentsGrow(ds, games.dungeons, Populated(area, players, draws));
    }

    method AddAmong(players: seq<PlayerId>, area: Area, draws: nat -> Draws) returns (added: bool)
      requires InOrder(games.dungeons)
      modifies games
      ensures InOrder(games.dungeons)
      ensures Keeps(games.dungeons, old(games.dungeons))
      ensures forall g :: g in old(games.dungeons) ==> games.dungeons[g].Now() == old(games.dungeons[g].Now())
      ensures forall g :: g in games.dungeons && g !in old(games.dungeons)
                          ==> games.dungeons[g].Now() == Moment(Populated(area, players, draws), [])
      ensures (games.Value(), added) == AfterAdd(old(games.Value()), players)
    {
      hide AfterAdd, Populated, Dungeon.Valid, Dungeon.Repr, Dungeon.Now;
      ghost var ds := games.dungeons;
      ghost var id := games.nextGameId;
      ghost var own := map g | g in ds :: ds[g].Repr();
      forall g | g in ds
        ensures games !in own[g] && forall o :: o in own[g] ==> allocated(o)
      {
        NotOwned(games, ds[g]);
      }
      added := games.AddDungeon(area, players, draws);
      forall g | g in ds
        ensures ds[g].Valid() && ds[g].Repr() == own[g] && ds[g].Now() == old(ds[g].Now())
      {
        assert games !in own[g] && own[g] == old(ds[g].Repr());
        ds[g].Untouched();
      }
      if added {
        forall g | g in ds
          ensures own[g] !! games.dungeons[id].Repr()
        {
          forall o | o in own[g]
            ensures o !in games.dungeons[id].Repr()
          {
            assert old(allocated(o));
          }
        }
      }
    }

    method RemoveAll(all: seq<PlayerId>) returns (ghost heirs: seq<PlayerId>)
      requires lobbyRegistry.Valid()
      modifies lobbyRegistry, lobbyRegistry.lobbies.Values
      ensures lobbyRegistry.Valid() && |heirs| == |all|
      ensures lobbyRegistry.Value() == Membership.AfterAllLeave(old(lobbyRegistry.Value()), all, heirs)
    {
      hide AfterRemovePlayer;
      heirs := [];
      for i := 0 to |all|
        invariant lobbyRegistry.Valid() && |heirs| == i
        invariant lobbyRegistry.lobbies.Values <= old(lobbyRegistry.lobbies.Values)
        invariant lobbyRegistry.Value() == Membership.AfterAllLeave(old(lobbyRegistry.Value()), all[..i], heirs)
      {
        ghost var before := heirs;
        var ok;
        ghost var heir;
        ok, heir := lobbyRegistry.RemovePlayerFromLobby(all[i]);
        heirs := heirs + [heir];
        assert all[..i + 1][..i] == all[..i] && heirs[..i] == before;
      }
      assert all[..|all|] == all;
    }

    /** Ticks one dungeon and posts the new state, or a game-over event for each of its players. */
    method TickDungeon(g: GameId, d: Dungeon, dice: Dice) returns (posted: seq<Posted>, over: bool)
      requires d.Valid() && Fits(dice, d.Now().world.monsters.Keys)
      modifies d.Repr()
      ensures d.Valid() && d.Repr() == old(d.Repr()) && over == GameOver(d.Now().world)
      ensures Ticked(old(d.Now()), dice, d.Now()) && PostedFor(g, d.Now().world, posted)
    {
      hide GameOver, Shows, AreCommands, AreTurns, Fits, Later, Ticked, PostedFor, Dungeon.Valid, EntityManager.View;
      d.ManagerViews();
      var snapshot;
      ghost var acts, moves, attacks;
      snapshot, acts, moves, attacks := d.ProcessTick(dice);
      posted := Post(g, d, snapshot);
      over := snapshot.None?;
    }

    method Post(g: GameId, d: Dungeon, snapshot: Option<DungeonSnapshot>) returns (posted: seq<Posted>)
      requires snapshot.None? <==> GameOver(d.Value())
      requires snapshot.Some? ==> Shows(snapshot.value, d.Value())
      ensures PostedFor(g, d.Value(), posted)
    {
      hide GameOver, Shows, GameOvers;
      if snapshot.None? {
        posted := PostGameOver(d);
      } else {
        posted := [StateUpdate(g, snapshot.value)];
      }
    }

    method PostGameOver(d: Dungeon) returns (posted: seq<Posted>)
      ensures exists ids :: Listing(ids, d.Value().players.Keys) && posted == GameOvers(ids)
    {
      hide Listing;
      var players := d.GetPlayers();
      posted := [];
      for i := 0 to |players|
        invariant posted == GameOvers(players[..i])
      {
        assert GameOvers(players[..i + 1]) == GameOvers(players[..i]) + [GameOverFor(players[i])];
        posted := posted + [GameOverFor(players[i])];
      }
      assert players[..|players|] == players;
    }

    /** Ticks one of several dungeons that own disjoint objects; the others stay as they are. */
    method TickAmong(ds: map<GameId, Dungeon>, g: GameId, dice: Dice, ghost own: map<GameId, set<object>>)
      returns (posted: seq<Posted>, over: bool)
      requires g in ds && own.Keys == ds.Keys
      requires forall h :: h in ds ==> ds[h].Valid() && ds[h].Repr() == own[h]
      requires forall h :: h in ds && h != g ==> own[h] !! own[g]
      requires Fits(dice, Moments(ds)[g].world.monsters.Keys)
      modifies own[g]
      ensures forall h :: h in ds ==> ds[h].Valid() && ds[h].Repr() == own[h]
      ensures Moments(ds) == old(Moments(ds))[g := Moments(ds)[g]]
      ensures Ticked(old(Moments(ds))[g], dice, Moments(ds)[g])
      ensures over == GameOver(Moments(ds)[g].world) && PostedFor(g, Moments(ds)[g].world, posted)
    {
      hide GameOver, PostedFor, Ticked, Fits, Moments, Dungeon.Valid, Dungeon.Now, EntityManager.View;
      MomentAt(ds, g);
      posted, over := TickDungeon(g, ds[g], dice);
      forall h | h in ds && h != g
        ensures ds[h].Valid() && ds[h].Now() == old(ds[h].Now()) && ds[h].Repr() == own[h]
      {
        assert own[h] !! own[g];
        ds[h].Untouched();
      }
      OneMomentChanged(ds, g);
    }

    /** Ticks every dungeon, in any order; `ended` are those whose game is over. */
    method TickAll(ds: map<GameId, Dungeon>, dice: GameId -> Dice)
      returns (posted: seq<Posted>, ended: seq<GameId>, ghost order: seq<GameId>, ghost batches: seq<seq<Posted>>)
      requires InOrder(ds) && AllFit(Moments(ds), dice)
      modifies set g, o | g in ds && o in ds[g].Repr() :: o
      ensures InOrder(ds)
      ensures Listing(order, ds.Keys) && posted == Flatten(batches)
      ensures Round(old(Moments(ds)), Moments(ds), dice, order, batches) && AreOver(Moments(ds), order, ended)
    {
      hide Round, AreOver, Unticked, AllFit, Fits, Flatten, Listing, GameOver, PostedFor, Ticked, Moments;
      hide Dungeon.Valid, Dungeon.Repr, Dungeon.Now, EntityManager.View;
      posted, ended, order, batches := [], [], [], [];
      ghost var own := map g | g in ds :: ds[g].Repr();
      var rest := ds.Keys;
      RoundStarts(old(Moments(ds)), dice, ds.Keys);
      while rest != {}
        invariant rest <= ds.Keys
        invariant forall g :: g in ds ==> ds[g].Valid() && ds[g].Repr() == own[g]
        invariant Listing(order, ds.Keys - rest) && posted == Flatten(batches)
        invariant Unticked(old(Moments(ds)), Moments(ds), rest)
        invariant Round(old(Moments(ds)), Moments(ds), dice, order, batches) && AreOver(Moments(ds), order, ended)
      {
        var g :| g in rest;
        ghost var now := Moments(ds);
        StillFits(old(Moments(ds)), now, dice, rest, g);
        var news, over := TickAmong(ds, g, dice(g), own);
        RoundGoesOn(old(Moments(ds)), now, Moments(ds), dice, ds.Keys, rest, order, batches, ended, g, news, over);
        rest := rest - {g};
        order, batches := order + [g], batches + [news];
        posted := posted + news;
        if over {
          ended := ended + [g];
        }
      }
      assert ds.Keys - rest == ds.Keys;
    }

    /**
     The game tick. Every dungeon is ticked once, in some order, and posts exactly its own events in
     that order; those whose game is over leave the registry, and each dungeon that stays has a
     living player.
     */
    method OnGameTick(dice: GameId -> Dice)
      returns (posted: seq<Posted>, ended: seq<GameId>, ghost order: seq<GameId>, ghost batches: seq<seq<Posted>>)
      requires InOrder(games.dungeons) && AllFit(Moments(games.dungeons), dice)
      modifies games, set g, o | g in games.dungeons && o in games.dungeons[g].Repr() :: o
      ensures Listing(order, old(games.dungeons).Keys) && posted == Flatten(batches)
      ensures Round(old(Moments(games.dungeons)), Moments(old(games.dungeons)), dice, order, batches)
      ensures AreOver(Moments(old(games.dungeons)), order, ended)
      ensures games.Value() == AfterAllEnd(old(games.Value()), ended)
      ensures games.dungeons == map g | g in old(games.dungeons) && g !in ended :: old(games.dungeons)[g]
      ensures forall g :: g in games.dungeons ==> !GameOver(Moments(old(games.dungeons))[g].world)
      ensures InOrder(games.dungeons)
      ensures old(WellRostered()) ==> WellRostered()
    {
      hide Round, AreOver, AllFit, Flatten, Listing, InOrder, GameOver, PostedFor, Moments, Consistent, Descended;
      hide Dungeon.Valid, Dungeon.Repr, Dungeon.Now, EntityManager.View;
      var ds := games.dungeons;
      forall g | g in ds
        ensures games !in ds[g].Repr()
      {
        NotOwned(games, ds[g]);
      }
      posted, ended, order, batches := TickAll(ds, dice);
      RestGoesOn(Moments(ds), order, ended);
      EndAll(ended);
      FewerInOrder(ds, games.dungeons);
      if old(WellRostered()) {
        RoundDescends(old(Moments(ds)), Moments(ds), dice, order, batches, old(games.dungeonToPlayers));
        FewerMoments(ds, games.dungeons);
        EndDescends(old(games.Value()), ended, Moments(ds), Moments(games.dungeons));
      }
    }

    method EndAll(ended: seq<GameId>)
      modifies games
      ensures games.Value() == AfterAllEnd(old(games.Value()), ended)
      ensures games.dungeons == map g | g in old(games.dungeons) && g !in ended :: old(games.dungeons)[g]
    {
      hide AfterRemove;
      for i := 0 to |ended|
        invariant games.Value() == AfterAllEnd(old(games.Value()), ended[..i])
        invariant games.dungeons == map g | g in old(games.dungeons) && g !in ended[..i] :: old(games.dungeons)[g]
      {
        assert ended[..i + 1] == ended[..i] + [ended[i]] && ended[..i + 1][..i] == ended[..i];
        var ok := games.RemoveDungeon(ended[i]);
      }
      assert ended[..|ended|] == ended;
    }
  }

  lemma FewerInOrder(ds: map<GameId, Dungeon>, rest: map<GameId, Dungeon>)
    requires InOrder(ds) && forall g :: g in rest ==> g in ds && rest[g] == ds[g]
    ensures InOrder(rest)
  {
    hide Dungeon.Valid, Dungeon.Repr;
  }

  lemma FewerMoments(ds: map<GameId, Dungeon>, rest: map<GameId, Dungeon>)
    requires forall g :: g in rest ==> g in ds && rest[g] == ds[g]
    ensures forall g :: g in rest ==> Moments(rest)[g] == Moments(ds)[g]
  {
    hide Dungeon.Now;
  }

  lemma NotOwned(games: Games, d: Dungeon)
    ensures games !in d.Repr()
    ensures forall o :: o in d.Repr() ==> allocated(o)
  {
  }
}
