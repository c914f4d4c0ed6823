/**
 Players, lobbies and games as one transition system. Each request handler is one atomic step on
 the lobby registry and the game index; a run is any sequence of steps.
 */
module Membership {
  import opened Wrappers
  import opened Lobby
  import opened LobbyRegistry
  import opened LobbyManager
  import opened DungeonRegistry

  datatype System = System(lobbies: Registry, games: Index)

  const START := System(EMPTY, NO_GAMES)

  /** What hash-map order decides is part of the event: heirs, and the order of a player list. */
  datatype Event =
    | Create(p: PlayerId, heir: PlayerId)
    | Join(p: PlayerId, id: LobbyId, heir: PlayerId)
    | Leave(p: PlayerId, heir: PlayerId)
    | Ready(p: PlayerId, isReady: bool, heir: PlayerId)
    | StartGame(p: PlayerId, roster: seq<PlayerId>, leaving: seq<PlayerId>, heirs: seq<PlayerId>)
    | EndGame(game: GameId)

  /** The players leave one after the other. */
  function AfterAllLeave(r: Registry, players: seq<PlayerId>, heirs: seq<PlayerId>): Registry
    requires |players| == |heirs|
  {
    if players == [] then r
    else
      var n := |players| - 1;
      AfterRemovePlayer(AfterAllLeave(r, players[..n], heirs[..n]), players[n], heirs[n]).0
  }

  function AfterStart(s: System, p: PlayerId, roster: seq<PlayerId>, leaving: seq<PlayerId>,
                      heirs: seq<PlayerId>): System
    requires |leaving| == |heirs|
  {
    if !Housed(s.lobbies, p) then s
    else
      var (games, added) := AfterAdd(s.games, roster);
      System(if added then AfterAllLeave(s.lobbies, leaving, heirs) else s.lobbies, games)
  }

  predicate Housed(r: Registry, p: PlayerId) { p in r.lobbyOf && r.lobbyOf[p] in r.lobbies }

  function LobbyOf(r: Registry, p: PlayerId): LobbyValue
    requires Housed(r, p)
  {
    r.lobbies[r.lobbyOf[p]]
  }

  /** The choices that an execution can make. */
  ghost predicate Legal(s: System, e: Event) {
    match e
    case Leave(p, heir) => Housed(s.lobbies, p) ==> LobbyOf(s.lobbies, p).CanInherit(p, heir)
    case StartGame(p, roster, leaving, heirs) =>
      && |leaving| == |heirs|
      && (Housed(s.lobbies, p) ==> Listing(roster, LobbyOf(s.lobbies, p).ready.Keys)
                                   && Listing(leaving, LobbyOf(s.lobbies, p).ready.Keys))
    case _ => true
  }

  ghost function Step(s: System, e: Event): System
    requires Legal(s, e)
  {
    match e
    case Create(p, heir) => s.(lobbies := AfterCreate(s.lobbies, p, heir).0)
    case Join(p, id, heir) => s.(lobbies := AfterJoin(s.lobbies, p, id, heir).0)
    case Leave(p, heir) => s.(lobbies := AfterLeave(s.lobbies, p, heir).0)
    case Ready(p, isReady, heir) => s.(lobbies := AfterReady(s.lobbies, p, isReady, heir).0)
    case StartGame(p, roster, leaving, heirs) => AfterStart(s, p, roster, leaving, heirs)
    case EndGame(g) => s.(games := AfterRemove(s.games, g).0)
  }

  /** The system after a list of events; events with impossible choices are skipped. */
  ghost function Run(events: seq<Event>): System {
    if events == [] then START
    else
      var s := Run(events[..|events| - 1]);
      var e := events[|events| - 1];
      if Legal(s, e) then Step(s, e) else s
  }

  ghost predicate Coherent(s: System) {
    Good(s.lobbies) && Consistent(s.games)
  }

  // ---------------------------------------------------------------------------------------
  // Starting a game
  // ---------------------------------------------------------------------------------------

  /** `gone` have left lobby `id`: nobody else is touched, and it exists while somebody is left. */
  ghost predicate HaveLeft(r: Registry, s: Registry, id: LobbyId, gone: set<PlayerId>)
    requires id in r.lobbies
  {
    && s.nextId == r.nextId && s.lobbyOf == r.lobbyOf - gone
    && s.lobbies - {id} == r.lobbies - {id}
    && (id in s.lobbies <==> gone != r.lobbies[id].ready.Keys)
    && (id in s.lobbies ==> s.lobbies[id].ready.Keys == r.lobbies[id].ready.Keys - gone)
  }

  lemma OneMoreLeft(r: Registry, s: Registry, id: LobbyId, gone: set<PlayerId>, p: PlayerId, heir: PlayerId)
    requires Agree(s) && id in r.lobbies && HaveLeft(r, s, id, gone)
    requires p in r.lobbies[id].ready && p !in gone && gone <= r.lobbies[id].ready.Keys
    ensures HaveLeft(r, AfterRemovePlayer(s, p, heir).0, id, gone + {p})
    ensures Agree(AfterRemovePlayer(s, p, heir).0)
  {
    hide Agree, AfterRemovePlayer;
    assert id in s.lobbies && p in s.lobbies[id].ready;
    InLobbyByMap(s, id, p);
    RemovePlayerRefines(s, p, heir);
    var t := AfterRemovePlayer(s, p, heir).0;
    var left := s.lobbies[id].Without(p, heir);
    assert left.ready.Keys == r.lobbies[id].ready.Keys - (gone + {p});
    assert left.IsEmpty() <==> left.ready.Keys == {};
    assert r.lobbyOf - gone - {p} == r.lobbyOf - (gone + {p});
    assert t.lobbies - {id} == s.lobbies - {id};
  }

  lemma InLobbyByMap(s: Registry, id: LobbyId, p: PlayerId)
    requires Agree(s) && id in s.lobbies && p in s.lobbies[id].ready
    ensures p in s.lobbyOf && s.lobbyOf[p] == id
  {
    assert AgreeOn(s, id);
  }

  lemma {:induction false} AllLeave(r: Registry, id: LobbyId, players: seq<PlayerId>, heirs: seq<PlayerId>)
    requires Agree(r) && id in r.lobbies && |players| == |heirs| && r.lobbies[id].ready != map[]
    requires Distinct(players) && SetOf(players) <= r.lobbies[id].ready.Keys
    ensures Agree(AfterAllLeave(r, players, heirs))
    ensures HaveLeft(r, AfterAllLeave(r, players, heirs), id, SetOf(players))
    decreases |players|
  {
    hide Agree, HaveLeft, AfterRemovePlayer, Distinct, SetOf;
    if players == [] {
      NobodyLeft(r, id);
    } else {
      var n := |players| - 1;
      var front, last := players[..n], players[n];
      assert players == front + [last];
      DistinctSnoc(front, last);
      SetOfSnoc(front, last);
      AllLeave(r, id, front, heirs[..n]);
      OneMoreLeft(r, AfterAllLeave(r, front, heirs[..n]), id, SetOf(front), last, heirs[n]);
    }
  }

  lemma NobodyLeft(r: Registry, id: LobbyId)
    requires id in r.lobbies && r.lobbies[id].ready != map[]
    ensures HaveLeft(r, r, id, SetOf([]))
  {
    assert SetOf([]) == {};
    assert r.lobbyOf - {} == r.lobbyOf;
  }

  /** The members of one lobby enter one new game and the lobby is gone; or nothing changes. */
  ghost predicate Started(s: System, after: System, id: LobbyId, roster: seq<PlayerId>)
    requires id in s.lobbies.lobbies
  {
    && after.lobbies.lobbies == s.lobbies.lobbies - {id}
    && after.lobbies.lobbyOf == s.lobbies.lobbyOf - s.lobbies.lobbies[id].ready.Keys
    && after.lobbies.nextId == s.lobbies.nextId
    && s.games.nextId !in s.games.dungeons
    && after.games.dungeons == s.games.dungeons + {s.games.nextId}
    && after.games.rosters == s.games.rosters[s.games.nextId := roster]
    && after.games.gameOf == s.games.gameOf + AllIn(roster, s.games.nextId)
    && SetOf(roster) == s.lobbies.lobbies[id].ready.Keys
  }

  /** Starting is possible for a player in a lobby none of whose members is in a game. */
  ghost predicate CanStart(s: System, p: PlayerId) {
    && p in s.lobbies.lobbyOf && s.lobbies.lobbyOf[p] in s.lobbies.lobbies
    && forall q :: q in s.lobbies.lobbies[s.lobbies.lobbyOf[p]].ready ==> q !in s.games.gameOf
  }

  lemma StartIsAllOrNothing(s: System, p: PlayerId, roster: seq<PlayerId>, leaving: seq<PlayerId>, heirs: seq<PlayerId>)
    requires Coherent(s) && Legal(s, StartGame(p, roster, leaving, heirs))
    ensures var after := AfterStart(s, p, roster, leaving, heirs);
            && Coherent(after)
            && (if CanStart(s, p) then Started(s, after, s.lobbies.lobbyOf[p], roster) else after == s)
  {
    var r := s.lobbies;
    var after := AfterStart(s, p, roster, leaving, heirs);
    AddRefines(s.games, roster);
    if p in r.lobbyOf {
      MemberIsThere(r, p);
      var id := r.lobbyOf[p];
      var members := r.lobbies[id].ready.Keys;
      ListingEnters(s.games, roster, members);
      ListingEnters(s.games, leaving, members);
      if CanStart(s, p) {
        AllLeave(r, id, leaving, heirs);
        LobbyGone(r, after.lobbies, id);
      }
    }
    hide Agree, Healthy, AfterAdd, AfterAllLeave, Consistent;
  }

  lemma ListingEnters(ix: Index, players: seq<PlayerId>, members: set<PlayerId>)
    requires Listing(players, members) && members != {}
    ensures Distinct(players) && SetOf(players) == members
    ensures Enters(ix, players) <==> forall q :: q in members ==> q !in ix.gameOf
  {
  }

  lemma LobbyGone(r: Registry, s: Registry, id: LobbyId)
    requires Healthy(r) && id in r.lobbies && HaveLeft(r, s, id, r.lobbies[id].ready.Keys)
    ensures s.lobbies == r.lobbies - {id} && Healthy(s)
  {
    hide LobbyValue.Healthy;
    assert s.lobbies == s.lobbies - {id};
  }

  // ---------------------------------------------------------------------------------------
  // Every run
  // ---------------------------------------------------------------------------------------

  lemma StepKeeps(s: System, e: Event)
    requires Coherent(s) && Legal(s, e)
    ensures Coherent(Step(s, e))
  {
    hide Agree, Healthy, Consistent, AfterCreate, AfterJoin, AfterLeave, AfterReady, AfterStart, AfterRemove;
    match e
    case Create(p, heir) => CreateRefines(s.lobbies, p, heir);
    case Join(p, id, heir) => JoinRefines(s.lobbies, p, id, heir);
    case Leave(p, heir) =>
      if p in s.lobbies.lobbyOf {
        MemberIsThere(s.lobbies, p);
      }
      LeaveRefines(s.lobbies, p, heir);
    case Ready(p, isReady, heir) => ReadyRefines(s.lobbies, p, isReady, heir);
    case StartGame(p, roster, leaving, heirs) => StartIsAllOrNothing(s, p, roster, leaving, heirs);
    case EndGame(g) => RemoveRefines(s.games, g);
  }

  lemma {:induction false} RunKeeps(events: seq<Event>)
    ensures Coherent(Run(events))
  {
    hide Coherent, Legal, Step;
    if events == [] {
      StartIsCoherent();
    } else {
      RunKeeps(events[..|events| - 1]);
      var s := Run(events[..|events| - 1]);
      if Legal(s, events[|events| - 1]) {
        StepKeeps(s, events[|events| - 1]);
      }
    }
  }

  lemma StartIsCoherent()
    ensures Coherent(START)
  {
  }

  /**
   In every run, each lobby is non-empty, within capacity, led by a member and numbered below the
   next id; the three records of membership agree; and neither the stale-mapping result nor the
   mapping roll-back can occur.
   */
  lemma EveryRun(events: seq<Event>, p: PlayerId, id: LobbyId, heir: PlayerId)
    ensures var r := Run(events).lobbies;
            && (id in r.lobbies ==>
                  && id < r.nextId && r.lobbies[id].Healthy()
                  && (p in r.lobbies[id].ready <==> p in r.lobbyOf && r.lobbyOf[p] == id)
                  && (p in MembersOf(r, id) <==> p in r.lobbies[id].ready))
            && (p in r.lobbyOf ==> r.lobbyOf[p] in r.lobbies)
            && Lookup(r, p, heir).1 != StaleMapping
            && !RollsBack(r, p, id) && !Recovers(r, p)
  {
    hide Run, Consistent, LobbyValue.Healthy, AfterAddPlayer, RollsBack, Recovers, Lookup;
    RunKeeps(events);
    var r := Run(events).lobbies;
    NeverStale(r, p, heir);
    AgreedNeverRecovers(r, p);
    AddPlayerRefines(r, p, id, heir);
    assert id in r.lobbies ==> AgreeOn(r, id);
  }

  /**
   Inside the create handler, on the registry that already holds the new lobby: the number was free,
   and the founder's mapping is not rolled back.
   */
  lemma CreateNeverRollsBack(events: seq<Event>, p: PlayerId)
    ensures var r := Run(events).lobbies;
            var (r1, added) := AfterAddLobby(r.(nextId := r.nextId + 1), r.nextId, LobbyValue(map[], p));
            added && !RollsBack(r1, p, r.nextId)
  {
    hide Run, Good, Consistent, AfterAddLobby, RollsBack;
    RunKeeps(events);
    FounderIsTaken(Run(events).lobbies, p);
  }

  /**
   Inside the start handler, before each step of the loop in which the players leave: the index by
   player is right about everybody, and the step removes its player.
   */
  lemma StartNeverRecovers(events: seq<Event>, p: PlayerId, roster: seq<PlayerId>, leaving: seq<PlayerId>,
                           heirs: seq<PlayerId>, k: nat, q: PlayerId)
    requires CanStart(Run(events), p) && Legal(Run(events), StartGame(p, roster, leaving, heirs)) && k <= |leaving|
    ensures var r := AfterAllLeave(Run(events).lobbies, leaving[..k], heirs[..k]);
            && !Recovers(r, q)
            && (k < |leaving| ==> AfterRemovePlayer(r, leaving[k], heirs[k]).1)
  {
    hide Run, Agree, Healthy, Consistent, AfterAllLeave, AfterRemovePlayer, Recovers;
    RunKeeps(events);
    var r := Run(events).lobbies;
    MemberIsThere(r, p);
    var id := r.lobbyOf[p];
    FirstLeave(r, id, leaving, heirs, k);
    var s := AfterAllLeave(r, leaving[..k], heirs[..k]);
    AgreedNeverRecovers(s, q);
    if k < |leaving| {
      InLobbyByMap(r, id, leaving[k]);
      RemovePlayerRefines(s, leaving[k], heirs[k]);
    }
  }

  lemma FirstLeave(r: Registry, id: LobbyId, leaving: seq<PlayerId>, heirs: seq<PlayerId>, k: nat)
    requires Agree(r) && id in r.lobbies && r.lobbies[id].ready != map[]
    requires Listing(leaving, r.lobbies[id].ready.Keys) && |leaving| == |heirs| && k <= |leaving|
    ensures var s := AfterAllLeave(r, leaving[..k], heirs[..k]);
            && Agree(s) && s.lobbyOf == r.lobbyOf - SetOf(leaving[..k])
            && (k < |leaving| ==> leaving[k] in r.lobbies[id].ready && leaving[k] !in SetOf(leaving[..k]))
  {
    hide Agree, AfterAllLeave;
    var first := leaving[..k];
    assert forall i :: 0 <= i < k ==> first[i] == leaving[i];
    AllLeave(r, id, first, heirs[..k]);
  }

  /** In every run, the three maps of the games agree and every game has players. */
  lemma EveryGame(events: seq<Event>, p: PlayerId, g: GameId)
    ensures var ix := Run(events).games;
            && (g in ix.dungeons <==> g in ix.rosters)
            && (g in ix.rosters ==> ix.rosters[g] != [] && Distinct(ix.rosters[g])
                                    && (p in ix.rosters[g] <==> p in ix.gameOf && ix.gameOf[p] == g))
            && (p in ix.gameOf ==> ix.gameOf[p] in ix.dungeons)
  {
    hide Run, Good;
    RunKeeps(events);
    assert g in Run(events).games.dungeons ==> RosterFits(Run(events).games, g);
  }
}
