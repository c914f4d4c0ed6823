/** The lobby request handlers, each run as one atomic step on the registry. */
module LobbyManager {
  import opened Wrappers
  import opened Lobby
  import opened LobbyRegistry

  datatype Response =
    | LobbyCreated(id: LobbyId) | LobbyCreationFailed
    | LobbyJoined | JoinNotExists | JoinFull | JoinFailed
    | LobbyLeft | NotInLobby | LeaveFailed
    | ReadySet | ReadyFailed

  datatype LookupResult = Success(id: LobbyId) | PlayerNotInLobby | StaleMapping

  // ---------------------------------------------------------------------------------------
  // The handlers on the registry's value
  // ---------------------------------------------------------------------------------------

  function Lookup(r: Registry, p: PlayerId, heir: PlayerId): (Registry, LookupResult) {
    if p !in r.lobbyOf then (r, PlayerNotInLobby)
    else if r.lobbyOf[p] !in r.lobbies then (AfterRemovePlayer(r, p, heir).0, StaleMapping)
    else (r, Success(r.lobbyOf[p]))
  }

  function AfterCreate(r: Registry, p: PlayerId, heir: PlayerId): (Registry, Response) {
    if p in r.lobbyOf then (r, LobbyCreationFailed)
    else
      var (r1, added) := AfterAddLobby(r.(nextId := r.nextId + 1), r.nextId, LobbyValue(map[], p));
      if !added then (r1, LobbyCreationFailed)
      else
        var (r2, joined) := AfterAddPlayer(r1, p, r.nextId, heir);
        if !joined then (AfterRemoveLobby(r2, r.nextId).0, LobbyCreationFailed)
        else (r2, LobbyCreated(r.nextId))
  }

  function AfterJoin(r: Registry, p: PlayerId, id: LobbyId, heir: PlayerId): (Registry, Response) {
    if id !in r.lobbies then (r, JoinNotExists)
    else if r.lobbies[id].IsFull() then (r, JoinFull)
    else
      var (r1, joined) := AfterAddPlayer(r, p, id, heir);
      (r1, if joined then LobbyJoined else JoinFailed)
  }

  function AfterLeave(r: Registry, p: PlayerId, heir: PlayerId): (Registry, Response) {
    var (r1, found) := Lookup(r, p, heir);
    match found
    case PlayerNotInLobby => (r1, NotInLobby)
    case StaleMapping => (r1, LeaveFailed)
    case Success(_) =>
      var (r2, removed) := AfterRemovePlayer(r1, p, heir);
      (r2, if removed then LobbyLeft else LeaveFailed)
  }

  function AfterReady(r: Registry, p: PlayerId, isReady: bool, heir: PlayerId): (Registry, Response) {
    var (r1, found) := Lookup(r, p, heir);
    if !found.Success? then (r1, ReadyFailed)
    else
      var lobby := r1.lobbies[found.id];
      if p !in lobby.ready then (r1, ReadyFailed)
      else (r1.(lobbies := r1.lobbies[found.id := lobby.(ready := lobby.ready[p := isReady])]), ReadySet)
  }

  // ---------------------------------------------------------------------------------------
  // What the handlers keep
  // ---------------------------------------------------------------------------------------

  ghost predicate Good(r: Registry) {
    Agree(r) && Healthy(r)
  }

  /** In a good registry the stale-mapping recovery is never taken. */
  lemma NeverStale(r: Registry, p: PlayerId, heir: PlayerId)
    requires Agree(r)
    ensures Lookup(r, p, heir) == (r, if p in r.lobbyOf then Success(r.lobbyOf[p]) else PlayerNotInLobby)
  {
  }

  /** An empty lobby with the next number can be put into a good registry. */
  lemma NewLobby(r: Registry, p: PlayerId)
    requires Good(r)
    ensures r.nextId !in r.lobbies && forall q :: q in r.lobbyOf ==> r.lobbyOf[q] != r.nextId
    ensures var s := AfterAddLobby(r.(nextId := r.nextId + 1), r.nextId, LobbyValue(map[], p)).0;
            && Agree(s) && s.lobbies == r.lobbies[r.nextId := LobbyValue(map[], p)]
            && s.lobbyOf == r.lobbyOf && s.nextId == r.nextId + 1
  {
    assert r.nextId in r.lobbies ==> r.nextId < r.nextId;
    var numbered := r.(nextId := r.nextId + 1);
    forall id | id in numbered.lobbies
      ensures AgreeOn(numbered, id)
    {
      assert AgreeOn(r, id);
    }
    assert Agree(numbered);
    hide AfterAddLobby, Healthy, AgreeOn;
    AddLobbyAgreesIff(numbered, r.nextId, LobbyValue(map[], p));
    assert AfterAddLobby(numbered, r.nextId, LobbyValue(map[], p)).0
        == numbered.(lobbies := r.lobbies[r.nextId := LobbyValue(map[], p)]) by {
      AddLobbyEffect(numbered, r.nextId, p);
    }
  }

  lemma AddLobbyEffect(r: Registry, id: LobbyId, p: PlayerId)
    requires id !in r.lobbies
    ensures AfterAddLobby(r, id, LobbyValue(map[], p)) == (r.(lobbies := r.lobbies[id := LobbyValue(map[], p)]), true)
  {
  }

  /** The new lobby takes its founder without a roll-back. */
  lemma FounderIsTaken(r: Registry, p: PlayerId)
    requires Good(r)
    ensures var (s, added) := AfterAddLobby(r.(nextId := r.nextId + 1), r.nextId, LobbyValue(map[], p));
            added && !RollsBack(s, p, r.nextId)
  {
    hide Agree, Healthy, RollsBack, AfterAddLobby;
    NewLobby(r, p);
    var numbered := r.(nextId := r.nextId + 1);
    AddLobbyEffect(numbered, r.nextId, p);
    AddPlayerRefines(AfterAddLobby(numbered, r.nextId, LobbyValue(map[], p)).0, p, r.nextId, p);
  }

  /**
   Creating succeeds exactly for a player in no lobby (unless the capacity is zero): the new lobby
   holds just its leader. Otherwise the lobbies and the membership stay as they were.
   */
  lemma CreateRefines(r: Registry, p: PlayerId, heir: PlayerId)
    requires Good(r)
    ensures var (s, response) := AfterCreate(r, p, heir);
            && Good(s)
            && (if p !in r.lobbyOf && LOBBY_MAX_PLAYERS > 0 then
                  && response == LobbyCreated(r.nextId) && r.nextId !in r.lobbies
                  && s.lobbies == r.lobbies[r.nextId := LobbyValue(map[p := false], p)]
                  && s.lobbyOf == r.lobbyOf[p := r.nextId] && s.nextId == r.nextId + 1
                else
                  response == LobbyCreationFailed && s.lobbies == r.lobbies && s.lobbyOf == r.lobbyOf)
  {
    hide AfterAddLobby, AfterAddPlayer, AfterRemoveLobby, Agree, Healthy, LobbyValue.With;
    if p !in r.lobbyOf {
      var empty := LobbyValue(map[], p);
      assert |empty.ready| == 0;
      NewLobby(r, p);
      AddLobbyEffect(r.(nextId := r.nextId + 1), r.nextId, p);
      var r1 := AfterAddLobby(r.(nextId := r.nextId + 1), r.nextId, empty).0;
      var (r2, joined) := AfterAddPlayer(r1, p, r.nextId, heir);
      AddPlayerRefines(r1, p, r.nextId, heir);
      if joined {
        WithStaysHealthy(empty, p);
        CreatedIsHealthy(r, r2, p);
      } else {
        var s := AfterRemoveLobby(r2, r.nextId).0;
        RemoveLobbyRefines(r2, r.nextId);
        RemovedAgain(r, r2, s, p);
        LaterNumberHealthy(r, s);
      }
    }
  }

  lemma CreatedIsHealthy(r: Registry, s: Registry, p: PlayerId)
    requires Healthy(r) && s.nextId == r.nextId + 1 && LobbyValue(map[], p).With(p).Healthy()
    requires s.lobbies == r.lobbies[r.nextId := LobbyValue(map[], p)][r.nextId := LobbyValue(map[], p).With(p)]
    ensures Healthy(s)
    ensures s.lobbies == r.lobbies[r.nextId := LobbyValue(map[p := false], p)]
  {
  }

  lemma RemovedAgain(r: Registry, r2: Registry, s: Registry, p: PlayerId)
    requires r.nextId !in r.lobbies && forall q :: q in r.lobbyOf ==> r.lobbyOf[q] != r.nextId
    requires r2.lobbies == r.lobbies[r.nextId := LobbyValue(map[], p)] && r2.lobbyOf == r.lobbyOf
    requires s.lobbies == r2.lobbies - {r.nextId}
    requires s.lobbyOf == map q | q in r2.lobbyOf && r2.lobbyOf[q] != r.nextId :: r2.lobbyOf[q]
    ensures s.lobbies == r.lobbies && s.lobbyOf == r.lobbyOf
  {
    assert s.lobbies == r.lobbies;
  }

  lemma LaterNumberHealthy(r: Registry, s: Registry)
    requires Healthy(r) && s.lobbies == r.lobbies && r.nextId <= s.nextId
    ensures Healthy(s)
  {
    hide LobbyValue.Healthy;
  }

  /** Joining succeeds exactly when the lobby exists, has room, and the player is in no lobby. */
  lemma JoinRefines(r: Registry, p: PlayerId, id: LobbyId, heir: PlayerId)
    requires Good(r)
    ensures var (s, response) := AfterJoin(r, p, id, heir);
            && Good(s)
            && (if id !in r.lobbies then response == JoinNotExists && s == r
                else if |r.lobbies[id].ready| == LOBBY_MAX_PLAYERS then response == JoinFull && s == r
                else if p in r.lobbyOf then response == JoinFailed && s == r
                else response == LobbyJoined && s.lobbyOf == r.lobbyOf[p := id] && JoinedOnly(r, s, id, p))
  {
    hide Agree, Healthy, AfterAddPlayer, LobbyValue.With, JoinedOnly;
    AddPlayerRefines(r, p, id, heir);
    AddPlayerHealthy(r, p, id, heir);
    if id in r.lobbies && p !in r.lobbyOf && !r.lobbies[id].IsFull() {
      NotYetThere(r, p, id);
      JoinsOnly(r, AfterAddPlayer(r, p, id, heir).0, id, p);
    }
  }

  /** `p` has joined lobby `id`, not ready: its leader and the other flags stay, and so do all other lobbies. */
  ghost predicate JoinedOnly(r: Registry, s: Registry, id: LobbyId, p: PlayerId)
    requires id in r.lobbies
  {
    && s.lobbies - {id} == r.lobbies - {id} && s.nextId == r.nextId && id in s.lobbies
    && p !in r.lobbies[id].ready && s.lobbies[id].ready == r.lobbies[id].ready[p := false]
    && s.lobbies[id].leader == r.lobbies[id].leader
  }

  lemma JoinsOnly(r: Registry, s: Registry, id: LobbyId, p: PlayerId)
    requires id in r.lobbies && r.lobbies[id].Admits(p)
    requires s.lobbies == r.lobbies[id := r.lobbies[id].With(p)] && s.nextId == r.nextId
    ensures JoinedOnly(r, s, id, p)
  {
    assert s.lobbies - {id} == r.lobbies - {id};
  }

  lemma NotYetThere(r: Registry, p: PlayerId, id: LobbyId)
    requires Agree(r) && id in r.lobbies && p !in r.lobbyOf
    ensures p !in r.lobbies[id].ready
  {
    assert AgreeOn(r, id);
  }

  /** A mapping to a missing lobby is dropped by every handler that looks the lobby up. */
  lemma StaleIsCleaned(r: Registry, p: PlayerId, isReady: bool, heir: PlayerId)
    requires p in r.lobbyOf && r.lobbyOf[p] !in r.lobbies
    ensures var cleaned := r.(lobbyOf := r.lobbyOf - {p});
            && Lookup(r, p, heir) == (cleaned, StaleMapping)
            && AfterLeave(r, p, heir) == (cleaned, LeaveFailed)
            && AfterReady(r, p, isReady, heir) == (cleaned, ReadyFailed)
  {
    RecoveryDropsEntry(r, p, heir);
  }

  /**
   `p` has left lobby `id`: the lobby is gone if nobody else was there; otherwise the others keep
   their flags and a member leads, the old leader if it was not `p`. No other lobby is touched.
   */
  ghost predicate LeftBehind(r: Registry, s: Registry, id: LobbyId, p: PlayerId)
    requires id in r.lobbies
  {
    && s.lobbies - {id} == r.lobbies - {id} && s.nextId == r.nextId
    && (id in s.lobbies <==> r.lobbies[id].ready.Keys != {p})
    && (id in s.lobbies ==>
          && s.lobbies[id].ready == r.lobbies[id].ready - {p}
          && s.lobbies[id].leader in s.lobbies[id].ready
          && (r.lobbies[id].leader != p ==> s.lobbies[id].leader == r.lobbies[id].leader))
  }

  lemma LeftBehindOne(r: Registry, s: Registry, id: LobbyId, p: PlayerId, heir: PlayerId)
    requires id in r.lobbies && r.lobbies[id].Healthy() && r.lobbies[id].CanInherit(p, heir) && p in r.lobbies[id].ready
    requires var left := r.lobbies[id].Without(p, heir);
             s.lobbies == if left.IsEmpty() then r.lobbies - {id} else r.lobbies[id := left]
    requires s.nextId == r.nextId
    ensures LeftBehind(r, s, id, p)
  {
    var ready := r.lobbies[id].ready;
    var rest := ready - {p};
    assert rest.Keys == ready.Keys - {p};
    assert rest == map[] <==> rest.Keys == {};
    assert ready.Keys == {p} <==> rest.Keys == {};
    assert s.lobbies - {id} == r.lobbies - {id};
  }

  /** Leaving succeeds exactly for a player in a lobby, who is then in none. */
  lemma LeaveRefines(r: Registry, p: PlayerId, heir: PlayerId)
    requires Good(r)
    requires p in r.lobbyOf ==> r.lobbyOf[p] in r.lobbies && r.lobbies[r.lobbyOf[p]].CanInherit(p, heir)
    ensures var (s, response) := AfterLeave(r, p, heir);
            && Good(s) && s.lobbyOf == r.lobbyOf - {p}
            && response == (if p in r.lobbyOf then LobbyLeft else NotInLobby)
            && (if p in r.lobbyOf then LeftBehind(r, s, r.lobbyOf[p], p) else s == r)
  {
    hide Agree, Healthy, AfterRemovePlayer, Lookup, LeftBehind, LobbyValue.Healthy, LobbyValue.CanInherit;
    NeverStale(r, p, heir);
    RemovePlayerRefines(r, p, heir);
    RemovePlayerHealthy(r, p, heir);
    assert p !in r.lobbyOf ==> r.lobbyOf - {p} == r.lobbyOf;
    if p in r.lobbyOf {
      MemberIsThere(r, p);
      LeftBehindOne(r, AfterRemovePlayer(r, p, heir).0, r.lobbyOf[p], p, heir);
    }
  }

  /** A ready flag changes that flag only, and is refused only to a player in no lobby. */
  lemma ReadyRefines(r: Registry, p: PlayerId, isReady: bool, heir: PlayerId)
    requires Good(r)
    ensures var (s, response) := AfterReady(r, p, isReady, heir);
            && Good(s) && s.lobbyOf == r.lobbyOf
            && (if p !in r.lobbyOf then response == ReadyFailed && s == r
                else
                  var id := r.lobbyOf[p];
                  && id in r.lobbies && response == ReadySet
                  && s == r.(lobbies := r.lobbies[id := r.lobbies[id].(ready := r.lobbies[id].ready[p := isReady])]))
  {
    hide Agree, Healthy, Lookup, LobbyValue.Healthy, LobbyValue.IsEmpty;
    NeverStale(r, p, heir);
    if p in r.lobbyOf {
      var id := r.lobbyOf[p];
      MemberIsThere(r, p);
      var lobby := r.lobbies[id];
      var flagged := lobby.(ready := lobby.ready[p := isReady]);
      assert flagged.ready.Keys == lobby.ready.Keys;
      SameKeysAgree(r, id, flagged);
      SameKeysHealthy(lobby, flagged);
      OneEntryHealthy(r, r.(lobbies := r.lobbies[id := flagged]), id, flagged);
    }
  }

  lemma MemberIsThere(r: Registry, p: PlayerId)
    requires Good(r) && p in r.lobbyOf
    ensures r.lobbyOf[p] in r.lobbies && p in r.lobbies[r.lobbyOf[p]].ready && r.lobbies[r.lobbyOf[p]].Healthy()
  {
    assert AgreeOn(r, r.lobbyOf[p]);
  }

  lemma SameKeysAgree(r: Registry, id: LobbyId, lobby: LobbyValue)
    requires Agree(r) && id in r.lobbies && lobby.ready.Keys == r.lobbies[id].ready.Keys
    ensures Agree(r.(lobbies := r.lobbies[id := lobby]))
  {
    var s := r.(lobbies := r.lobbies[id := lobby]);
    forall k | k in s.lobbies
      ensures AgreeOn(s, k)
    {
      assert AgreeOn(r, k);
    }
  }

  lemma SameKeysHealthy(lobby: LobbyValue, flagged: LobbyValue)
    requires lobby.Healthy() && flagged.ready.Keys == lobby.ready.Keys && flagged.leader == lobby.leader
    ensures flagged.Healthy() && !flagged.IsEmpty()
  {
    assert |flagged.ready| == |flagged.ready.Keys| == |lobby.ready.Keys| == |lobby.ready|;
  }

  // ---------------------------------------------------------------------------------------
  // The class
  // ---------------------------------------------------------------------------------------

  class Manager {
    const registry: Lobbies

    constructor (lobbies: Lobbies)
      ensures registry == lobbies
    {
      registry := lobbies;
    }

    method OnCreateLobbyRequest(p: PlayerId) returns (response: Response, ghost heir: PlayerId)
      requires registry.Valid()
      modifies registry, registry.lobbies.Values
      ensures registry.Valid()
      ensures (registry.Value(), response) == AfterCreate(old(registry.Value()), p, heir)
    {
      hide AfterAddPlayer, AfterRemoveLobby;
      heir := p;
      if p in registry.playerToLobby {
        return LobbyCreationFailed, p;
      }
      var newId := registry.GenerateNextLobbyId();
      var lobby := new LobbyObject(newId, p);
      assert registry.LobbyValues() == old(registry.LobbyValues());
      var added := registry.AddLobby(lobby);
      if !added {
        return LobbyCreationFailed, p;
      }
      var joined;
      joined, heir := registry.AddPlayerToLobby(p, newId);
      if !joined {
        var removed := registry.RemoveLobby(newId);
        return LobbyCreationFailed, heir;
      }
      return LobbyCreated(newId), heir;
    }

    method OnJoinLobbyRequest(p: PlayerId, id: LobbyId) returns (response: Response, ghost heir: PlayerId)
      requires registry.Valid()
      modifies registry, registry.lobbies.Values
      ensures registry.Valid()
      ensures (registry.Value(), response) == AfterJoin(old(registry.Value()), p, id, heir)
    {
      hide AfterAddPlayer;
      heir := p;
      if id !in registry.lobbies {
        return JoinNotExists, p;
      }
      if |registry.lobbies[id].players| == LOBBY_MAX_PLAYERS {
        return JoinFull, p;
      }
      var joined;
      joined, heir := registry.AddPlayerToLobby(p, id);
      response := if joined then LobbyJoined else JoinFailed;
    }

    method OnLeaveLobbyRequest(p: PlayerId) returns (response: Response, ghost heir: PlayerId)
      requires registry.Valid()
      modifies registry, registry.lobbies.Values
      ensures registry.Valid()
      ensures (registry.Value(), response) == AfterLeave(old(registry.Value()), p, heir)
      ensures response == LobbyLeft ==>
                var r := old(registry.Value());
                p in r.lobbyOf && r.lobbyOf[p] in r.lobbies && r.lobbies[r.lobbyOf[p]].CanInherit(p, heir)
    {
      hide AfterRemovePlayer;
      var found;
      found, heir := GetLobbyForPlayer(p);
      if found == PlayerNotInLobby {
        return NotInLobby, heir;
      }
      if found == StaleMapping {
        return LeaveFailed, heir;
      }
      var removed;
      removed, heir := registry.RemovePlayerFromLobby(p);
      response := if removed then LobbyLeft else LeaveFailed;
    }

    method OnPlayerReadyRequest(p: PlayerId, isReady: bool) returns (response: Response, ghost heir: PlayerId)
      requires registry.Valid()
      modifies registry, registry.lobbies.Values
      ensures registry.Valid()
      ensures (registry.Value(), response) == AfterReady(old(registry.Value()), p, isReady, heir)
    {
      hide AfterRemovePlayer;
      var found;
      found, heir := GetLobbyForPlayer(p);
      if !found.Success? {
        return ReadyFailed, heir;
      }
      var changed := registry.lobbies[found.id].SetReady(p, isReady);
      registry.OneLobbyChanged(found.id);
      if changed {
        response := ReadySet;
      } else {
        assert registry.LobbyValues() == old(registry.LobbyValues());
        response := ReadyFailed;
      }
    }

    /** The lobby of a player; a mapping to a missing lobby is cleaned up. */
    method GetLobbyForPlayer(p: PlayerId) returns (found: LookupResult, ghost heir: PlayerId)
      requires registry.Valid()
      modifies registry, registry.lobbies.Values
      ensures registry.Valid()
      ensures (registry.Value(), found) == Lookup(old(registry.Value()), p, heir)
      ensures found.StaleMapping? || registry.lobbies == old(registry.lobbies)
      ensures found.StaleMapping? || forall k :: k in registry.lobbies ==> unchanged(registry.lobbies[k])
    {
      heir := p;
      if p !in registry.playerToLobby {
        return PlayerNotInLobby, p;
      }
      var id := registry.playerToLobby[p];
      if id !in registry.lobbies {
        var removed;
        removed, heir := registry.RemovePlayerFromLobby(p);
        return StaleMapping, heir;
      }
      return Success(id), p;
    }
  }
}
