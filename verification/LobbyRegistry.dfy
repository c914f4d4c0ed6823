/**
 The registry of lobbies. It keeps who is in which lobby three times: in each lobby's own player
 set, in the index by player and in the index by lobby. `Registry` is its value; the class works on
 shared lobby objects. The operations are stated for every value, consistent or not, so that the
 recovery branches are part of them; the lemmas say what consistency makes of them.
 */
module LobbyRegistry {
  import opened Wrappers
  import opened Lobby

  datatype Registry = Registry(lobbies: map<LobbyId, LobbyValue>, lobbyOf: map<PlayerId, LobbyId>,
                               members: map<LobbyId, set<PlayerId>>, nextId: LobbyId)

  const EMPTY := Registry(map[], map[], map[], 1)

  // ---------------------------------------------------------------------------------------
  // The operations on the value
  // ---------------------------------------------------------------------------------------

  /** `operator[]` of the index by lobby: a missing entry is an empty set. */
  function MembersOf(r: Registry, id: LobbyId): set<PlayerId> {
    if id in r.members then r.members[id] else {}
  }

  function AfterAddLobby(r: Registry, id: LobbyId, lobby: LobbyValue): (Registry, bool) {
    if id in r.lobbies then (r, false) else (r.(lobbies := r.lobbies[id := lobby]), true)
  }

  function AfterRemoveLobby(r: Registry, id: LobbyId): (Registry, bool) {
    if id !in r.lobbies then (r, false)
    else (r.(lobbies := r.lobbies - {id}, lobbyOf := r.lobbyOf - MembersOf(r, id), members := r.members - {id}), true)
  }

  /** The mapping cannot be inserted although the lobby has taken the player. */
  predicate RollsBack(r: Registry, p: PlayerId, id: LobbyId) {
    p !in r.lobbyOf && id in r.lobbies && r.lobbies[id].Admits(p) && p in MembersOf(r, id)
  }

  /** The two index entries of a player the lobby has taken, or the roll-back of all three. */
  function AfterMapping(r: Registry, p: PlayerId, id: LobbyId, heir: PlayerId): (Registry, bool)
    requires id in r.lobbies
  {
    if p in MembersOf(r, id) || p in r.lobbyOf then
      (r.(lobbies := r.lobbies[id := r.lobbies[id].Without(p, heir)],
          members := r.members[id := MembersOf(r, id)]), false)
    else
      (r.(members := r.members[id := MembersOf(r, id) + {p}], lobbyOf := r.lobbyOf[p := id]), true)
  }

  function AfterAddPlayer(r: Registry, p: PlayerId, id: LobbyId, heir: PlayerId): (Registry, bool) {
    if p in r.lobbyOf || id !in r.lobbies || !r.lobbies[id].Admits(p) then (r, false)
    else AfterMapping(r.(lobbies := r.lobbies[id := r.lobbies[id].With(p)]), p, id, heir)
  }

  /** The index entries of a player who has left lobby `id`, and the lobby itself if it is empty. */
  function AfterUnmapping(r: Registry, p: PlayerId, id: LobbyId): Registry
    requires id in r.lobbies
  {
    if r.lobbies[id].IsEmpty() then
      r.(lobbies := r.lobbies - {id}, members := r.members - {id}, lobbyOf := r.lobbyOf - {p})
    else
      r.(members := r.members[id := MembersOf(r, id) - {p}], lobbyOf := r.lobbyOf - {p})
  }

  function AfterRemovePlayer(r: Registry, p: PlayerId, heir: PlayerId): (Registry, bool) {
    if p !in r.lobbyOf then (r, false)
    else
      var id := r.lobbyOf[p];
      if id !in r.lobbies || p !in r.lobbies[id].ready then (r.(lobbyOf := r.lobbyOf - {p}), false)
      else (AfterUnmapping(r.(lobbies := r.lobbies[id := r.lobbies[id].Without(p, heir)]), p, id), true)
  }

  // ---------------------------------------------------------------------------------------
  // Consistency
  // ---------------------------------------------------------------------------------------

  /** All three records are the one partial map `lobbyOf` from players to lobbies. */
  ghost predicate Agree(r: Registry) {
    && r.members.Keys <= r.lobbies.Keys
    && (forall id :: id in r.lobbies ==> AgreeOn(r, id))
    && (forall p :: p in r.lobbyOf ==> r.lobbyOf[p] in r.lobbies)
  }

  ghost predicate AgreeOn(r: Registry, id: LobbyId)
    requires id in r.lobbies
  {
    forall p :: (p in MembersOf(r, id) <==> p in r.lobbies[id].ready)
             && (p in r.lobbies[id].ready <==> p in r.lobbyOf && r.lobbyOf[p] == id)
  }

  /** Every lobby has a player, fits the capacity, is led by a member and is numbered. */
  ghost predicate Healthy(r: Registry) {
    forall id :: id in r.lobbies ==>
      id < r.nextId && r.lobbies[id].Healthy()
  }

  /** Adding a lobby keeps the records in agreement exactly when it is refused or empty. */
  lemma AddLobbyAgreesIff(r: Registry, id: LobbyId, lobby: LobbyValue)
    requires Agree(r)
    ensures Agree(AfterAddLobby(r, id, lobby).0) <==> id in r.lobbies || lobby.IsEmpty()
  {
    var s := AfterAddLobby(r, id, lobby).0;
    if id !in r.lobbies {
      assert MembersOf(s, id) == {};
      forall k | k in r.lobbies
        ensures AgreeOn(s, k)
      {
        assert AgreeOn(r, k);
      }
      assert AgreeOn(s, id) <==> lobby.IsEmpty();
    }
  }

  /** Removing a lobby removes its players from the map, and nothing else. */
  lemma RemoveLobbyRefines(r: Registry, id: LobbyId)
    requires Agree(r)
    ensures var (s, ok) := AfterRemoveLobby(r, id);
            && Agree(s) && ok == (id in r.lobbies) && s.lobbies == r.lobbies - {id} && s.nextId == r.nextId
            && s.lobbyOf == map p | p in r.lobbyOf && r.lobbyOf[p] != id :: r.lobbyOf[p]
  {
    hide Agree, AgreeOn, MembersOf;
    RemoveLobbyAgrees(r, id);
    MembersByMap(r, id);
    if id !in r.lobbies {
      assert r.lobbies - {id} == r.lobbies;
    }
  }

  lemma MembersByMap(r: Registry, id: LobbyId)
    requires Agree(r)
    ensures forall p :: p in r.lobbyOf && id in r.lobbies ==> (p in MembersOf(r, id) <==> r.lobbyOf[p] == id)
    ensures id !in r.lobbies ==> forall p :: p in r.lobbyOf ==> r.lobbyOf[p] != id
  {
    assert id in r.lobbies ==> AgreeOn(r, id);
  }

  lemma RemoveLobbyAgrees(r: Registry, id: LobbyId)
    requires Agree(r)
    ensures Agree(AfterRemoveLobby(r, id).0)
  {
    var s := AfterRemoveLobby(r, id).0;
    assert id in r.lobbies ==> AgreeOn(r, id);
    forall k | k in s.lobbies
      ensures AgreeOn(s, k)
    {
      assert AgreeOn(r, k);
    }
  }

  lemma InsertAgrees(r: Registry, p: PlayerId, id: LobbyId, lobby: LobbyValue, s: Registry)
    requires Agree(r) && id in r.lobbies && p !in r.lobbyOf
    requires lobby.ready.Keys == r.lobbies[id].ready.Keys + {p}
    requires s == r.(lobbies := r.lobbies[id := lobby], members := r.members[id := MembersOf(r, id) + {p}],
                     lobbyOf := r.lobbyOf[p := id])
    ensures Agree(s)
  {
    forall k | k in s.lobbies
      ensures AgreeOn(s, k)
    {
      assert AgreeOn(r, k);
    }
  }

  lemma AddPlayerEffect(r: Registry, p: PlayerId, id: LobbyId, heir: PlayerId)
    ensures !(p !in r.lobbyOf && id in r.lobbies && r.lobbies[id].Admits(p))
            ==> AfterAddPlayer(r, p, id, heir) == (r, false)
    ensures p !in r.lobbyOf && id in r.lobbies && r.lobbies[id].Admits(p) && p !in MembersOf(r, id) ==>
              AfterAddPlayer(r, p, id, heir)
              == (r.(lobbies := r.lobbies[id := r.lobbies[id].With(p)],
                     members := r.members[id := MembersOf(r, id) + {p}],
                     lobbyOf := r.lobbyOf[p := id]), true)
  {
  }

  /** When agreed, an add is an insertion into the map, or is refused and changes nothing. */
  lemma AddPlayerRefines(r: Registry, p: PlayerId, id: LobbyId, heir: PlayerId)
    requires Agree(r)
    ensures !RollsBack(r, p, id)
    ensures var (s, ok) := AfterAddPlayer(r, p, id, heir);
            && Agree(s)
            && ok == (p !in r.lobbyOf && id in r.lobbies && !r.lobbies[id].IsFull())
            && (if ok then s.lobbyOf == r.lobbyOf[p := id] && s.nextId == r.nextId
                           && s.lobbies == r.lobbies[id := r.lobbies[id].With(p)]
                else s == r)
  {
    AddPlayerEffect(r, p, id, heir);
    hide AfterAddPlayer, LobbyValue.IsFull;
    if id in r.lobbies && p !in r.lobbyOf {
      assert AgreeOn(r, id);
      assert p !in r.lobbies[id].ready && p !in MembersOf(r, id);
      hide Agree, AgreeOn, MembersOf;
      if r.lobbies[id].Admits(p) {
        InsertAgrees(r, p, id, r.lobbies[id].With(p), AfterAddPlayer(r, p, id, heir).0);
      }
    }
  }

  lemma EraseAgreesOn(r: Registry, p: PlayerId, s: Registry, k: LobbyId)
    requires k in r.lobbies && AgreeOn(r, k) && k in s.lobbies && s.lobbyOf == r.lobbyOf - {p}
    requires s.lobbies[k].ready.Keys == r.lobbies[k].ready.Keys - {p} && MembersOf(s, k) == MembersOf(r, k) - {p}
    ensures AgreeOn(s, k)
  {
    hide MembersOf;
  }

  lemma EraseAgrees(r: Registry, p: PlayerId, lobby: LobbyValue)
    requires Agree(r) && p in r.lobbyOf
    requires lobby.ready.Keys == r.lobbies[r.lobbyOf[p]].ready.Keys - {p}
    ensures var id := r.lobbyOf[p];
            Agree(AfterUnmapping(r.(lobbies := r.lobbies[id := lobby]), p, id))
  {
    hide AgreeOn;
    var id := r.lobbyOf[p];
    var s := AfterUnmapping(r.(lobbies := r.lobbies[id := lobby]), p, id);
    forall k | k in s.lobbies
      ensures AgreeOn(s, k)
    {
      if k != id {
        NotInOther(r, p, k);
      }
      EraseAgreesOn(r, p, s, k);
    }
    forall q | q in s.lobbyOf
      ensures s.lobbyOf[q] in s.lobbies
    {
      if r.lobbyOf[q] == id {
        InOwn(r, q);
        assert q in lobby.ready;
      }
    }
  }

  lemma InOwn(r: Registry, p: PlayerId)
    requires Agree(r) && p in r.lobbyOf
    ensures r.lobbyOf[p] in r.lobbies && p in r.lobbies[r.lobbyOf[p]].ready
  {
    hide MembersOf;
    assert AgreeOn(r, r.lobbyOf[p]);
  }

  lemma NotInOther(r: Registry, p: PlayerId, k: LobbyId)
    requires Agree(r) && p in r.lobbyOf && k in r.lobbies && k != r.lobbyOf[p]
    ensures r.lobbies[k].ready.Keys - {p} == r.lobbies[k].ready.Keys && MembersOf(r, k) - {p} == MembersOf(r, k)
  {
    hide MembersOf;
    assert AgreeOn(r, k);
  }

  lemma RemovePlayerEffect(r: Registry, p: PlayerId, heir: PlayerId)
    requires p in r.lobbyOf && r.lobbyOf[p] in r.lobbies && p in r.lobbies[r.lobbyOf[p]].ready
    ensures var (s, ok) := AfterRemovePlayer(r, p, heir);
            var left := r.lobbies[r.lobbyOf[p]].Without(p, heir);
            && ok && s == AfterUnmapping(r.(lobbies := r.lobbies[r.lobbyOf[p] := left]), p, r.lobbyOf[p])
            && s.lobbyOf == r.lobbyOf - {p} && s.nextId == r.nextId
            && s.lobbies == if left.IsEmpty() then r.lobbies - {r.lobbyOf[p]} else r.lobbies[r.lobbyOf[p] := left]
  {
    var id := r.lobbyOf[p];
    assert r.lobbies[id := r.lobbies[id].Without(p, heir)] - {id} == r.lobbies - {id};
  }

  /** The index by player is wrong about a player: the branches that only drop his entry. */
  predicate Recovers(r: Registry, p: PlayerId) {
    p in r.lobbyOf && (r.lobbyOf[p] !in r.lobbies || p !in r.lobbies[r.lobbyOf[p]].ready)
  }

  lemma AgreedNeverRecovers(r: Registry, p: PlayerId)
    requires Agree(r)
    ensures !Recovers(r, p)
  {
    if p in r.lobbyOf {
      InOwn(r, p);
    }
  }

  /**
   A roll-back restores the membership: the indexes, the flags of every lobby, and the leaders of all
   but a lobby that the returned player already led.
   */
  lemma RollBackRestores(r: Registry, p: PlayerId, id: LobbyId, heir: PlayerId)
    requires RollsBack(r, p, id)
    ensures var (s, ok) := AfterAddPlayer(r, p, id, heir);
            && !ok && s.lobbyOf == r.lobbyOf && s.members == r.members && s.nextId == r.nextId
            && s.lobbies - {id} == r.lobbies - {id} && id in s.lobbies
            && s.lobbies[id].ready == r.lobbies[id].ready
            && (r.lobbies[id].leader != p ==> s.lobbies[id].leader == r.lobbies[id].leader)
  {
    var (s, _) := AfterAddPlayer(r, p, id, heir);
    assert s.lobbies - {id} == r.lobbies - {id};
    assert r.lobbies[id].ready[p := false] - {p} == r.lobbies[id].ready;
  }

  /** A recovery drops the wrong entry of the index by player, and nothing else. */
  lemma RecoveryDropsEntry(r: Registry, p: PlayerId, heir: PlayerId)
    requires Recovers(r, p)
    ensures AfterRemovePlayer(r, p, heir) == (r.(lobbyOf := r.lobbyOf - {p}), false)
  {
  }

  /** When agreed, a removal is a deletion from the map, or is refused and changes nothing. */
  lemma RemovePlayerRefines(r: Registry, p: PlayerId, heir: PlayerId)
    requires Agree(r)
    ensures var (s, ok) := AfterRemovePlayer(r, p, heir);
            && Agree(s) && ok == (p in r.lobbyOf) && s.lobbyOf == r.lobbyOf - {p} && s.nextId == r.nextId
            && (!ok ==> s == r)
            && (ok ==> var id := r.lobbyOf[p];
                       var left := r.lobbies[id].Without(p, heir);
                       s.lobbies == if left.IsEmpty() then r.lobbies - {id} else r.lobbies[id := left])
  {
    if p in r.lobbyOf {
      var id := r.lobbyOf[p];
      assert AgreeOn(r, id);
      hide AfterUnmapping, AfterRemovePlayer;
      EraseAgrees(r, p, r.lobbies[id].Without(p, heir));
      RemovePlayerEffect(r, p, heir);
    } else {
      assert r.lobbyOf - {p} == r.lobbyOf;
    }
  }

  lemma AddPlayerHealthy(r: Registry, p: PlayerId, id: LobbyId, heir: PlayerId)
    requires Agree(r) && Healthy(r)
    ensures Healthy(AfterAddPlayer(r, p, id, heir).0)
  {
    hide AfterAddPlayer, Agree, LobbyValue.With, LobbyValue.Healthy, LobbyValue.IsFull;
    AddPlayerRefines(r, p, id, heir);
    if id in r.lobbies {
      WithStaysHealthy(r.lobbies[id], p);
    }
  }

  lemma RemovePlayerHealthy(r: Registry, p: PlayerId, heir: PlayerId)
    requires Agree(r) && Healthy(r)
    requires p in r.lobbyOf ==> r.lobbyOf[p] in r.lobbies && r.lobbies[r.lobbyOf[p]].CanInherit(p, heir)
    ensures Healthy(AfterRemovePlayer(r, p, heir).0)
  {
    RemovePlayerRefines(r, p, heir);
    if p in r.lobbyOf {
      WithoutStaysHealthy(r.lobbies[r.lobbyOf[p]], p, heir);
      OneEntryHealthy(r, AfterRemovePlayer(r, p, heir).0, r.lobbyOf[p], r.lobbies[r.lobbyOf[p]].Without(p, heir));
    }
  }

  lemma OneEntryHealthy(r: Registry, s: Registry, id: LobbyId, lobby: LobbyValue)
    requires Healthy(r) && id in r.lobbies && s.nextId == r.nextId
    requires s.lobbies == if lobby.IsEmpty() then r.lobbies - {id} else r.lobbies[id := lobby]
    requires lobby.IsEmpty() || lobby.Healthy()
    ensures Healthy(s)
  {
    hide LobbyValue.Healthy, LobbyValue.IsEmpty;
  }

  // ---------------------------------------------------------------------------------------
  // The class
  // ---------------------------------------------------------------------------------------

  class Lobbies {
    var lobbies: map<LobbyId, LobbyObject>
    var playerToLobby: map<PlayerId, LobbyId>
    var lobbyPlayers: map<LobbyId, set<PlayerId>>
    var nextId: LobbyId

    /** Each lobby is registered under its own number, so no two entries share an object. */
    ghost predicate Valid()
      reads this
    {
      forall id :: id in lobbies ==> lobbies[id].id == id
    }

    ghost function LobbyValues(): (m: map<LobbyId, LobbyValue>)
      reads `lobbies, lobbies.Values
      ensures m.Keys == lobbies.Keys
    {
      map id | id in lobbies :: lobbies[id].Value()
    }

    ghost function Value(): Registry
      reads this, lobbies.Values
    {
      Registry(LobbyValues(), playerToLobby, lobbyPlayers, nextId)
    }

    lemma ValueAt(id: LobbyId)
      ensures id in lobbies ==> LobbyValues()[id] == lobbies[id].Value()
    {
    }

    /** A call on one registered lobby changes that entry of the value only. */
    twostate lemma OneLobbyChanged(id: LobbyId)
      requires old(Valid()) && lobbies == old(lobbies) && id in lobbies
      requires forall k :: k in lobbies && k != id ==> unchanged(lobbies[k])
      ensures id in old(LobbyValues()) && old(LobbyValues())[id] == old(lobbies[id].Value())
      ensures LobbyValues() == old(LobbyValues())[id := lobbies[id].Value()]
    {
    }

    twostate lemma OneLobbyErased(id: LobbyId)
      requires lobbies == old(lobbies) - {id} && forall k :: k in lobbies ==> unchanged(lobbies[k])
      ensures LobbyValues() == old(LobbyValues()) - {id}
    {
    }

    constructor ()
      ensures Valid() && Value() == EMPTY && lobbies == map[]
      ensures playerToLobby == map[] && lobbyPlayers == map[] && nextId == 1
    {
      lobbies, playerToLobby, lobbyPlayers, nextId := map[], map[], map[], 1;
    }

    /** A null lobby is refused, like one whose number is taken. */
    method AddLobby(lobby: LobbyObject?) returns (ok: bool)
      requires Valid()
      modifies this
      ensures Valid()
      ensures (Value(), ok) == if lobby == null then (old(Value()), false)
                               else AfterAddLobby(old(Value()), lobby.id, old(lobby.Value()))
      ensures lobbies == if ok then old(lobbies)[lobby.id := lobby] else old(lobbies)
    {
      if lobby == null {
        return false;
      }
      if lobby.id in lobbies {
        return false;
      }
      lobbies := lobbies[lobby.id := lobby];
      assert LobbyValues() == old(LobbyValues())[lobby.id := lobby.Value()];
      return true;
    }

    method RemoveLobby(id: LobbyId) returns (ok: bool)
      requires Valid()
      modifies this
      ensures Valid() && lobbies.Values <= old(lobbies.Values)
      ensures (Value(), ok) == AfterRemoveLobby(old(Value()), id)
    {
      hide Lobbies.LobbyValues;
      if id !in lobbies {
        return false;
      }
      if id in lobbyPlayers {
        playerToLobby := playerToLobby - lobbyPlayers[id];
        lobbyPlayers := lobbyPlayers - {id};
      } else {
        assert playerToLobby - {} == playerToLobby && lobbyPlayers - {id} == lobbyPlayers;
      }
      lobbies := lobbies - {id};
      OneLobbyErased(id);
      return true;
    }

    method AddPlayerToLobby(p: PlayerId, id: LobbyId) returns (ok: bool, ghost heir: PlayerId)
      requires Valid()
      modifies this, lobbies.Values
      ensures Valid() && lobbies == old(lobbies)
      ensures (Value(), ok) == AfterAddPlayer(old(Value()), p, id, heir)
    {
      heir := p;
      if p in playerToLobby {
        return false, p;
      }
      if id !in lobbies {
        return false, p;
      }
      var lobby := lobbies[id];
      var added := lobby.AddPlayer(p);
      OneLobbyChanged(id);
      if !added {
        assert LobbyValues() == old(LobbyValues());
        return false, p;
      }
      ok, heir := MapPlayer(p, id);
    }

    /** Inserts both index entries; if one was there already, takes everything back. */
    method MapPlayer(p: PlayerId, id: LobbyId) returns (ok: bool, ghost heir: PlayerId)
      requires Valid() && id in lobbies
      modifies this, lobbies[id]
      ensures Valid() && lobbies == old(lobbies)
      ensures (Value(), ok) == AfterMapping(old(Value()), p, id, heir)
    {
      heir := p;
      var playerSet := if id in lobbyPlayers then lobbyPlayers[id] else {};
      var setInserted, mapInserted := p !in playerSet, p !in playerToLobby;
      lobbyPlayers := lobbyPlayers[id := playerSet + {p}];
      playerToLobby := if mapInserted then playerToLobby[p := id] else playerToLobby;
      if !setInserted || !mapInserted {
        if setInserted {
          lobbyPlayers := lobbyPlayers[id := playerSet];
        }
        if mapInserted {
          playerToLobby := playerToLobby - {p};
        }
        assert setInserted || playerSet + {p} == playerSet;
        assert lobbyPlayers == old(lobbyPlayers)[id := playerSet] && playerToLobby == old(playerToLobby);
        var undone;
        undone, heir := lobbies[id].RemovePlayer(p);
        OneLobbyChanged(id);
        return false, heir;
      }
      return true, p;
    }

    method RemovePlayerFromLobby(p: PlayerId) returns (ok: bool, ghost heir: PlayerId)
      requires Valid()
      modifies this, lobbies.Values
      ensures Valid() && lobbies.Values <= old(lobbies.Values)
      ensures (Value(), ok) == AfterRemovePlayer(old(Value()), p, heir)
      ensures ok ==> old(Value()).lobbies[old(Value()).lobbyOf[p]].CanInherit(p, heir)
    {
      heir := p;
      if p !in playerToLobby {
        return false, p;
      }
      var id := playerToLobby[p];
      if id !in lobbies {
        playerToLobby := playerToLobby - {p};
        return false, p;
      }
      var lobby := lobbies[id];
      var removed;
      removed, heir := lobby.RemovePlayer(p);
      OneLobbyChanged(id);
      if !removed {
        assert LobbyValues() == old(LobbyValues());
        playerToLobby := playerToLobby - {p};
        return false, heir;
      }
      UnmapPlayer(p, id);
      return true, heir;
    }

    /** Erases both index entries, and the lobby if it is empty. */
    method UnmapPlayer(p: PlayerId, id: LobbyId)
      requires Valid() && id in lobbies
      modifies this
      ensures Valid() && lobbies.Values <= old(lobbies.Values)
      ensures Value() == AfterUnmapping(old(Value()), p, id)
    {
      hide Lobbies.LobbyValues;
      ValueAt(id);
      var playerSet := if id in lobbyPlayers then lobbyPlayers[id] else {};
      lobbyPlayers := lobbyPlayers[id := playerSet - {p}];
      playerToLobby := playerToLobby - {p};
      if lobbies[id].players == map[] {
        lobbies := lobbies - {id};
        OneLobbyErased(id);
        lobbyPlayers := lobbyPlayers - {id};
        assert lobbyPlayers == old(lobbyPlayers) - {id};
      }
    }

    method GenerateNextLobbyId() returns (id: LobbyId)
      modifies this`nextId
      ensures id == old(nextId) && nextId == id + 1
    {
      id := nextId;
      nextId := nextId + 1;
    }
  }
}
