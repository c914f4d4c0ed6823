/** One lobby: its players with their ready flags, and its leader. */
module Lobby {
  import opened Wrappers

  type LobbyId = nat

  /** The setting `lobby_max_players`, any 16-bit value. */
  type Capacity = n: nat | n < 0x1_0000
  const LOBBY_MAX_PLAYERS: Capacity

  datatype LobbyValue = LobbyValue(ready: map<PlayerId, bool>, leader: PlayerId) {
    predicate IsFull() { |ready| == LOBBY_MAX_PLAYERS }

    predicate IsEmpty() { ready == map[] }

    predicate Admits(p: PlayerId) { p !in ready && !IsFull() }

    function With(p: PlayerId): LobbyValue {
      if Admits(p) then this.(ready := ready[p := false]) else this
    }

    /** `heir` is the player that the hash map happens to list first. */
    function Without(p: PlayerId, heir: PlayerId): LobbyValue {
      if p !in ready then this
      else
        var rest := ready - {p};
        LobbyValue(rest, if leader == p && rest != map[] then heir else leader)
    }

    /** An heir is a remaining player, if any player remains. */
    predicate CanInherit(p: PlayerId, heir: PlayerId) {
      p in ready && ready - {p} != map[] ==> heir in ready && heir != p
    }

    /** Somebody is there, the capacity holds, and a member leads. */
    predicate Healthy() {
      0 < |ready| <= LOBBY_MAX_PLAYERS && leader in ready
    }
  }

  lemma WithStaysHealthy(l: LobbyValue, p: PlayerId)
    requires l.Healthy() || (l.IsEmpty() && l.leader == p && 0 < LOBBY_MAX_PLAYERS)
    ensures l.With(p).Healthy()
  {
    assert l.IsEmpty() ==> |l.ready| == 0;
  }

  lemma WithoutStaysHealthy(l: LobbyValue, p: PlayerId, heir: PlayerId)
    requires l.Healthy() && l.CanInherit(p, heir)
    ensures l.Without(p, heir).IsEmpty() || l.Without(p, heir).Healthy()
  {
    var rest := l.ready - {p};
    if p in l.ready {
      assert l.ready.Keys == rest.Keys + {p};
      assert rest != map[] ==> |rest| > 0;
    }
  }

  class LobbyObject {
    const id: LobbyId
    var players: map<PlayerId, bool>
    var leader: PlayerId

    ghost function Value(): LobbyValue
      reads this
    {
      LobbyValue(players, leader)
    }

    /** The founder leads, but is not added. */
    constructor (lid: LobbyId, pid: PlayerId)
      ensures id == lid && Value() == LobbyValue(map[], pid)
    {
      id, players, leader := lid, map[], pid;
    }

    method AddPlayer(p: PlayerId) returns (ok: bool)
      modifies this
      ensures ok == old(Value()).Admits(p) && Value() == old(Value()).With(p)
      ensures ok <==> p !in old(players) && |old(players)| != LOBBY_MAX_PLAYERS
      ensures players == (if ok then old(players)[p := false] else old(players)) && leader == old(leader)
    {
      if p in players {
        return false;
      }
      if |players| == LOBBY_MAX_PLAYERS {
        return false;
      }
      players := players[p := false];
      return true;
    }

    method RemovePlayer(p: PlayerId) returns (ok: bool, ghost heir: PlayerId)
      modifies this
      ensures ok == (p in old(players)) && Value() == old(Value()).Without(p, heir)
      ensures old(Value()).CanInherit(p, heir)
      ensures players == old(players) - {p}
      ensures if ok && old(leader) == p && players != map[] then leader in players else leader == old(leader)
    {
      heir := p;
      if p !in players {
        assert players - {p} == players;
        return false, p;
      }
      players := players - {p};
      if players != map[] {
        heir :| heir in players;
      }
      if leader == p && players != map[] {
        heir := AssignNewLeader();
      }
      return true, heir;
    }

    /** The first player in the map's own order, which is any order; nothing for an empty lobby. */
    method AssignNewLeader() returns (ghost heir: PlayerId)
      modifies this`leader
      ensures leader == heir
      ensures if players == map[] then leader == old(leader) else leader in players
    {
      if players == map[] {
        return leader;
      }
      var first :| first in players;
      leader := first;
      heir := first;
    }

    method SetReady(p: PlayerId, isReady: bool) returns (ok: bool)
      modifies this`players
      ensures ok == (p in old(players))
      ensures players == if ok then old(players)[p := isReady] else old(players)
    {
      if p !in players {
        return false;
      }
      players := players[p := isReady];
      return true;
    }

    method CheckAllReady() returns (all: bool)
      ensures all <==> forall p :: p in players ==> players[p]
    {
      var rest := players.Keys;
      while rest != {}
        invariant rest <= players.Keys
        invariant forall p :: p in players && p !in rest ==> players[p]
      {
        var p :| p in rest;
        if !players[p] {
          return false;
        }
        rest := rest - {p};
      }
      return true;
    }

    /** The players in any order, each once. */
    method GetAllPlayers() returns (ids: seq<PlayerId>)
      ensures Listing(ids, players.Keys)
    {
      ids := [];
      var rest := players.Keys;
      while rest != {}
        invariant rest <= players.Keys && Listing(ids, players.Keys - rest)
      {
        var p :| p in rest;
        ids := ids + [p];
        rest := rest - {p};
      }
      assert players.Keys - rest == players.Keys;
    }
  }
}
