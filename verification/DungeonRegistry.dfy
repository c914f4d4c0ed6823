/**
 The registry of running games: which dungeons there are, which one each player is in, and who is
 in each. `Index` is the value of its three maps.
 */
module DungeonRegistry {
  import opened Wrappers
  import opened GameMap
  import opened Dungeons

  type GameId = nat

  datatype Index = Index(dungeons: set<GameId>, gameOf: map<PlayerId, GameId>,
                         rosters: map<GameId, seq<PlayerId>>, nextId: GameId)

  const NO_GAMES := Index({}, map[], map[], 1)

  predicate Distinct(players: seq<PlayerId>) {
    forall i, j :: 0 <= i < j < |players| ==> players[i] != players[j]
  }

  function SetOf(players: seq<PlayerId>): set<PlayerId> {
    set p | p in players
  }

  predicate Enters(ix: Index, players: seq<PlayerId>) {
    players != [] && Distinct(players) && forall p :: p in players ==> p !in ix.gameOf
  }

  function AllIn(players: seq<PlayerId>, g: GameId): map<PlayerId, GameId> {
    map p | p in players :: g
  }

  function AfterAdd(ix: Index, players: seq<PlayerId>): (Index, bool) {
    if !Enters(ix, players) then (ix, false)
    else
      var id, numbered := ix.nextId, ix.(nextId := ix.nextId + 1);
      if id in ix.dungeons then (numbered, false)
      else
        (numbered.(dungeons := ix.dungeons + {id}, gameOf := ix.gameOf + AllIn(players, id),
                   rosters := if id in ix.rosters then ix.rosters else ix.rosters[id := players]), true)
  }

  function RosterOf(ix: Index, id: GameId): set<PlayerId> {
    if id in ix.rosters then SetOf(ix.rosters[id]) else {}
  }

  function AfterRemove(ix: Index, id: GameId): (Index, bool) {
    if id !in ix.dungeons then (ix, false)
    else
      (ix.(dungeons := ix.dungeons - {id}, gameOf := ix.gameOf - RosterOf(ix, id), rosters := ix.rosters - {id}), true)
  }

  // ---------------------------------------------------------------------------------------
  // Consistency
  // ---------------------------------------------------------------------------------------

  /** The three maps tell one story, and every dungeon has a roster of distinct players. */
  ghost predicate Consistent(ix: Index) {
    && ix.rosters.Keys == ix.dungeons
    && (forall g :: g in ix.dungeons ==> g < ix.nextId && RosterFits(ix, g))
    && (forall p :: p in ix.gameOf ==> ix.gameOf[p] in ix.dungeons)
  }

  ghost predicate RosterFits(ix: Index, g: GameId)
    requires g in ix.rosters
  {
    && ix.rosters[g] != [] && Distinct(ix.rosters[g])
    && forall p :: p in ix.rosters[g] <==> p in ix.gameOf && ix.gameOf[p] == g
  }

  /** A new game takes exactly players who are in none, and gives all of them its number. */
  lemma AddRefines(ix: Index, players: seq<PlayerId>)
    requires Consistent(ix)
    ensures var (after, ok) := AfterAdd(ix, players);
            && Consistent(after) && ok == Enters(ix, players)
            && (if !ok then after == ix
                else ix.nextId !in ix.dungeons && after.dungeons == ix.dungeons + {ix.nextId}
                     && after.gameOf == ix.gameOf + AllIn(players, ix.nextId)
                     && after.rosters == ix.rosters[ix.nextId := players])
  {
    assert ix.nextId in ix.dungeons ==> ix.nextId < ix.nextId;
    var (after, ok) := AfterAdd(ix, players);
    if ok {
      forall g | g in after.dungeons
        ensures RosterFits(after, g)
      {
        assert g in ix.dungeons ==> RosterFits(ix, g);
      }
    }
  }

  /** Ending a game releases exactly its players. */
  lemma RemoveRefines(ix: Index, id: GameId)
    requires Consistent(ix)
    ensures var (after, ok) := AfterRemove(ix, id);
            && Consistent(after) && ok == (id in ix.dungeons)
            && after.dungeons == ix.dungeons - {id} && after.rosters == ix.rosters - {id}
            && after.gameOf == map p | p in ix.gameOf && ix.gameOf[p] != id :: ix.gameOf[p]
  {
    RemoveConsistent(ix, id);
    if id in ix.dungeons {
      assert RosterFits(ix, id);
    }
  }

  lemma RemoveConsistent(ix: Index, id: GameId)
    requires Consistent(ix)
    ensures Consistent(AfterRemove(ix, id).0)
  {
    var after := AfterRemove(ix, id).0;
    if id in ix.dungeons {
      assert RosterFits(ix, id);
      forall g | g in after.dungeons
        ensures RosterFits(after, g)
      {
        assert RosterFits(ix, g);
      }
    }
  }

  // ---------------------------------------------------------------------------------------
  // The class
  // ---------------------------------------------------------------------------------------

  class Games {
    var dungeons: map<GameId, Dungeon>
    var playerToDungeon: map<PlayerId, GameId>
    var dungeonToPlayers: map<GameId, seq<PlayerId>>
    var nextGameId: GameId

    ghost function Value(): Index
      reads this
    {
      Index(dungeons.Keys, playerToDungeon, dungeonToPlayers, nextGameId)
    }

    constructor ()
      ensures Value() == NO_GAMES && dungeons == map[]
      ensures playerToDungeon == map[] && dungeonToPlayers == map[] && nextGameId == 1
    {
      dungeons, playerToDungeon, dungeonToPlayers, nextGameId := map[], map[], map[], 1;
    }

    method AddDungeon(area: Area, playerIds: seq<PlayerId>, draws: nat -> Draws) returns (ok: bool)
      modifies this
      ensures (Value(), ok) == AfterAdd(old(Value()), playerIds)
      ensures !ok ==> dungeons == old(dungeons)
      ensures ok ==> old(nextGameId) !in old(dungeons) && old(nextGameId) in dungeons
      ensures ok ==> dungeons == old(dungeons)[old(nextGameId) := dungeons[old(nextGameId)]]
      ensures ok ==> fresh(dungeons[old(nextGameId)].Repr()) && dungeons[old(nextGameId)].Valid()
      ensures ok ==> dungeons[old(nextGameId)].Now() == Moment(Populated(area, playerIds, draws), [])
    {
      hide Enters, AllIn, Populated, Dungeon.Valid, Dungeon.Repr, Dungeon.Value;
      var enters := MayEnter(playerIds);
      if !enters {
        return false;
      }
      var dungeon := new Dungeon(area, playerIds, draws);
      var id := nextGameId;
      nextGameId := nextGameId + 1;
      if id in dungeons {
        return false;
      }
      dungeons := dungeons[id := dungeon];
      assert dungeons.Keys == old(dungeons.Keys) + {id};
      Register(playerIds, id);
      return true;
    }

    /** The three checks before a game is created. */
    method MayEnter(playerIds: seq<PlayerId>) returns (ok: bool)
      ensures ok == Enters(Value(), playerIds)
      ensures ok ==> forall p :: p in playerIds ==> p !in playerToDungeon
    {
      if playerIds == [] {
        return false;
      }
      DistinctIff(playerIds);
      if |SetOf(playerIds)| != |playerIds| {
        return false;
      }
      for i := 0 to |playerIds|
        invariant forall j :: 0 <= j < i ==> playerIds[j] !in playerToDungeon
      {
        if playerIds[i] in playerToDungeon {
          return false;
        }
      }
      return true;
    }

    /** Emplaces the players' entries and the roster. */
    method Register(playerIds: seq<PlayerId>, id: GameId)
      requires forall p :: p in playerIds ==> p !in playerToDungeon
      modifies this`playerToDungeon, this`dungeonToPlayers
      ensures playerToDungeon == old(playerToDungeon) + AllIn(playerIds, id)
      ensures dungeonToPlayers == if id in old(dungeonToPlayers) then old(dungeonToPlayers)
                                  else old(dungeonToPlayers)[id := playerIds]
    {
      for i := 0 to |playerIds|
        invariant dungeonToPlayers == old(dungeonToPlayers)
        invariant playerToDungeon == old(playerToDungeon) + AllIn(playerIds[..i], id)
      {
        assert playerIds[..i + 1] == playerIds[..i] + [playerIds[i]];
        if playerIds[i] !in playerToDungeon {
          playerToDungeon := playerToDungeon[playerIds[i] := id];
        }
      }
      assert playerIds[..|playerIds|] == playerIds;
      if id !in dungeonToPlayers {
        dungeonToPlayers := dungeonToPlayers[id := playerIds];
      }
    }

    method RemoveDungeon(id: GameId) returns (ok: bool)
      modifies this
      ensures (Value(), ok) == AfterRemove(old(Value()), id)
      ensures dungeons == old(dungeons) - {id}
    {
      if id !in dungeons {
        assert dungeons - {id} == dungeons;
        return false;
      }
      if id in dungeonToPlayers {
        var players := dungeonToPlayers[id];
        for i := 0 to |players|
          invariant dungeons == old(dungeons) && nextGameId == old(nextGameId)
          invariant dungeonToPlayers == old(dungeonToPlayers)
          invariant playerToDungeon == old(playerToDungeon) - SetOf(players[..i])
        {
          assert players[..i + 1] == players[..i] + [players[i]];
          playerToDungeon := playerToDungeon - {players[i]};
        }
        assert players[..|players|] == players;
        dungeonToPlayers := dungeonToPlayers - {id};
      } else {
        assert playerToDungeon - {} == playerToDungeon && dungeonToPlayers - {id} == dungeonToPlayers;
      }
      dungeons := dungeons - {id};
      return true;
    }
  }

  lemma DistinctSnoc(front: seq<PlayerId>, last: PlayerId)
    ensures Distinct(front + [last]) <==> Distinct(front) && last !in front
  {
    var players := front + [last];
    assert forall i :: 0 <= i < |front| ==> players[i] == front[i];
    if last in front {
      var i :| 0 <= i < |front| && front[i] == last;
      assert players[i] == players[|front|];
    }
  }

  lemma SetOfSnoc(front: seq<PlayerId>, last: PlayerId)
    ensures SetOf(front + [last]) == SetOf(front) + {last}
    ensures last in SetOf(front) <==> last in front
  {
  }

  /** Comparing the sizes is a duplicate check. */
  lemma {:induction false} DistinctIff(players: seq<PlayerId>)
    ensures Distinct(players) <==> |SetOf(players)| == |players|
    ensures |SetOf(players)| <= |players|
    decreases |players|
  {
    hide Distinct;
    if players == [] {
      DistinctNone();
    } else {
      var last, front := players[|players| - 1], players[..|players| - 1];
      assert players == front + [last];
      DistinctIff(front);
      DistinctSnoc(front, last);
      assert SetOf(players) == SetOf(front) + {last};
      assert last in front ==> SetOf(players) == SetOf(front);
    }
  }

  lemma DistinctNone()
    ensures Distinct([])
  {
  }
}
