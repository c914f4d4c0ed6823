/**
 The running games as values: what a round of ticks does and posts, that each dungeon stems from the
 roster that the registry keeps for it, and who is told of the end.
 */
module GameRuns {
  import opened Wrappers
  import opened Positions
  import opened GameMap
  import opened Entities
  import opened Worlds
  import opened Turns
  import opened Snapshots
  import opened Dungeons
  import opened DungeonRegistry

  datatype Posted = GameOverFor(p: PlayerId) | StateUpdate(game: GameId, state: DungeonSnapshot)

  // ---------------------------------------------------------------------------------------
  // Starting, ticking and ending games
  // ---------------------------------------------------------------------------------------

  /** The dungeons that were there are as they were, and every other one is new and in the state `w`. */
  ghost predicate GrownBy(now: map<GameId, Moment>, was: map<GameId, Moment>, w: World) {
    && (forall g :: g in was ==> g in now && now[g] == was[g])
    && (forall g :: g in now && g !in was ==> now[g] == Moment(w, []))
  }

  function GameOvers(ids: seq<PlayerId>): seq<Posted> {
    seq(|ids|, i requires 0 <= i < |ids| => GameOverFor(ids[i]))
  }

  /** What one dungeon posts: a game-over event for each of its players, or the new state. */
  ghost predicate PostedFor(g: GameId, w: World, posted: seq<Posted>) {
    if GameOver(w) then exists ids :: Listing(ids, w.players.Keys) && posted == GameOvers(ids)
    else exists s :: posted == [StateUpdate(g, s)] && Shows(s, w)
  }

  /** The dungeons in `order` were ticked once, and posted one batch each. */
  ghost predicate Round(was: map<GameId, Moment>, now: map<GameId, Moment>, dice: GameId -> Dice,
                        order: seq<GameId>, batches: seq<seq<Posted>>)
  {
    |batches| == |order|
    && forall i :: 0 <= i < |order| ==>
         && order[i] in was && order[i] in now
         && Ticked(was[order[i]], dice(order[i]), now[order[i]])
         && PostedFor(order[i], now[order[i]].world, batches[i])
  }

  /** The dice of every dungeon fit its monsters. */
  ghost predicate AllFit(was: map<GameId, Moment>, dice: GameId -> Dice) {
    forall g :: g in was ==> Fits(dice(g), was[g].world.monsters.Keys)
  }

  /** `ended` are those in `order` whose game is over. */
  ghost predicate AreOver(now: map<GameId, Moment>, order: seq<GameId>, ended: seq<GameId>) {
    && (forall g :: g in order ==> g in now)
    && forall g :: g in ended <==> g in order && GameOver(now[g].world)
  }

  ghost predicate Unticked(was: map<GameId, Moment>, now: map<GameId, Moment>, rest: set<GameId>) {
    forall g :: g in rest ==> g in was && g in now && now[g] == was[g]
  }

  lemma StillFits(was: map<GameId, Moment>, now: map<GameId, Moment>, dice: GameId -> Dice, rest: set<GameId>,
                  g: GameId)
    requires AllFit(was, dice) && Unticked(was, now, rest) && g in rest
    ensures g in was && g in now && now[g] == was[g] && Fits(dice(g), now[g].world.monsters.Keys)
  {
    hide Fits;
  }

  lemma RestGoesOn(now: map<GameId, Moment>, order: seq<GameId>, ended: seq<GameId>)
    requires Listing(order, now.Keys) && AreOver(now, order, ended)
    ensures forall g :: g in now && g !in ended ==> !GameOver(now[g].world)
  {
    hide GameOver;
  }

  lemma RoundStarts(was: map<GameId, Moment>, dice: GameId -> Dice, games: set<GameId>)
    requires was.Keys == games
    ensures Listing([], games - games) && Flatten<Posted>([]) == []
    ensures Unticked(was, was, games) && Round(was, was, dice, [], []) && AreOver(was, [], [])
  {
  }

  lemma RoundGoesOn(was: map<GameId, Moment>, now: map<GameId, Moment>, next: map<GameId, Moment>,
                    dice: GameId -> Dice, games: set<GameId>, rest: set<GameId>, order: seq<GameId>,
                    batches: seq<seq<Posted>>, ended: seq<GameId>,
                    g: GameId, news: seq<Posted>, over: bool)
    requires g in rest && rest <= games && Listing(order, games - rest)
    requires Unticked(was, now, rest) && Round(was, now, dice, order, batches) && AreOver(now, order, ended)
    requires g in next && next == now[g := next[g]] && Ticked(was[g], dice(g), next[g])
    requires PostedFor(g, next[g].world, news)
    requires over == GameOver(next[g].world)
    ensures Listing(order + [g], games - (rest - {g})) && Flatten(batches + [news]) == Flatten(batches) + news
    ensures Unticked(was, next, rest - {g}) && Round(was, next, dice, order + [g], batches + [news])
    ensures AreOver(next, order + [g], if over then ended + [g] else ended)
  {
    hide Ticked, PostedFor, GameOver, Flatten;
    FlattenSnoc(batches, news);
    assert g !in order;
  }

  /** Ending games releases exactly their players and keeps the maps in agreement. */
  lemma {:induction false} AllEndRefines(ix: Index, ended: seq<GameId>)
    requires Consistent(ix)
    ensures var after := AfterAllEnd(ix, ended);
            && Consistent(after) && after.dungeons == ix.dungeons - (set g | g in ended)
            && after.rosters == ix.rosters - (set g | g in ended)
            && after.gameOf == map p | p in ix.gameOf && ix.gameOf[p] !in ended :: ix.gameOf[p]
    decreases |ended|
  {
    hide Consistent, AfterRemove;
    if ended != [] {
      var front, last := ended[..|ended| - 1], ended[|ended| - 1];
      assert ended == front + [last];
      AllEndRefines(ix, front);
      assert (set g | g in ended) == (set g | g in front) + {last};
      RemoveRefines(AfterAllEnd(ix, front), last);
    }
  }

  /** The games end one after the other. */
  function AfterAllEnd(ix: Index, ended: seq<GameId>): Index {
    if ended == [] then ix
    else AfterRemove(AfterAllEnd(ix, ended[..|ended| - 1]), ended[|ended| - 1]).0
  }

  // ---------------------------------------------------------------------------------------
  // Every dungeon stems from its roster
  // ---------------------------------------------------------------------------------------

  /** The world of a dungeon populated with the roster, after some ticks. */
  ghost predicate Stems(roster: seq<PlayerId>, w: World) {
    exists draws: nat -> Draws, n: nat :: AfterTicks(Populated(w.area, roster, draws), n, w)
  }

  ghost predicate Descended(now: map<GameId, Moment>, rosters: map<GameId, seq<PlayerId>>) {
    forall g :: g in now ==> g in rosters && Stems(rosters[g], now[g].world)
  }

  lemma NewGameStems(area: Area, roster: seq<PlayerId>, draws: nat -> Draws)
    ensures Stems(roster, Populated(area, roster, draws))
  {
    hide Populated;
    PopulatedOn(area, roster, draws);
    assert AfterTicks(Populated(area, roster, draws), 0, Populated(area, roster, draws));
  }

  lemma StemsOn(roster: seq<PlayerId>, w: World, commands: seq<Command>, dice: Dice, v: World)
    requires Stems(roster, w) && Ticks(w, commands, dice, v)
    ensures Stems(roster, v)
  {
    hide Populated, Ticks;
    var draws: nat -> Draws, n: nat :| AfterTicks(Populated(w.area, roster, draws), n, w);
    TicksIsLater(w, commands, dice, v);
    assert AfterTicks(Populated(v.area, roster, draws), n + 1, v);
  }

  /** Starting a game keeps every dungeon on its roster. */
  lemma StartDescends(ix: Index, roster: seq<PlayerId>, was: map<GameId, Moment>, now: map<GameId, Moment>,
                      area: Area, draws: nat -> Draws)
    requires Consistent(ix) && was.Keys == ix.dungeons && Descended(was, ix.rosters)
    requires GrownBy(now, was, Populated(area, roster, draws)) && now.Keys == AfterAdd(ix, roster).0.dungeons
    ensures Consistent(AfterAdd(ix, roster).0) && Descended(now, AfterAdd(ix, roster).0.rosters)
  {
    hide AfterAdd, Consistent, Populated, Stems;
    AddRefines(ix, roster);
    NewGameStems(area, roster, draws);
  }

  /** So does a round of ticks. */
  lemma RoundDescends(was: map<GameId, Moment>, now: map<GameId, Moment>, dice: GameId -> Dice,
                      order: seq<GameId>, batches: seq<seq<Posted>>, rosters: map<GameId, seq<PlayerId>>)
    requires Descended(was, rosters) && Round(was, now, dice, order, batches) && Listing(order, now.Keys)
    ensures Descended(now, rosters)
  {
    hide Ticks, Stems, PostedFor;
    forall g | g in now
      ensures g in rosters && Stems(rosters[g], now[g].world)
    {
      var i :| 0 <= i < |order| && order[i] == g;
      StemsOn(rosters[g], was[g].world, was[g].commands, dice(g), now[g].world);
    }
  }

  /** And so does the end of games. */
  lemma EndDescends(ix: Index, ended: seq<GameId>, was: map<GameId, Moment>, now: map<GameId, Moment>)
    requires Consistent(ix) && Descended(was, ix.rosters)
    requires forall g :: g in now ==> g in was && g !in ended && now[g] == was[g]
    ensures Consistent(AfterAllEnd(ix, ended)) && Descended(now, AfterAllEnd(ix, ended).rosters)
  {
    hide Consistent, AfterAllEnd, Stems;
    AllEndRefines(ix, ended);
  }

  /** Whoever stands in a dungeon is in the roster of its game; so nobody plays in two dungeons. */
  lemma NobodyPlaysTwice(ix: Index, now: map<GameId, Moment>, g: GameId, h: GameId, p: PlayerId)
    requires Consistent(ix) && now.Keys == ix.dungeons && Descended(now, ix.rosters)
    requires g in now && p in now[g].world.players
    ensures p in ix.rosters[g] && p in ix.gameOf && ix.gameOf[p] == g
    ensures h in now && p in now[h].world.players ==> h == g
  {
    hide Stems;
    PlayersAreRostered(ix.rosters[g], now[g].world, p);
    assert RosterFits(ix, g);
    if h in now && p in now[h].world.players {
      PlayersAreRostered(ix.rosters[h], now[h].world, p);
      assert RosterFits(ix, h);
    }
  }

  lemma PlayersAreRostered(roster: seq<PlayerId>, w: World, p: PlayerId)
    requires Stems(roster, w) && p in w.players
    ensures p in roster
  {
    hide Populated, AfterTicks;
    var draws: nat -> Draws, n: nat :| AfterTicks(Populated(w.area, roster, draws), n, w);
    AfterTicksIsLater(Populated(w.area, roster, draws), n, w);
    PlacedPlayers(w.area, roster, draws, p);
  }

  // ---------------------------------------------------------------------------------------
  // Who is told of the end
  // ---------------------------------------------------------------------------------------

  /** Nobody but a dungeon's players is told, and each of them is. */
  lemma ToldArePlayers(g: GameId, w: World, posted: seq<Posted>, p: PlayerId)
    requires GameOver(w) && PostedFor(g, w, posted)
    ensures GameOverFor(p) in posted <==> p in w.players
  {
    hide GameOver, Shows;
    var ids :| Listing(ids, w.players.Keys) && posted == GameOvers(ids);
    if p in w.players {
      var i :| 0 <= i < |ids| && ids[i] == p;
      assert posted[i] == GameOverFor(p);
    }
  }

  /** The players of a new dungeon are those whose turn came while one of their draws was available. */
  lemma PlacedPlayers(area: Area, roster: seq<PlayerId>, draws: nat -> Draws, p: PlayerId)
    ensures p in Populated(area, roster, draws).players <==>
              exists i: nat :: i < |roster| && GetsPlace(EmptyWorld(area), roster, i, draws) && roster[i] == p
  {
    hide GetsPlace, AfterPlayers, AfterMonsters;
    var start, n := EmptyWorld(area), |roster|;
    PlayersAreInvited(start, roster, n, draws, p);
    MonstersAreNumbered(AfterPlayers(start, roster, n, draws), n * MONSTERS_PER_PLAYER, n, draws);
  }

  /**
   Who entered a game is told of its end exactly if a free cell was drawn for him: a dungeon forgets
   a player it could not place, although the registry keeps him in the roster.
   */
  lemma ToldIff(area: Area, roster: seq<PlayerId>, draws: nat -> Draws, g: GameId, w: World,
                posted: seq<Posted>, i: nat)
    requires Distinct(roster) && Later(Populated(area, roster, draws), w) && GameOver(w) && PostedFor(g, w, posted)
    requires i < |roster|
    ensures GameOverFor(roster[i]) in posted <==> GetsPlace(EmptyWorld(area), roster, i, draws)
  {
    hide GameOver, PostedFor, GetsPlace, Populated;
    ToldArePlayers(g, w, posted, roster[i]);
    PlacedPlayers(area, roster, draws, roster[i]);
  }

  /**
   When a running game ends, only members of its roster are told, and of these exactly the ones that
   were placed: with the draws of its start, and after its ticks.
   */
  lemma PlacedMembersAreTold(roster: seq<PlayerId>, g: GameId, w: World, posted: seq<Posted>)
    requires Distinct(roster) && Stems(roster, w) && GameOver(w) && PostedFor(g, w, posted)
    ensures forall p :: GameOverFor(p) in posted ==> p in roster
    ensures exists draws: nat -> Draws, n: nat ::
              && AfterTicks(Populated(w.area, roster, draws), n, w)
              && forall i: nat :: i < |roster| ==>
                   (GameOverFor(roster[i]) in posted <==> GetsPlace(EmptyWorld(w.area), roster, i, draws))
  {
    hide GameOver, PostedFor, GetsPlace, Populated, AfterTicks;
    forall p | GameOverFor(p) in posted
      ensures p in roster
    {
      ToldArePlayers(g, w, posted, p);
      PlayersAreRostered(roster, w, p);
    }
    var draws: nat -> Draws, n: nat :| AfterTicks(Populated(w.area, roster, draws), n, w);
    AfterTicksIsLater(Populated(w.area, roster, draws), n, w);
    forall i: nat | i < |roster|
      ensures GameOverFor(roster[i]) in posted <==> GetsPlace(EmptyWorld(w.area), roster, i, draws)
    {
      ToldIff(w.area, roster, draws, g, w, posted, i);
    }
  }

  /** So every round of ticks tells the end of each game that it ends. */
  lemma RoundTellsPlacedMembers(ix: Index, was: map<GameId, Moment>, now: map<GameId, Moment>, dice: GameId -> Dice,
                                order: seq<GameId>, batches: seq<seq<Posted>>, i: nat)
    requires Consistent(ix) && was.Keys == ix.dungeons && Descended(was, ix.rosters)
    requires Round(was, now, dice, order, batches) && i < |order| && GameOver(now[order[i]].world)
    ensures var roster, w := ix.rosters[order[i]], now[order[i]].world;
            && (forall p :: GameOverFor(p) in batches[i] ==> p in roster)
            && exists draws: nat -> Draws, n: nat ::
                 && AfterTicks(Populated(w.area, roster, draws), n, w)
                 && forall k: nat :: k < |roster| ==>
                      (GameOverFor(roster[k]) in batches[i] <==> GetsPlace(EmptyWorld(w.area), roster, k, draws))
  {
    hide GameOver, PostedFor, Stems, Ticks, AfterTicks, Populated, GetsPlace;
    var g := order[i];
    assert RosterFits(ix, g);
    StemsOn(ix.rosters[g], was[g].world, was[g].commands, dice(g), now[g].world);
    PlacedMembersAreTold(ix.rosters[g], g, now[g].world, batches[i]);
  }

  /** A game that goes on posts one state and nothing else: its own number, and the whole world as it is now. */
  lemma RoundPostsStates(was: map<GameId, Moment>, now: map<GameId, Moment>, dice: GameId -> Dice,
                         order: seq<GameId>, batches: seq<seq<Posted>>, i: nat) returns (s: DungeonSnapshot)
    requires Round(was, now, dice, order, batches) && i < |order|
    requires exists id :: id in now[order[i]].world.players && now[order[i]].world.players[id].alive
    ensures batches[i] == [StateUpdate(order[i], s)]
    ensures var w := now[order[i]].world;
            && ToSigned(s.gameMap.blcX) == w.area.blc.x && ToSigned(s.gameMap.trcY) == w.area.trc.y
            && (forall id :: id in w.players ==> Tells(s.players, Player, id, w.players[id]))
            && (forall id :: id in w.monsters ==> Tells(s.mobs, Monster, id, w.monsters[id]))
  {
    hide Ticked, Shows, Tells;
    var w := now[order[i]].world;
    assert !GameOver(w);
    s :| batches[i] == [StateUpdate(order[i], s)] && Shows(s, w);
    SnapshotIsTrue(s, w);
  }

  // ---------------------------------------------------------------------------------------
  // A game whose end not everybody is told of
  // ---------------------------------------------------------------------------------------

  /** Where one and the same cell is drawn for two players again and again, only the first is told. */
  lemma SecondIsNotTold(area: Area, p: PlayerId, q: PlayerId, draws: nat -> Draws, cell: Position,
                        n: nat, w: World, g: GameId, posted: seq<Posted>)
    requires p != q && area.IsAvailable(cell) && forall k :: draws(0)(k) == cell && draws(1)(k) == cell
    requires AfterTicks(Populated(area, [p, q], draws), n, w) && GameOver(w) && PostedFor(g, w, posted)
    ensures GameOverFor(p) in posted && GameOverFor(q) !in posted
  {
    hide Later, Populated, AfterTicks, GameOver, PostedFor, Apply, GetsPlace;
    AfterTicksIsLater(Populated(area, [p, q], draws), n, w);
    ToldIff(area, [p, q], draws, g, w, posted, 0);
    ToldIff(area, [p, q], draws, g, w, posted, 1);
    OnlyOnePlace(EmptyWorld(area), p, q, draws, cell);
  }

  lemma OnlyOnePlace(w: World, p: PlayerId, q: PlayerId, draws: nat -> Draws, cell: Position)
    requires Available(w, cell) && p !in w.players && q !in w.players && p != q
    requires forall k :: draws(0)(k) == cell && draws(1)(k) == cell
    ensures GetsPlace(w, [p, q], 0, draws) && !GetsPlace(w, [p, q], 1, draws)
    ensures AfterPlayers(w, [p, q], 2, draws) == w.(players := w.players[p := Newborn(Player, cell)])
  {
    assert FirstAvailable(w, draws(0), 0);
    assert AfterPlayers(w, [p, q], 0, draws) == w;
    SpawnIs(w, Player, p, draws(0), 0);
    var after := AfterPlayers(w, [p, q], 1, draws);
    assert after == Apply(w, SpawnPlayer(p, cell));
    assert p in after.players && after.players[p].pos == cell;
  }

  /** A player alone beside monster 0, which can reach him, and at least one more monster. */
  ghost predicate Cornered(w: World, p: PlayerId) {
    && w.players.Keys == {p} && 0 in w.monsters && |w.monsters| >= 2
    && w.monsters[0].alive && w.monsters[0].radius > 0
    && w.monsters[0].pos.ManhattanDistance(w.players[p].pos) == 1
  }

  /** Monster 0 attacks the player, if he lives. */
  function Blow(w: World, p: PlayerId): World {
    Apply(w, AttackPlayer(0, MONSTER_DEFAULT_ATTACK, if IsAlive(w.players, p) then Some(p) else None))
  }

  lemma BlowHits(w: World, p: PlayerId)
    requires Cornered(w, p)
    ensures Cornered(Blow(w, p), p)
    ensures Legal(w, AttackPlayer(0, MONSTER_DEFAULT_ATTACK, if IsAlive(w.players, p) then Some(p) else None))
    ensures var e, after := w.players[p], Blow(w, p).players[p];
            && (after.alive ==> e.alive && after.hp as int == e.hp as int - MONSTER_DEFAULT_ATTACK as int)
  {
    hide Position.ManhattanDistance;
  }

  /** No move and one attack, by monster 0. */
  function OneBlow(): Dice { Dice(0, 1, _ => Roll(0, 0), _ => 0) }

  /** One blow and nothing else is a tick that the code can play. */
  lemma BlowIsTick(w: World, p: PlayerId)
    requires Cornered(w, p)
    ensures Ticks(w, [], OneBlow(), Blow(w, p))
  {
    hide Legal, Apply, Cornered;
    var a := AttackPlayer(0, MONSTER_DEFAULT_ATTACK, if IsAlive(w.players, p) then Some(p) else None);
    BlowHits(w, p);
    CorneredActs(w, p);
    var none: seq<Action>, attacks := [], [a];
    LiveActorAlone(w, a);
    RunExtends(w, [], a);
    assert [] + [a] == [a];
    assert none + none + attacks == [a] && none + attacks == [a];
    OneBlowIsTurn(w, attacks);
    assert AreCommands([], none);
  }

  lemma OneBlowIsTurn(w: World, attacks: seq<Action>)
    requires |w.monsters| >= 2 && IsAlive(w.monsters, 0) && |attacks| == 1
    requires attacks[0].AttackPlayer? && attacks[0].id == 0 && attacks[0].damage == MONSTER_DEFAULT_ATTACK
    ensures Fits(OneBlow(), w.monsters.Keys) && AreTurns(w, OneBlow(), [], attacks)
  {
    assert |w.monsters| == |w.monsters.Keys|;
    var draws := OneBlow().attackers;
    assert Attackers(w, draws, 0) == [];
    assert Attackers(w, draws, 1) == [0];
    assert w.monsters != map[];
  }

  lemma CorneredActs(w: World, p: PlayerId)
    requires Cornered(w, p)
    ensures |w.monsters| >= 2 && IsAlive(w.monsters, 0)
  {
  }

  function Blows(w: World, p: PlayerId, n: nat): World {
    if n == 0 then w else Blow(Blows(w, p, n - 1), p)
  }

  lemma {:induction false} BlowsAreTicks(w: World, p: PlayerId, n: nat)
    requires Cornered(w, p) && MONSTER_DEFAULT_ATTACK > 0
    ensures AfterTicks(w, n, Blows(w, p, n)) && Cornered(Blows(w, p, n), p)
    ensures var e := Blows(w, p, n).players[p];
            e.alive ==> e.hp as int + n <= w.players[p].hp as int
  {
    hide Ticks, Blow, EntityValue.Damaged;
    if n > 0 {
      var before := Blows(w, p, n - 1);
      BlowsAreTicks(w, p, n - 1);
      BlowHits(before, p);
      BlowIsTick(before, p);
    }
  }

  /** A cornered player does not survive. */
  lemma CorneredIsOver(w: World, p: PlayerId)
    requires Cornered(w, p) && MONSTER_DEFAULT_ATTACK > 0
    ensures exists n, v :: AfterTicks(w, n, v) && GameOver(v)
  {
    hide AfterTicks, Blows;
    var n := w.players[p].hp as nat + 1;
    BlowsAreTicks(w, p, n);
    assert GameOver(Blows(w, p, n));
  }

  /** The first two monsters stand where they are drawn; the others, wherever they are put, change nothing. */
  lemma {:induction false} TwoMonsters(w: World, n: nat, draws: nat -> Draws, next: Position, third: Position)
    requires w.monsters == map[] && next != third && Available(w, next) && Available(w, third)
    requires forall k :: draws(2)(k) == next && draws(3)(k) == third
    ensures var v := AfterMonsters(w, n, 2, draws);
            && (n == 1 ==> v == w.(monsters := map[0 := Newborn(Monster, next)]))
            && (n >= 2 ==> 0 in v.monsters && 1 in v.monsters && v.monsters[0] == Newborn(Monster, next))
  {
    hide Available;
    if n == 1 {
      FirstMonster(w, draws, next);
    } else if n == 2 {
      FirstMonster(w, draws, next);
      SecondMonster(w, AfterMonsters(w, 1, 2, draws), draws, next, third);
    } else if n > 2 {
      TwoMonsters(w, n - 1, draws, next, third);
      SpawnAdds(AfterMonsters(w, n - 1, 2, draws), Monster, n - 1, draws(2 + n - 1));
    }
  }

  lemma FirstMonster(w: World, draws: nat -> Draws, next: Position)
    requires w.monsters == map[] && Available(w, next) && forall k :: draws(2)(k) == next
    ensures AfterMonsters(w, 1, 2, draws) == w.(monsters := map[0 := Newborn(Monster, next)])
  {
    hide Available;
    assert FirstAvailable(w, draws(2), 0);
    SpawnIs(w, Monster, 0, draws(2), 0);
    assert AfterMonsters(w, 0, 2, draws) == w;
  }

  lemma SecondMonster(w: World, v: World, draws: nat -> Draws, next: Position, third: Position)
    requires w.monsters == map[] && next != third && Available(w, third) && forall k :: draws(3)(k) == third
    requires v == AfterMonsters(w, 1, 2, draws) && v == w.(monsters := map[0 := Newborn(Monster, next)])
    ensures AfterMonsters(w, 2, 2, draws) == v.(monsters := v.monsters[1 := Newborn(Monster, third)])
  {
    assert Available(v, third);
    hide Available;
    assert FirstAvailable(v, draws(3), 0);
    SpawnIs(v, Monster, 1, draws(3), 0);
  }

  lemma SpawnAdds(w: World, kind: Kind, id: Id, draws: Draws)
    ensures var v := AfterSpawn(w, kind, id, draws);
            forall k :: k in w.monsters && kind == Monster ==> k in v.monsters && v.monsters[k] == w.monsters[k]
  {
    hide HasFreeDraw, FirstAvailable;
  }

  /**
   Such a game does end, in ticks that the code can play, and its end is posted: the only cell drawn
   for two players lies beside the one drawn for the first monster, a second monster is somewhere,
   and blows hurt.
   */
  lemma SuchAGameEnds(area: Area, p: PlayerId, q: PlayerId, draws: nat -> Draws,
                      cell: Position, next: Position, third: Position, g: GameId)
    requires p != q && area.IsAvailable(cell) && area.IsAvailable(next) && area.IsAvailable(third)
    requires cell != third && next != third && next.ManhattanDistance(cell) == 1
    requires forall k :: draws(0)(k) == cell && draws(1)(k) == cell && draws(2)(k) == next && draws(3)(k) == third
    requires MONSTERS_PER_PLAYER > 0 && MONSTER_DEFAULT_ATTACK > 0 && DEFAULT_RADIUS_ATTACK > 0
    ensures exists n, w, posted ::
              && AfterTicks(Populated(area, [p, q], draws), n, w) && GameOver(w) && PostedFor(g, w, posted)
              && GameOverFor(p) in posted && GameOverFor(q) !in posted
  {
    hide AfterTicks, GameOver, PostedFor, Populated, Position.ManhattanDistance;
    CornerPopulated(area, p, q, draws, cell, next, third);
    var start := Populated(area, [p, q], draws);
    CorneredIsOver(start, p);
    var n, w :| AfterTicks(start, n, w) && GameOver(w);
    AfterTicksIsLater(start, n, w);
    AloneIsTold(g, w, p);
    SecondIsNotTold(area, p, q, draws, cell, n, w, g, GameOvers([p]));
  }

  lemma AloneIsTold(g: GameId, w: World, p: PlayerId)
    requires w.players.Keys == {p} && GameOver(w)
    ensures PostedFor(g, w, GameOvers([p]))
  {
    hide GameOver, Shows;
    assert Listing([p], w.players.Keys);
  }

  lemma CornerPopulated(area: Area, p: PlayerId, q: PlayerId, draws: nat -> Draws,
                        cell: Position, next: Position, third: Position)
    requires p != q && area.IsAvailable(cell) && area.IsAvailable(next) && area.IsAvailable(third)
    requires cell != third && next != third && next.ManhattanDistance(cell) == 1
    requires forall k :: draws(0)(k) == cell && draws(1)(k) == cell && draws(2)(k) == next && draws(3)(k) == third
    requires MONSTERS_PER_PLAYER > 0 && DEFAULT_RADIUS_ATTACK > 0
    ensures Cornered(Populated(area, [p, q], draws), p)
  {
    hide Position.ManhattanDistance, AfterPlayers, AfterMonsters, GetsPlace;
    DistanceIsAMetric(next, cell, cell);
    OnlyOnePlace(EmptyWorld(area), p, q, draws, cell);
    var w := AfterPlayers(EmptyWorld(area), [p, q], 2, draws);
    var m := 2 * MONSTERS_PER_PLAYER;
    TwoMonsters(w, m, draws, next, third);
    MonstersAreNumbered(w, m, 2, draws);
    var v := Populated(area, [p, q], draws);
    assert v == AfterMonsters(w, m, 2, draws);
    assert {0, 1} <= v.monsters.Keys;
    AtLeastTwo(v.monsters);
  }

  lemma AtLeastTwo(m: EntityMap)
    requires {0, 1} <= m.Keys
    ensures |m| >= 2
  {
    var two: set<Id> := {0, 1};
    assert m.Keys == two + (m.Keys - two);
    assert |m| == |m.Keys|;
  }
}
