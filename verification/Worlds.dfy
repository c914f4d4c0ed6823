/**
 The dungeon as a transition system. Every random draw, every hash-map order and every player
 request is part of an action; a legal action is one that some draw or request can produce. The
 theorems hold along every legal history.
 */
module Worlds {
  import opened Wrappers
  import opened Bytes
  import opened Positions
  import opened GameMap
  import opened Entities

  datatype World = World(area: Area, players: EntityMap, monsters: EntityMap)

  function EmptyWorld(area: Area): World { World(area, map[], map[]) }

  predicate Available(w: World, pos: Position) {
    w.area.IsAvailable(pos) && !Occupied(w.players, pos) && !Occupied(w.monsters, pos)
  }

  datatype Action =
    | SpawnPlayer(id: Id, pos: Position)
    | SpawnMonster(id: Id, pos: Position)
    | MovePlayer(id: Id, direction: byte)
    | AttackMonster(id: Id, damage: uint32, target: Option<Id>)
    | MoveMonster(id: Id, direction: byte)
    | AttackPlayer(id: Id, damage: uint32, target: Option<Id>)

  predicate IsAlive(m: EntityMap, id: Id) { id in m && m[id].alive }

  /** A spawn finds a free cell; an attacker finds a closest target. */
  ghost predicate Legal(w: World, a: Action) {
    match a
    case SpawnPlayer(id, pos) => id !in w.players && Available(w, pos)
    case SpawnMonster(id, pos) => id !in w.monsters && Available(w, pos)
    case MovePlayer(_, _) => true
    case MoveMonster(_, _) => true
    case AttackMonster(id, _, t) =>
      IsAlive(w.players, id) ==> IsClosest(w.monsters, w.players[id].pos, w.players[id].radius as uint64, t)
    case AttackPlayer(id, _, t) =>
      IsAlive(w.monsters, id) ==> IsClosest(w.players, w.monsters[id].pos, w.monsters[id].radius as uint64, t)
  }

  /** A living mover goes one step, if the cell is available; otherwise it stays. */
  function Moved(w: World, m: EntityMap, id: Id, direction: byte): EntityMap {
    if !IsAlive(m, id) then m
    else
      var newPos := m[id].pos.Plus(OffsetOf(direction));
      if Available(w, newPos) then m[id := m[id].(pos := newPos)] else m
  }

  function Hit(attackers: EntityMap, id: Id, targets: EntityMap, damage: uint32, target: Option<Id>): EntityMap {
    if !IsAlive(attackers, id) || target.None? || target.value !in targets then targets
    else targets[target.value := targets[target.value].Damaged(damage)]
  }

  function Apply(w: World, a: Action): World {
    match a
    case SpawnPlayer(id, pos) => w.(players := w.players[id := Newborn(Player, pos)])
    case SpawnMonster(id, pos) => w.(monsters := w.monsters[id := Newborn(Monster, pos)])
    case MovePlayer(id, d) => w.(players := Moved(w, w.players, id, d))
    case MoveMonster(id, d) => w.(monsters := Moved(w, w.monsters, id, d))
    case AttackMonster(id, damage, t) => w.(monsters := Hit(w.players, id, w.monsters, damage, t))
    case AttackPlayer(id, damage, t) => w.(players := Hit(w.monsters, id, w.players, damage, t))
  }

  /** The world after a history, and whether each action in it was legal when it was taken. */
  function Run(w: World, history: seq<Action>): World {
    if history == [] then w else Apply(Run(w, history[..|history| - 1]), history[|history| - 1])
  }

  ghost predicate LegalRun(w: World, history: seq<Action>) {
    history == []
    || (LegalRun(w, history[..|history| - 1])
        && Legal(Run(w, history[..|history| - 1]), history[|history| - 1]))
  }

  lemma RunExtends(w: World, history: seq<Action>, a: Action)
    ensures Run(w, history + [a]) == Apply(Run(w, history), a)
    ensures LegalRun(w, history + [a]) <==> LegalRun(w, history) && Legal(Run(w, history), a)
  {
    assert (history + [a])[..|history|] == history;
  }

  lemma {:induction false} RunConcat(w: World, first: seq<Action>, second: seq<Action>)
    ensures Run(w, first + second) == Run(Run(w, first), second)
    ensures LegalRun(w, first + second) <==> LegalRun(w, first) && LegalRun(Run(w, first), second)
    decreases |second|
  {
    hide Apply, Legal;
    if second == [] {
      assert first + second == first;
    } else {
      var last := |second| - 1;
      assert (first + second)[..|first + second| - 1] == first + second[..last];
      RunConcat(w, first, second[..last]);
    }
  }

  // ---------------------------------------------------------------------------------------
  // One entity to a cell
  // ---------------------------------------------------------------------------------------

  ghost predicate AllPlaced(area: Area, m: EntityMap) {
    && (forall id :: id in m ==> area.IsAvailable(m[id].pos))
    && (forall id, other :: id in m && other in m && id != other ==> m[id].pos != m[other].pos)
  }

  /** All entities, living or dead, stand on pairwise distinct cells of the map without barrier. */
  ghost predicate Sound(w: World) {
    && AllPlaced(w.area, w.players) && AllPlaced(w.area, w.monsters)
    && forall p, m :: p in w.players && m in w.monsters ==> w.players[p].pos != w.monsters[m].pos
  }

  /** Putting an entity, new or moved, on an available cell keeps the kind's placement. */
  lemma PlacedOnFree(w: World, m: EntityMap, id: Id, e: EntityValue)
    requires AllPlaced(w.area, m) && w.area.IsAvailable(e.pos) && !Occupied(m, e.pos)
    ensures AllPlaced(w.area, m[id := e])
  {
  }

  lemma ApplySound(w: World, a: Action)
    requires Sound(w) && Legal(w, a)
    ensures Sound(Apply(w, a))
  {
    hide IsClosest, EntityValue.Damaged;
    match a
    case SpawnPlayer(id, pos) => PlacedOnFree(w, w.players, id, Newborn(Player, pos));
    case SpawnMonster(id, pos) => PlacedOnFree(w, w.monsters, id, Newborn(Monster, pos));
    case MovePlayer(id, d) => MovedSound(w, w.players, id, d);
    case MoveMonster(id, d) => MovedSound(w, w.monsters, id, d);
    case AttackMonster(id, damage, t) => HitInPlace(w.players, id, w.monsters, damage, t);
    case AttackPlayer(id, damage, t) => HitInPlace(w.monsters, id, w.players, damage, t);
  }

  lemma MovedSound(w: World, m: EntityMap, id: Id, direction: byte)
    requires AllPlaced(w.area, m) && (m == w.players || m == w.monsters)
    ensures AllPlaced(w.area, Moved(w, m, id, direction))
    ensures var after := Moved(w, m, id, direction);
            forall k :: k in after ==> k in m && (after[k].pos == m[k].pos || Available(w, after[k].pos))
  {
    if IsAlive(m, id) {
      var newPos := m[id].pos.Plus(OffsetOf(direction));
      if Available(w, newPos) {
        PlacedOnFree(w, m, id, m[id].(pos := newPos));
      }
    }
  }

  lemma HitInPlace(attackers: EntityMap, id: Id, targets: EntityMap, damage: uint32, target: Option<Id>)
    ensures var after := Hit(attackers, id, targets, damage, target);
            after.Keys == targets.Keys && forall k :: k in after ==> after[k].pos == targets[k].pos
  {
  }

  /** In every reachable state of every dungeon, each cell holds at most one entity. */
  lemma {:induction false} SoundForever(area: Area, history: seq<Action>)
    requires LegalRun(EmptyWorld(area), history)
    ensures Sound(Run(EmptyWorld(area), history)) && Run(EmptyWorld(area), history).area == area
  {
    if history != [] {
      var before := history[..|history| - 1];
      SoundForever(area, before);
      ApplySound(Run(EmptyWorld(area), before), history[|history| - 1]);
    }
  }

  ghost predicate StandsAt(m: EntityMap, x: int, y: int) {
    exists id :: id in m && m[id].pos.x as int == x && m[id].pos.y as int == y
  }

  /** A cell between the corners, edges included, with no barrier and no entity, living or dead. */
  ghost predicate FreeCell(w: World, x: int, y: int) {
    && w.area.blc.x as int <= x <= w.area.trc.x as int && w.area.blc.y as int <= y <= w.area.trc.y as int
    && (forall b :: b in w.area.barriers ==> !(b.x as int == x && b.y as int == y))
    && !StandsAt(w.players, x, y) && !StandsAt(w.monsters, x, y)
  }

  lemma AvailableIff(w: World, p: Position)
    ensures Available(w, p) <==> FreeCell(w, p.x as int, p.y as int)
  {
    OccupiedIff(w.players, p);
    OccupiedIff(w.monsters, p);
    hide Occupied, StandsAt;
    forall b | b in w.area.barriers && b.x as int == p.x as int && b.y as int == p.y as int
      ensures b == p
    {
    }
  }

  lemma OccupiedIff(m: EntityMap, p: Position)
    ensures Occupied(m, p) <==> StandsAt(m, p.x as int, p.y as int)
  {
    if Occupied(m, p) {
      var id :| id in m && m[id].pos == p;
      assert m[id].pos.x as int == p.x as int && m[id].pos.y as int == p.y as int;
    }
    if StandsAt(m, p.x as int, p.y as int) {
      var id :| id in m && m[id].pos.x as int == p.x as int && m[id].pos.y as int == p.y as int;
      assert m[id].pos == p;
    }
  }

  /** Up, down, left and right. */
  function AheadX(p: Position, direction: byte): int {
    p.x as int + (if direction == 2 then -1 else if direction == 3 then 1 else 0)
  }

  function AheadY(p: Position, direction: byte): int {
    p.y as int + (if direction == 0 then 1 else if direction == 1 then -1 else 0)
  }

  /** A living entity shifts to the cell ahead if that is free; any other byte, or a dead one, does nothing. */
  ghost predicate Steps(w: World, m: EntityMap, after: EntityMap, id: Id, direction: byte) {
    if id in m && m[id].alive && direction <= 3
       && FreeCell(w, AheadX(m[id].pos, direction), AheadY(m[id].pos, direction)) then
      && id in after && after == m[id := m[id].(pos := after[id].pos)]
      && after[id].pos.x as int == AheadX(m[id].pos, direction)
      && after[id].pos.y as int == AheadY(m[id].pos, direction)
      && m[id].pos.ManhattanDistance(after[id].pos) == 1
    else after == m
  }

  /** The cell that a step aims at; at the end of the number range, the own cell. */
  lemma AimsAhead(p: Position, direction: byte)
    ensures var q := p.Plus(OffsetOf(direction));
            || q == p
            || (direction <= 3 && q.x as int == AheadX(p, direction) && q.y as int == AheadY(p, direction))
    ensures var q := p.Plus(OffsetOf(direction));
            q == p && direction <= 3 ==>
              || AheadX(p, direction) > INT64_MAX as int || AheadX(p, direction) < INT64_MIN as int
              || AheadY(p, direction) > INT64_MAX as int || AheadY(p, direction) < INT64_MIN as int
  {
  }

  lemma MovedSteps(w: World, m: EntityMap, id: Id, direction: byte)
    requires m == w.players || m == w.monsters
    ensures Steps(w, m, Moved(w, m, id, direction), id, direction)
  {
    hide FreeCell, Occupied, Available, AheadX, AheadY, OffsetOf, Position.Plus, Position.ManhattanDistance;
    if id in m && m[id].alive {
      var p := m[id].pos;
      var q := p.Plus(OffsetOf(direction));
      AimsAhead(p, direction);
      StepLength(p, direction);
      AvailableIff(w, q);
      OwnCellIsTaken(w, m, id);
      if q == p && direction <= 3 {
        OffMap(w, AheadX(p, direction), AheadY(p, direction));
      }
    }
  }

  lemma OwnCellIsTaken(w: World, m: EntityMap, id: Id)
    requires (m == w.players || m == w.monsters) && id in m
    ensures !Available(w, m[id].pos)
  {
    assert Occupied(m, m[id].pos);
  }

  lemma OffMap(w: World, x: int, y: int)
    requires x > INT64_MAX as int || x < INT64_MIN as int || y > INT64_MAX as int || y < INT64_MIN as int
    ensures !FreeCell(w, x, y)
  {
  }

  /**
   A move command with any direction byte shifts only that player, by exactly one, to the cell ahead
   if it is free; otherwise nothing changes. The same holds for a monster's move. The own cell counts
   as occupied, so a step that saturates, or an unknown byte, is refused.
   */
  lemma MoveIsOneStep(w: World, id: Id, direction: byte)
    ensures var v := Apply(w, MovePlayer(id, direction));
            v.area == w.area && v.monsters == w.monsters && Steps(w, w.players, v.players, id, direction)
    ensures var v := Apply(w, MoveMonster(id, direction));
            v.area == w.area && v.players == w.players && Steps(w, w.monsters, v.monsters, id, direction)
  {
    hide Steps, Moved;
    MovedSteps(w, w.players, id, direction);
    MovedSteps(w, w.monsters, id, direction);
  }

  predicate Changed(before: EntityMap, after: EntityMap, id: Id) {
    id in before && id in after && after[id] != before[id]
  }

  /** Alive means hit points are left. */
  predicate HasLife(e: EntityValue) { e.alive == (e.hp > 0) }

  lemma HitEffect(attackers: EntityMap, id: Id, targets: EntityMap, damage: uint32, target: Option<Id>)
    requires IsAlive(attackers, id) ==> IsClosest(targets, attackers[id].pos, attackers[id].radius as uint64, target)
    ensures var after := Hit(attackers, id, targets, damage, target);
            if !IsAlive(attackers, id) || target.None? then after == targets
            else
              var t, before := target.value, targets[target.value];
              && InReach(targets, attackers[id].pos, attackers[id].radius as uint64, t)
              && after == targets[t := after[t]]
              && after[t] == before.(hp := after[t].hp, alive := after[t].alive)
              && after[t].hp as int == before.hp as int - (if before.hp < damage then before.hp else damage) as int
              && after[t].alive == (after[t].hp > 0)
  {
    if IsAlive(attackers, id) && target.Some? {
      DamageIsBounded(targets[target.value], damage);
    }
  }

  /**
   An attack seen from its outcome. It changes one entity at most. That one was alive, within the
   radius of a living attacker and no further away than any other living one, in exact distances; it
   lost the smaller of the damage and its hit points, and nothing but these and its life. Where alive
   means hit points are left, one is changed exactly if the attack does damage, the attacker lives and
   a living one is within the radius.
   */
  ghost predicate Strikes(attackers: EntityMap, id: Id, targets: EntityMap, after: EntityMap, damage: uint32) {
    && after.Keys == targets.Keys
    && (forall j, k :: Changed(targets, after, j) && Changed(targets, after, k) ==> j == k)
    && (forall k :: Changed(targets, after, k) ==>
          && id in attackers && attackers[id].alive
          && Nearest(targets, attackers[id].pos, attackers[id].radius as uint64, Some(k))
          && after[k] == targets[k].(hp := after[k].hp, alive := after[k].hp > 0)
          && after[k].hp as int == if targets[k].hp < damage then 0 else (targets[k].hp - damage) as int)
    && ((forall k :: k in targets ==> HasLife(targets[k])) ==>
          ((exists k :: Changed(targets, after, k)) <==>
            && damage > 0 && id in attackers && attackers[id].alive
            && !Nearest(targets, attackers[id].pos, attackers[id].radius as uint64, None)))
  }

  lemma HitStrikes(attackers: EntityMap, id: Id, targets: EntityMap, damage: uint32, target: Option<Id>)
    requires IsAlive(attackers, id) ==> IsClosest(targets, attackers[id].pos, attackers[id].radius as uint64, target)
    ensures Strikes(attackers, id, targets, Hit(attackers, id, targets, damage, target), damage)
  {
    hide EntityValue.Damaged, IsClosest, Nearest, TrueDistance;
    HitEffect(attackers, id, targets, damage, target);
    if IsAlive(attackers, id) {
      var from, radius := attackers[id].pos, attackers[id].radius as uint64;
      ClosestIsNearest(targets, from, radius, target);
      NearestOrNone(targets, from, radius, target);
      var after := Hit(attackers, id, targets, damage, target);
      if target.Some? && damage > 0 && HasLife(targets[target.value]) {
        assert Changed(targets, after, target.value);
      }
    }
  }

  lemma NearestOrNone(m: EntityMap, from: Position, radius: uint64, target: Option<Id>)
    requires Nearest(m, from, radius, target)
    ensures target.None? <==> Nearest(m, from, radius, None)
  {
  }

  /** A legal attack of a player strikes the nearest monster and nothing else; and the other way round. */
  lemma HitReachesClosest(w: World, id: Id, damage: uint32, target: Option<Id>)
    ensures var v := Apply(w, AttackMonster(id, damage, target));
            Legal(w, AttackMonster(id, damage, target)) ==>
              v.area == w.area && v.players == w.players && Strikes(w.players, id, w.monsters, v.monsters, damage)
    ensures var v := Apply(w, AttackPlayer(id, damage, target));
            Legal(w, AttackPlayer(id, damage, target)) ==>
              v.area == w.area && v.monsters == w.monsters && Strikes(w.monsters, id, w.players, v.players, damage)
  {
    hide Strikes, Hit, IsClosest;
    if Legal(w, AttackMonster(id, damage, target)) {
      HitStrikes(w.players, id, w.monsters, damage, target);
    }
    if Legal(w, AttackPlayer(id, damage, target)) {
      HitStrikes(w.monsters, id, w.players, damage, target);
    }
  }

  // ---------------------------------------------------------------------------------------
  // Life and death
  // ---------------------------------------------------------------------------------------

  ghost predicate Vital(w: World) {
    && (forall id :: id in w.players ==> HasLife(w.players[id]))
    && (forall id :: id in w.monsters ==> HasLife(w.monsters[id]))
  }

  lemma ApplyVital(w: World, a: Action)
    requires PLAYER_DEFAULT_HP > 0 && MONSTER_DEFAULT_HP > 0 && Vital(w)
    ensures Vital(Apply(w, a))
  {
    hide Available, IsClosest;
  }

  /** With positive starting hit points, alive and hit points agree in every reachable state. */
  lemma {:induction false} VitalForever(area: Area, history: seq<Action>)
    requires PLAYER_DEFAULT_HP > 0 && MONSTER_DEFAULT_HP > 0
    ensures Vital(Run(EmptyWorld(area), history))
  {
    hide Vital, Apply;
    if history != [] {
      VitalForever(area, history[..|history| - 1]);
      ApplyVital(Run(EmptyWorld(area), history[..|history| - 1]), history[|history| - 1]);
    } else {
      NobodyIsVital(area);
    }
  }

  lemma NobodyIsVital(area: Area)
    ensures Vital(EmptyWorld(area))
  {
  }

  /** No spawn: what happens once the dungeon is built. */
  predicate IsPlay(a: Action) { !a.SpawnPlayer? && !a.SpawnMonster? }

  /** Later: same ids, no hit point gained, and the dead neither revive nor move. */
  ghost predicate LaterMap(m: EntityMap, n: EntityMap) {
    n.Keys == m.Keys
    && forall id :: id in m ==> n[id].hp <= m[id].hp && (!m[id].alive ==> !n[id].alive && n[id].pos == m[id].pos)
  }

  ghost predicate Later(w: World, v: World) {
    v.area == w.area && LaterMap(w.players, v.players) && LaterMap(w.monsters, v.monsters)
  }

  lemma LaterAndLater(w: World, v: World, u: World)
    requires Later(w, v) && Later(v, u)
    ensures Later(w, u)
  {
  }

  lemma ApplyIsLater(w: World, a: Action)
    requires IsPlay(a)
    ensures Later(w, Apply(w, a))
  {
  }

  /** Every stretch of play leads to a later world. */
  lemma {:induction false} PlayIsLater(w: World, play: seq<Action>)
    requires forall i :: 0 <= i < |play| ==> IsPlay(play[i])
    ensures Later(w, Run(w, play))
  {
    if play != [] {
      var before := play[..|play| - 1];
      PlayIsLater(w, before);
      ApplyIsLater(Run(w, before), play[|play| - 1]);
    }
  }

  /** The acting entity is alive. */
  predicate ActorAlive(w: World, a: Action) {
    match a
    case MovePlayer(id, _) => IsAlive(w.players, id)
    case AttackMonster(id, _, _) => IsAlive(w.players, id)
    case MoveMonster(id, _) => IsAlive(w.monsters, id)
    case AttackPlayer(id, _, _) => IsAlive(w.monsters, id)
    case _ => true
  }

  /** Whoever acts is alive at that moment. */
  ghost predicate LiveActors(w: World, play: seq<Action>) {
    play == []
    || (LiveActors(w, play[..|play| - 1])
        && ActorAlive(Run(w, play[..|play| - 1]), play[|play| - 1]))
  }

  lemma {:induction false} LiveActorsConcat(w: World, first: seq<Action>, second: seq<Action>)
    ensures LiveActors(w, first + second) <==> LiveActors(w, first) && LiveActors(Run(w, first), second)
    decreases |second|
  {
    hide Apply, ActorAlive;
    if second == [] {
      assert first + second == first;
    } else {
      var front := second[..|second| - 1];
      assert (first + second)[..|first + second| - 1] == first + front;
      RunConcat(w, first, front);
      LiveActorsConcat(w, first, front);
    }
  }

  lemma LiveActorAlone(w: World, a: Action)
    ensures Run(w, [a]) == Apply(w, a) && (LiveActors(w, [a]) <==> ActorAlive(w, a))
    ensures Run(w, []) == w && LiveActors(w, [])
  {
    hide Apply, ActorAlive;
    assert [a][..0] == [];
  }

  /** What is left of a stretch of play without the actions of those who are dead at its start. */
  function WithoutTheDead(w: World, play: seq<Action>): seq<Action> {
    if play == [] then []
    else
      var last := play[|play| - 1];
      WithoutTheDead(w, play[..|play| - 1]) + (if ActorAlive(w, last) then [last] else [])
  }

  lemma DeadActorIdles(w: World, v: World, a: Action)
    requires IsPlay(a) && Later(w, v) && !ActorAlive(w, a)
    ensures Apply(v, a) == v
  {
  }

  /** Those who are dead never act again: all that they try can be deleted from any stretch of play. */
  lemma {:induction false} TheDeadDoNothing(w: World, play: seq<Action>)
    requires forall i :: 0 <= i < |play| ==> IsPlay(play[i])
    ensures Run(w, WithoutTheDead(w, play)) == Run(w, play)
    ensures LegalRun(w, play) ==> LegalRun(w, WithoutTheDead(w, play))
  {
    hide Apply, Legal, Later, ActorAlive;
    if play != [] {
      var front, last := play[..|play| - 1], play[|play| - 1];
      TheDeadDoNothing(w, front);
      if ActorAlive(w, last) {
        RunExtends(w, WithoutTheDead(w, front), last);
      } else {
        PlayIsLater(w, front);
        DeadActorIdles(w, Run(w, front), last);
        assert WithoutTheDead(w, front) + [] == WithoutTheDead(w, front);
      }
    }
  }

  predicate GameOver(w: World) {
    forall id :: id in w.players ==> !w.players[id].alive
  }

  /** Once the game is over it stays over, whatever is played. */
  lemma GameOverForever(w: World, play: seq<Action>)
    requires forall i :: 0 <= i < |play| ==> IsPlay(play[i])
    ensures GameOver(w) ==> GameOver(Run(w, play))
  {
    PlayIsLater(w, play);
  }
}
