/** What one tick plays: the queued commands of the players, then the turn of the monsters. */
module Turns {
  import opened Bytes
  import opened Positions
  import opened Entities
  import opened Worlds

  const MONSTER_DEFAULT_ATTACK: uint32

  // ---------------------------------------------------------------------------------------
  // Commands
  // ---------------------------------------------------------------------------------------

  datatype Command = Attack(player: Id, damage: uint32) | Move(player: Id, direction: byte)

  /** The action that a command turns into; the target depends on the world at that moment. */
  predicate Carries(c: Command, a: Action) {
    match c
    case Attack(p, damage) => a.AttackMonster? && a.id == p && a.damage == damage
    case Move(p, d) => a == MovePlayer(p, d)
  }

  ghost predicate AreCommands(queue: seq<Command>, acts: seq<Action>) {
    |acts| == |queue| && forall i :: 0 <= i < |queue| ==> Carries(queue[i], acts[i])
  }

  /** What a command does: a step of its player, or a strike of its player at the monsters. */
  ghost predicate Obeys(w: World, c: Command, v: World) {
    && v.area == w.area
    && match c
       case Attack(p, damage) => v.players == w.players && Strikes(w.players, p, w.monsters, v.monsters, damage)
       case Move(p, d) => v.monsters == w.monsters && Steps(w, w.players, v.players, p, d)
  }

  lemma CarriedIsObeyed(w: World, c: Command, a: Action)
    requires Carries(c, a) && Legal(w, a)
    ensures Obeys(w, c, Apply(w, a))
  {
    hide Steps, Strikes, Apply, Legal;
    match c
    case Attack(p, damage) => HitReachesClosest(w, p, damage, a.target);
    case Move(p, d) => MoveIsOneStep(w, p, d);
  }

  /** Every command of a queue is obeyed, in order, in the world that its predecessors leave. */
  lemma CommandsAreObeyed(w: World, queue: seq<Command>, acts: seq<Action>, i: nat)
    requires AreCommands(queue, acts) && LegalRun(w, acts) && i < |queue|
    ensures Obeys(Run(w, acts[..i]), queue[i], Run(w, acts[..i + 1]))
  {
    hide Legal, Apply, Obeys, Carries;
    var first, rest := acts[..i + 1], acts[i + 1..];
    assert acts == first + rest;
    RunConcat(w, first, rest);
    assert first == acts[..i] + [acts[i]];
    RunExtends(w, acts[..i], acts[i]);
    CarriedIsObeyed(Run(w, acts[..i]), queue[i], acts[i]);
  }

  // ---------------------------------------------------------------------------------------
  // The monsters' turn
  // ---------------------------------------------------------------------------------------

  /** The draw of one move: a monster and a direction. */
  datatype Roll = Roll(id: Id, direction: byte)

  /** The draws of one tick: how many moves and attacks, and whose. */
  datatype Dice = Dice(moveCount: nat, attackCount: nat, movers: nat -> Roll, attackers: nat -> Id)

  ghost predicate RollsFit(rolls: nat -> Roll, ids: set<Id>) {
    forall i :: rolls(i).id in ids && rolls(i).direction <= 3
  }

  ghost predicate DrawsFit(draws: nat -> Id, ids: set<Id>) {
    forall i :: draws(i) in ids
  }

  /** What the generators guarantee: counts below the number of monsters, monsters, and the four directions. */
  ghost predicate Fits(dice: Dice, ids: set<Id>) {
    ids != {} ==>
      && dice.moveCount < |ids| && dice.attackCount < |ids|
      && RollsFit(dice.movers, ids) && DrawsFit(dice.attackers, ids)
  }

  function Least(a: nat, b: nat): nat { if a < b then a else b }

  /** The moves for the first `n` draws; a dead monster forfeits. */
  function Movers(w: World, rolls: nat -> Roll, n: nat): seq<Action> {
    if n == 0 then []
    else
      var r := rolls(n - 1);
      Movers(w, rolls, n - 1) + (if IsAlive(w.monsters, r.id) then [MoveMonster(r.id, r.direction)] else [])
  }

  /** The living among the first `n` drawn monsters. */
  function Attackers(w: World, draws: nat -> Id, n: nat): seq<Id> {
    if n == 0 then []
    else Attackers(w, draws, n - 1) + (if IsAlive(w.monsters, draws(n - 1)) then [draws(n - 1)] else [])
  }

  /** One attack by each monster listed, whatever its target. */
  ghost predicate AttackedBy(attacks: seq<Action>, ids: seq<Id>, power: uint32) {
    |attacks| == |ids|
    && forall i :: 0 <= i < |ids| ==> attacks[i].AttackPlayer? && attacks[i].id == ids[i] && attacks[i].damage == power
  }

  /** The turn that the dice give: one move and one attack for each drawn monster that is alive. */
  ghost predicate AreTurns(w: World, dice: Dice, moves: seq<Action>, attacks: seq<Action>) {
    if w.monsters == map[] then moves == [] && attacks == []
    else
      && moves == Movers(w, dice.movers, dice.moveCount)
      && AttackedBy(attacks, Attackers(w, dice.attackers, dice.attackCount), MONSTER_DEFAULT_ATTACK)
  }

  /** While all drawn monsters live, every draw is an action, in the order drawn. */
  lemma EveryDrawActs(w: World, dice: Dice, moves: seq<Action>, attacks: seq<Action>)
    requires AreTurns(w, dice, moves, attacks) && w.monsters != map[]
    ensures (forall i: nat :: i < dice.moveCount ==> IsAlive(w.monsters, dice.movers(i).id)) ==>
              && |moves| == dice.moveCount
              && forall i :: 0 <= i < |moves| ==> moves[i] == MoveMonster(dice.movers(i).id, dice.movers(i).direction)
    ensures (forall i: nat :: i < dice.attackCount ==> IsAlive(w.monsters, dice.attackers(i))) ==>
              && |attacks| == dice.attackCount
              && forall i :: 0 <= i < |attacks| ==>
                   attacks[i] == AttackPlayer(dice.attackers(i), MONSTER_DEFAULT_ATTACK, attacks[i].target)
  {
    if forall i: nat :: i < dice.moveCount ==> IsAlive(w.monsters, dice.movers(i).id) {
      AllMove(w, dice.movers, dice.moveCount);
    }
    if forall i: nat :: i < dice.attackCount ==> IsAlive(w.monsters, dice.attackers(i)) {
      AllAttack(w, dice.attackers, dice.attackCount);
    }
  }

  lemma {:induction false} AllMove(w: World, rolls: nat -> Roll, n: nat)
    requires forall i: nat :: i < n ==> IsAlive(w.monsters, rolls(i).id)
    ensures |Movers(w, rolls, n)| == n
    ensures forall i :: 0 <= i < n ==> Movers(w, rolls, n)[i] == MoveMonster(rolls(i).id, rolls(i).direction)
  {
    if n > 0 {
      AllMove(w, rolls, n - 1);
    }
  }

  lemma {:induction false} AllAttack(w: World, draws: nat -> Id, n: nat)
    requires forall i: nat :: i < n ==> IsAlive(w.monsters, draws(i))
    ensures |Attackers(w, draws, n)| == n && forall i :: 0 <= i < n ==> Attackers(w, draws, n)[i] == draws(i)
  {
    if n > 0 {
      AllAttack(w, draws, n - 1);
    }
  }

  /** Exactly the drawn monsters that are alive act. */
  lemma {:induction false} DrawnAndAliveAct(w: World, dice: Dice, n: nat, id: Id)
    ensures id in Attackers(w, dice.attackers, n) <==>
              IsAlive(w.monsters, id) && exists i: nat :: i < n && dice.attackers(i) == id
    ensures (exists a :: a in Movers(w, dice.movers, n) && a.MoveMonster? && a.id == id) <==>
              IsAlive(w.monsters, id) && exists i: nat :: i < n && dice.movers(i).id == id
  {
    if n > 0 {
      DrawnAndAliveAct(w, dice, n - 1, id);
      var before := Movers(w, dice.movers, n - 1);
      var r := dice.movers(n - 1);
      if IsAlive(w.monsters, r.id) {
        assert MoveMonster(r.id, r.direction) in Movers(w, dice.movers, n);
      }
    }
  }

  /** What monsters do in their turn. */
  predicate IsTurn(a: Action) { a.MoveMonster? || a.AttackPlayer? }

  ghost predicate SameLives(w: World, v: World) {
    v.monsters.Keys == w.monsters.Keys && forall id :: IsAlive(v.monsters, id) <==> IsAlive(w.monsters, id)
  }

  /** Some turns, none of them by the dead, lead from one world to the other. */
  ghost predicate Played(w: World, turns: seq<Action>, v: World) {
    v == Run(w, turns) && LiveActors(w, turns)
  }

  lemma PlayedNone(w: World)
    ensures Played(w, [], w)
  {
  }

  lemma PlayedMore(w: World, turns: seq<Action>, v: World, more: seq<Action>, u: World)
    requires Played(w, turns, v) && Played(v, more, u)
    ensures Played(w, turns + more, u)
  {
    RunConcat(w, turns, more);
    LiveActorsConcat(w, turns, more);
  }

  /** No monster dies in the monsters' turn. */
  lemma {:induction false} TurnsKeepLives(w: World, turns: seq<Action>)
    requires forall i :: 0 <= i < |turns| ==> IsTurn(turns[i])
    ensures SameLives(w, Run(w, turns))
  {
    if turns != [] {
      TurnsKeepLives(w, turns[..|turns| - 1]);
      OneTurnKeepsLives(Run(w, turns[..|turns| - 1]), turns[|turns| - 1]);
    }
  }

  lemma OneTurnKeepsLives(w: World, a: Action)
    requires IsTurn(a)
    ensures SameLives(w, Apply(w, a))
  {
    hide Available;
  }

  lemma {:induction false} SameLivesSameTurns(w: World, v: World, dice: Dice, n: nat)
    requires SameLives(w, v)
    ensures Movers(v, dice.movers, n) == Movers(w, dice.movers, n)
    ensures Attackers(v, dice.attackers, n) == Attackers(w, dice.attackers, n)
  {
    hide IsAlive;
    if n > 0 {
      SameLivesSameTurns(w, v, dice, n - 1);
    }
  }

  lemma {:induction false} MoversAreTurns(w: World, rolls: nat -> Roll, n: nat)
    ensures |Movers(w, rolls, n)| <= n
    ensures forall i :: 0 <= i < |Movers(w, rolls, n)| ==> Movers(w, rolls, n)[i].MoveMonster?
  {
    if n > 0 {
      MoversAreTurns(w, rolls, n - 1);
    }
  }

  lemma {:induction false} AttackersAreFew(w: World, draws: nat -> Id, n: nat)
    ensures |Attackers(w, draws, n)| <= n
  {
    if n > 0 {
      AttackersAreFew(w, draws, n - 1);
    }
  }

  lemma AttackedByMore(attacks: seq<Action>, ids: seq<Id>, turn: seq<Action>, more: seq<Id>, power: uint32)
    ensures AttackedBy([], [], power)
    ensures AttackedBy(attacks, ids, power) ==> forall i :: 0 <= i < |attacks| ==> IsTurn(attacks[i])
    ensures AttackedBy(attacks, ids, power) && AttackedBy(turn, more, power)
            ==> AttackedBy(attacks + turn, ids + more, power)
  {
  }

  lemma SameLife(w: World, turns: seq<Action>, v: World, id: Id)
    requires Played(w, turns, v) && forall i :: 0 <= i < |turns| ==> IsTurn(turns[i])
    ensures SameLives(w, v)
    ensures IsAlive(v.monsters, id) <==> IsAlive(w.monsters, id)
  {
    hide Run, LiveActors;
    TurnsKeepLives(w, turns);
  }

  lemma CommandsArePlay(queue: seq<Command>, acts: seq<Action>)
    requires AreCommands(queue, acts)
    ensures forall i :: 0 <= i < |acts| ==> IsPlay(acts[i])
  {
    forall i | 0 <= i < |acts|
      ensures IsPlay(acts[i])
    {
      assert Carries(queue[i], acts[i]);
    }
  }

  lemma TurnsArePlay(w: World, dice: Dice, moves: seq<Action>, attacks: seq<Action>)
    requires AreTurns(w, dice, moves, attacks)
    ensures forall i :: 0 <= i < |moves| ==> IsPlay(moves[i])
    ensures forall i :: 0 <= i < |attacks| ==> IsPlay(attacks[i])
  {
    MoversAreTurns(w, dice.movers, dice.moveCount);
  }
}
