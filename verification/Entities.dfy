/** Players and monsters, and the manager that owns one kind of them. */
module Entities {
  import opened Wrappers
  import opened Positions

  type Id = nat

  datatype Kind = Player | Monster

  /** The settings of the two kinds: starting hit points and attack radius. */
  const PLAYER_DEFAULT_HP: uint32
  const MONSTER_DEFAULT_HP: uint32
  const DEFAULT_RADIUS_ATTACK: uint32

  function DefaultHp(kind: Kind): uint32 {
    if kind.Player? then PLAYER_DEFAULT_HP else MONSTER_DEFAULT_HP
  }

  datatype EntityValue = EntityValue(pos: Position, hp: uint32, alive: bool, radius: uint32) {
    function Damaged(damage: uint32): EntityValue {
      var left := if hp < damage then 0 else hp - damage;
      EntityValue(pos, left, alive && left != 0, radius)
    }
  }

  function Newborn(kind: Kind, pos: Position): EntityValue {
    EntityValue(pos, DefaultHp(kind), true, DEFAULT_RADIUS_ATTACK)
  }

  type EntityMap = map<Id, EntityValue>

  predicate Occupied(m: EntityMap, pos: Position) {
    exists id :: id in m && m[id].pos == pos
  }

  /** A target that may be hit: alive and within the radius. */
  predicate InReach(m: EntityMap, from: Position, radius: uint64, id: Id) {
    id in m && m[id].alive && from.ManhattanDistance(m[id].pos) <= radius
  }

  /** A living target of least distance within the radius, or none exactly when there is none. */
  ghost predicate IsClosest(m: EntityMap, from: Position, radius: uint64, target: Option<Id>) {
    match target
    case None => forall id :: id in m ==> !InReach(m, from, radius, id)
    case Some(t) =>
      && InReach(m, from, radius, t)
      && forall id :: InReach(m, from, radius, id)
                      ==> from.ManhattanDistance(m[t].pos) <= from.ManhattanDistance(m[id].pos)
  }

  /**
   The same in exact distances: the target lives, is within the radius, and no other living one is
   nearer; without a target, no living one is within the radius.
   */
  ghost predicate Nearest(m: EntityMap, from: Position, radius: uint64, target: Option<Id>) {
    match target
    case None => forall id :: id in m && m[id].alive ==> TrueDistance(from, m[id].pos) > radius as int
    case Some(t) =>
      && t in m && m[t].alive && TrueDistance(from, m[t].pos) <= radius as int
      && forall id :: id in m && m[id].alive ==> TrueDistance(from, m[t].pos) <= TrueDistance(from, m[id].pos)
  }

  /** Saturating distances find the nearest target, unless the radius is the saturated distance itself. */
  lemma ClosestIsNearest(m: EntityMap, from: Position, radius: uint64, target: Option<Id>)
    requires radius != UINT64_MAX
    ensures IsClosest(m, from, radius, target) <==> Nearest(m, from, radius, target)
  {
    hide IsClosest, Nearest;
    if IsClosest(m, from, radius, target) {
      ClosestMeansNearest(m, from, radius, target);
    }
    if Nearest(m, from, radius, target) {
      NearestMeansClosest(m, from, radius, target);
    }
  }

  lemma DistanceIsExact(p: Position, q: Position)
    ensures TrueDistance(p, q) >= UINT64_MAX as int ==> p.ManhattanDistance(q) == UINT64_MAX
    ensures TrueDistance(p, q) < UINT64_MAX as int ==> p.ManhattanDistance(q) as int == TrueDistance(p, q)
  {
  }

  lemma ClosestMeansNearest(m: EntityMap, from: Position, radius: uint64, target: Option<Id>)
    requires radius != UINT64_MAX && IsClosest(m, from, radius, target)
    ensures Nearest(m, from, radius, target)
  {
    hide Position.ManhattanDistance, TrueDistance;
    forall id | id in m && m[id].alive
      ensures target.None? ==> TrueDistance(from, m[id].pos) > radius as int
      ensures target.Some? ==> TrueDistance(from, m[target.value].pos) <= TrueDistance(from, m[id].pos)
    {
      DistanceIsExact(from, m[id].pos);
      assert InReach(m, from, radius, id) <==> from.ManhattanDistance(m[id].pos) <= radius;
      if target.Some? {
        DistanceIsExact(from, m[target.value].pos);
      }
    }
    if target.Some? {
      DistanceIsExact(from, m[target.value].pos);
    }
  }

  lemma NearestMeansClosest(m: EntityMap, from: Position, radius: uint64, target: Option<Id>)
    requires radius != UINT64_MAX && Nearest(m, from, radius, target)
    ensures IsClosest(m, from, radius, target)
  {
    hide Position.ManhattanDistance, TrueDistance;
    forall id | InReach(m, from, radius, id)
      ensures target.Some? && from.ManhattanDistance(m[target.value].pos) <= from.ManhattanDistance(m[id].pos)
    {
      DistanceIsExact(from, m[id].pos);
      if target.Some? {
        DistanceIsExact(from, m[target.value].pos);
      }
    }
    if target.Some? {
      DistanceIsExact(from, m[target.value].pos);
    }
  }

  lemma ClosestIsInReach(m: EntityMap, from: Position, radius: uint64, target: Option<Id>)
    requires IsClosest(m, from, radius, target)
    ensures target.Some? ==> target.value in m && m[target.value].alive
  {
  }

  predicate NobodyAlive(m: EntityMap) {
    forall id :: id in m ==> !m[id].alive
  }

  /** What the search finds: its bound of one above the radius wraps around for the largest radius. */
  ghost predicate Finds(m: EntityMap, from: Position, radius: uint64, found: Option<Id>) {
    if radius == UINT64_MAX then found == None else IsClosest(m, from, radius, found)
  }

  /** The search finds a closest target exactly if the radius is not the largest, or nobody lives. */
  lemma FindsClosestIff(m: EntityMap, from: Position, radius: uint64, found: Option<Id>)
    requires Finds(m, from, radius, found)
    ensures IsClosest(m, from, radius, found) <==> radius != UINT64_MAX || NobodyAlive(m)
  {
    if radius == UINT64_MAX {
      assert forall id :: id in m && m[id].alive ==> InReach(m, from, radius, id);
    }
  }

  /** With the largest radius, a living target on the very spot is not found. */
  lemma LargestRadiusMisses(pos: Position)
    ensures var m := map[0 := Newborn(Monster, pos)];
            Finds(m, pos, UINT64_MAX, None) && !IsClosest(m, pos, UINT64_MAX, None)
  {
    var m := map[0 := Newborn(Monster, pos)];
    assert 0 in m && m[0].alive;
    FindsClosestIff(m, pos, UINT64_MAX, None);
  }

  class Entity {
    const id: Id
    const kind: Kind
    const radiusAttack: uint32
    var position: Position
    var hp: uint32
    var alive: bool

    ghost function Value(): EntityValue
      reads this
    {
      EntityValue(position, hp, alive, radiusAttack)
    }

    constructor (eid: Id, k: Kind, pos: Position)
      ensures id == eid && kind == k && Value() == Newborn(k, pos)
    {
      id, kind, radiusAttack := eid, k, DEFAULT_RADIUS_ATTACK;
      position, hp, alive := pos, DefaultHp(k), true;
    }

    method Damage(damage: uint32)
      modifies this
      ensures Value() == old(Value()).Damaged(damage)
    {
      hp := if hp < damage then 0 else hp - damage;
      if hp == 0 {
        alive := false;
      }
    }

    method SetPosition(pos: Position)
      modifies this`position
      ensures position == pos
    {
      position := pos;
    }
  }

  /** Hit points fall by the smaller of the damage and what is left. */
  lemma DamageIsBounded(e: EntityValue, damage: uint32)
    ensures var after := e.Damaged(damage);
            && after.hp as int == e.hp as int - (if e.hp < damage then e.hp else damage) as int
            && after.pos == e.pos && after.radius == e.radius
            && (e.alive == (e.hp > 0) ==> after.alive == (after.hp > 0))
            && (!e.alive ==> !after.alive)
  {
  }

  class EntityManager {
    const kind: Kind
    var entities: map<Id, Entity>

    /** Entries are filed under their own id and kind, so no two managers share an entity. */
    ghost predicate Valid()
      reads `entities
    {
      forall id :: id in entities ==> entities[id].id == id && entities[id].kind == kind
    }

    ghost function View(): (m: EntityMap)
      reads `entities, entities.Values
      ensures m.Keys == entities.Keys
    {
      map id | id in entities :: entities[id].Value()
    }

    lemma ViewAt(id: Id)
      ensures id in entities ==> View()[id] == entities[id].Value()
    {
    }

    constructor (k: Kind)
      ensures Valid() && kind == k && View() == map[] && entities == map[]
    {
      kind, entities := k, map[];
    }

    /** A call on one entity changes that entry of the view only. */
    twostate lemma OneEntityChanged(id: Id)
      requires old(Valid()) && entities == old(entities) && id in entities
      requires forall k :: k in entities && k != id ==> unchanged(entities[k])
      ensures View() == old(View())[id := entities[id].Value()]
    {
    }

    method AddEntity(id: Id, pos: Position) returns (ok: bool)
      requires Valid()
      modifies this
      ensures Valid() && ok == (id !in old(entities))
      ensures View() == if ok then old(View())[id := Newborn(kind, pos)] else old(View())
      ensures fresh(entities.Values - old(entities.Values))
    {
      if id in entities {
        return false;
      }
      var entity := new Entity(id, kind, pos);
      entities := entities[id := entity];
      return true;
    }

    method MoveEntity(id: Id, newPos: Position) returns (ok: bool)
      requires Valid()
      modifies entities.Values
      ensures Valid()
      ensures ok == (id in old(View()) && old(View())[id].alive)
      ensures View() == if ok then old(View())[id := old(View())[id].(pos := newPos)] else old(View())
    {
      if id !in entities || !entities[id].alive {
        return false;
      }
      entities[id].SetPosition(newPos);
      OneEntityChanged(id);
      return true;
    }

    method DamageEntity(id: Id, damage: uint32)
      requires Valid() && id in entities
      modifies entities.Values
      ensures Valid()
      ensures View() == old(View())[id := old(View())[id].Damaged(damage)]
    {
      entities[id].Damage(damage);
      OneEntityChanged(id);
    }

    method IsOccupied(pos: Position) returns (occupied: bool)
      ensures occupied == Occupied(View(), pos)
      ensures occupied <==> exists id :: id in entities && entities[id].position == pos
    {
      var rest := entities.Keys;
      while rest != {}
        invariant rest <= entities.Keys
        invariant forall id :: id in entities && id !in rest ==> entities[id].position != pos
      {
        var id :| id in rest;
        if entities[id].position == pos {
          assert View()[id].pos == pos;
          return true;
        }
        rest := rest - {id};
      }
      return false;
    }

    /** Visits the targets in any order, stopping at distance zero. */
    method FindClosestTarget(from: Position, radius: uint64, targets: EntityManager) returns (closest: Option<Id>)
      ensures Finds(targets.View(), from, radius, closest)
      ensures IsClosest(targets.View(), from, radius, closest) <==> radius != UINT64_MAX || NobodyAlive(targets.View())
      ensures radius != UINT64_MAX ==> Nearest(targets.View(), from, radius, closest)
    {
      closest := None;
      var bound := WrappedAdd(radius, 1);
      var minDist := bound;
      var rest := targets.entities.Keys;
      ghost var view := targets.View();
      while rest != {}
        invariant rest <= targets.entities.Keys && view == targets.View()
        invariant closest.None? ==> minDist == bound
        invariant closest.Some? ==> closest.value in view && InReach(view, from, radius, closest.value)
                                    && minDist == from.ManhattanDistance(view[closest.value].pos) < bound
        invariant bound != 0 ==> forall id :: id in view && id !in rest && InReach(view, from, radius, id)
                                              ==> minDist <= from.ManhattanDistance(view[id].pos)
      {
        var id :| id in rest;
        rest := rest - {id};
        var target := targets.entities[id];
        if !target.alive {
          continue;
        }
        var dist := from.ManhattanDistance(target.position);
        if dist <= radius && dist < minDist {
          minDist := dist;
          closest := Some(id);
          if dist == 0 {
            break;
          }
        }
      }
      FindsClosestIff(view, from, radius, closest);
      if radius != UINT64_MAX {
        ClosestIsNearest(view, from, radius, closest);
      }
    }

    method RemoveDeadEntities()
      requires Valid()
      modifies this
      ensures Valid()
      ensures View() == map id | id in old(View()) && old(View())[id].alive :: old(View())[id]
    {
      var rest := entities.Keys;
      while rest != {}
        invariant Valid() && rest <= entities.Keys <= old(entities.Keys)
        invariant forall id :: id in entities ==> entities[id] == old(entities[id])
        invariant forall id :: id in old(entities) && id !in rest ==> (id in entities <==> old(entities[id]).alive)
        invariant forall id :: id in rest ==> id in entities
      {
        var id :| id in rest;
        rest := rest - {id};
        if !entities[id].alive {
          entities := entities - {id};
        }
      }
    }
  }
}
