/** The picture of a dungeon that is sent to the clients, in unsigned words. */
module Snapshots {
  import opened Wrappers
  import opened Positions
  import opened GameMap
  import opened Entities
  import opened Worlds

  datatype EntitySnapshot = EntitySnapshot(kind: Kind, alive: bool, id: Id, posX: uint64, posY: uint64, hp: uint32)
  datatype BarrierSnapshot = BarrierSnapshot(posX: uint64, posY: uint64)
  datatype MapSnapshot = MapSnapshot(blcX: uint64, blcY: uint64, trcX: uint64, trcY: uint64,
                                     barriers: seq<BarrierSnapshot>)
  datatype DungeonSnapshot = DungeonSnapshot(gameMap: MapSnapshot, players: seq<EntitySnapshot>,
                                             mobs: seq<EntitySnapshot>)

  function SnapshotEntity(kind: Kind, id: Id, e: EntityValue): EntitySnapshot {
    EntitySnapshot(kind, e.alive, id, ToUnsigned(e.pos.x), ToUnsigned(e.pos.y), e.hp)
  }

  function SnapshotBarrier(p: Position): BarrierSnapshot {
    BarrierSnapshot(ToUnsigned(p.x), ToUnsigned(p.y))
  }

  /** Every entity of the map once, in some order. */
  ghost predicate ShowsEntities(shown: seq<EntitySnapshot>, kind: Kind, m: EntityMap) {
    && (forall i :: 0 <= i < |shown| ==>
          shown[i].id in m && shown[i] == SnapshotEntity(kind, shown[i].id, m[shown[i].id]))
    && (forall id :: id in m ==> exists i :: 0 <= i < |shown| && shown[i].id == id)
    && (forall i, j :: 0 <= i < j < |shown| ==> shown[i].id != shown[j].id)
  }

  ghost predicate ShowsBarriers(shown: seq<BarrierSnapshot>, barriers: set<Position>) {
    && (forall b :: b in shown ==> exists p :: p in barriers && b == SnapshotBarrier(p))
    && (forall p :: p in barriers ==> SnapshotBarrier(p) in shown)
    && (forall i, j :: 0 <= i < j < |shown| ==> shown[i] != shown[j])
  }

  /** The one entry of an entity tells its kind, life, hit points and, read back as signed, its position. */
  ghost predicate Tells(shown: seq<EntitySnapshot>, kind: Kind, id: Id, e: EntityValue) {
    && (exists i :: 0 <= i < |shown| && shown[i].id == id)
    && (forall i, j :: 0 <= i < |shown| && 0 <= j < |shown| && shown[i].id == id && shown[j].id == id ==> i == j)
    && forall i :: 0 <= i < |shown| && shown[i].id == id ==>
         && shown[i].kind == kind && shown[i].alive == e.alive && shown[i].hp == e.hp
         && ToSigned(shown[i].posX) == e.pos.x && ToSigned(shown[i].posY) == e.pos.y
  }

  ghost predicate Shows(s: DungeonSnapshot, w: World) {
    && s.gameMap.blcX == ToUnsigned(w.area.blc.x) && s.gameMap.blcY == ToUnsigned(w.area.blc.y)
    && s.gameMap.trcX == ToUnsigned(w.area.trc.x) && s.gameMap.trcY == ToUnsigned(w.area.trc.y)
    && ShowsBarriers(s.gameMap.barriers, w.area.barriers)
    && ShowsEntities(s.players, Player, w.players)
    && ShowsEntities(s.mobs, Monster, w.monsters)
  }

  method SnapshotEntities(manager: EntityManager) returns (shown: seq<EntitySnapshot>)
    ensures ShowsEntities(shown, manager.kind, manager.View())
  {
    shown := [];
    var rest := manager.entities.Keys;
    while rest != {}
      invariant rest <= manager.entities.Keys
      invariant forall i :: 0 <= i < |shown| ==> shown[i].id in manager.entities && shown[i].id !in rest
      invariant forall i :: 0 <= i < |shown| ==>
                  shown[i] == SnapshotEntity(manager.kind, shown[i].id, manager.entities[shown[i].id].Value())
      invariant forall id :: id in manager.entities && id !in rest ==> exists i :: 0 <= i < |shown| && shown[i].id == id
      invariant forall i, j :: 0 <= i < j < |shown| ==> shown[i].id != shown[j].id
    {
      var id :| id in rest;
      var e := manager.entities[id];
      ghost var before := shown;
      var x, y := ToUnsigned(e.position.x), ToUnsigned(e.position.y);
      shown := shown + [EntitySnapshot(manager.kind, e.alive, id, x, y, e.hp)];
      rest := rest - {id};
      assert shown[|before|].id == id;
      assert forall i :: 0 <= i < |before| ==> shown[i] == before[i];
    }
  }

  method SnapshotBarriers(barriers: set<Position>) returns (shown: seq<BarrierSnapshot>)
    ensures ShowsBarriers(shown, barriers)
  {
    shown := [];
    var rest := barriers;
    while rest != {}
      invariant rest <= barriers
      invariant forall b :: b in shown ==> exists p :: p in barriers && b == SnapshotBarrier(p)
      invariant forall p :: p in barriers && p !in rest ==> SnapshotBarrier(p) in shown
      invariant forall p :: p in rest ==> SnapshotBarrier(p) !in shown
      invariant forall i, j :: 0 <= i < j < |shown| ==> shown[i] != shown[j]
    {
      var p :| p in rest;
      var b := BarrierSnapshot(ToUnsigned(p.x), ToUnsigned(p.y));
      assert b == SnapshotBarrier(p);
      shown := shown + [b];
      rest := rest - {p};
    }
  }

  method CreateGameState(area: Area, players: EntityManager, monsters: EntityManager) returns (s: DungeonSnapshot)
    requires players.kind == Player && monsters.kind == Monster
    ensures Shows(s, World(area, players.View(), monsters.View()))
  {
    var barriers := SnapshotBarriers(area.barriers);
    var shownPlayers := SnapshotEntities(players);
    var shownMobs := SnapshotEntities(monsters);
    s := DungeonSnapshot(MapSnapshot(ToUnsigned(area.blc.x), ToUnsigned(area.blc.y),
                                     ToUnsigned(area.trc.x), ToUnsigned(area.trc.y), barriers),
                         shownPlayers, shownMobs);
  }

  lemma EntriesTell(shown: seq<EntitySnapshot>, kind: Kind, m: EntityMap)
    requires ShowsEntities(shown, kind, m)
    ensures |shown| == |m|
    ensures forall id :: id in m ==> Tells(shown, kind, id, m[id])
    ensures forall i :: 0 <= i < |shown| ==> shown[i].id in m
  {
    forall id | id in m
      ensures Tells(shown, kind, id, m[id])
    {
      SignedAgain(m[id].pos.x);
      SignedAgain(m[id].pos.y);
    }
    var ids := seq(|shown|, i requires 0 <= i < |shown| => shown[i].id);
    forall id | id in m
      ensures id in ids
    {
      var i :| 0 <= i < |shown| && shown[i].id == id;
      assert ids[i] == id;
    }
    ListingSize(ids, m.Keys);
    assert |m| == |m.Keys|;
  }

  /**
   The snapshot tells the whole world and nothing else: corners and barriers, and for each entity one
   entry with its kind, life, hit points and position.
   */
  lemma SnapshotIsTrue(s: DungeonSnapshot, w: World)
    requires Shows(s, w)
    ensures ToSigned(s.gameMap.blcX) == w.area.blc.x && ToSigned(s.gameMap.blcY) == w.area.blc.y
    ensures ToSigned(s.gameMap.trcX) == w.area.trc.x && ToSigned(s.gameMap.trcY) == w.area.trc.y
    ensures forall p :: p in w.area.barriers <==>
              exists b :: b in s.gameMap.barriers && ToSigned(b.posX) == p.x && ToSigned(b.posY) == p.y
    ensures |s.gameMap.barriers| == |w.area.barriers|
    ensures |s.players| == |w.players| && forall id :: id in w.players ==> Tells(s.players, Player, id, w.players[id])
    ensures |s.mobs| == |w.monsters| && forall id :: id in w.monsters ==> Tells(s.mobs, Monster, id, w.monsters[id])
  {
    hide ShowsEntities, ShowsBarriers, Tells;
    SignedAgain(w.area.blc.x);
    SignedAgain(w.area.blc.y);
    SignedAgain(w.area.trc.x);
    SignedAgain(w.area.trc.y);
    BarriersTell(s.gameMap.barriers, w.area.barriers);
    EntriesTell(s.players, Player, w.players);
    EntriesTell(s.mobs, Monster, w.monsters);
  }

  lemma BarriersTell(shown: seq<BarrierSnapshot>, barriers: set<Position>)
    requires ShowsBarriers(shown, barriers)
    ensures forall p :: p in barriers <==> exists b :: b in shown && ToSigned(b.posX) == p.x && ToSigned(b.posY) == p.y
    ensures |shown| == |barriers|
  {
    forall p: Position
      ensures SnapshotBarrier(p).posX == ToUnsigned(p.x) && ToSigned(SnapshotBarrier(p).posX) == p.x
      ensures ToSigned(SnapshotBarrier(p).posY) == p.y
    {
      SignedAgain(p.x);
      SignedAgain(p.y);
    }
    var cells := seq(|shown|, i requires 0 <= i < |shown| =>
                       Position(ToSigned(shown[i].posX), ToSigned(shown[i].posY)));
    forall i | 0 <= i < |shown|
      ensures cells[i] in barriers && shown[i] == SnapshotBarrier(cells[i])
    {
      assert shown[i] in shown;
      var p :| p in barriers && shown[i] == SnapshotBarrier(p);
      assert cells[i] == p;
    }
    forall p | p in barriers
      ensures p in cells
    {
      var i :| 0 <= i < |shown| && shown[i] == SnapshotBarrier(p);
      assert cells[i] == p;
    }
    ListingSize(cells, barriers);
    forall p | p in barriers
      ensures exists b :: b in shown && ToSigned(b.posX) == p.x && ToSigned(b.posY) == p.y
    {
      assert SnapshotBarrier(p) in shown;
    }
    forall b, p: Position | b in shown && ToSigned(b.posX) == p.x && ToSigned(b.posY) == p.y
      ensures p in barriers
    {
      var i :| 0 <= i < |shown| && shown[i] == b;
      assert cells[i] == p;
    }
  }
}
