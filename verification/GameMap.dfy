/** The rectangular map with its barriers. */
module GameMap {
  import opened Positions

  /** A map as a value, which is how a dungeon receives it. */
  datatype Area = Area(blc: Position, trc: Position, barriers: set<Position>) {
    predicate IsCorrect() { blc.x < trc.x && blc.y < trc.y }

    predicate IsInMap(p: Position) { p.x >= blc.x && p.y >= blc.y && p.x <= trc.x && p.y <= trc.y }

    predicate IsBarrier(p: Position) { p in barriers }

    predicate IsAvailable(p: Position) { IsInMap(p) && !IsBarrier(p) }

    /** Every barrier lies on the map. */
    predicate Valid() { IsCorrect() && forall p :: p in barriers ==> IsInMap(p) }
  }

  /** Both corners and the edges between them belong to the map. */
  lemma CornersAreOnMap(a: Area)
    requires a.IsCorrect()
    ensures a.IsInMap(a.blc) && a.IsInMap(a.trc)
    ensures a.IsInMap(Position(a.blc.x, a.trc.y)) && a.IsInMap(Position(a.trc.x, a.blc.y))
  {
  }

  /** A position is on the map exactly if it lies on a shortest way between the corners. */
  lemma OnMapIff(a: Area, p: Position)
    requires a.IsCorrect()
    ensures a.IsInMap(p) <==> TrueDistance(a.blc, p) + TrueDistance(p, a.trc) == TrueDistance(a.blc, a.trc)
  {
  }

  class Map {
    const blc: Position
    const trc: Position
    var barriers: set<Position>

    function Value(): Area
      reads this
    {
      Area(blc, trc, barriers)
    }

    constructor (bottomLeft: Position, topRight: Position)
      requires bottomLeft.x < topRight.x && bottomLeft.y < topRight.y
      ensures Value() == Area(bottomLeft, topRight, {}) && Value().Valid()
    {
      blc, trc, barriers := bottomLeft, topRight, {};
    }

    /** Adds exactly a free cell of the map. */
    method AddBarrier(p: Position) returns (ok: bool)
      requires Value().Valid()
      modifies this
      ensures Value().Valid()
      ensures ok == old(Value()).IsAvailable(p)
      ensures barriers == if ok then old(barriers) + {p} else old(barriers)
    {
      if !Value().IsInMap(p) {
        return false;
      }
      if p in barriers {
        return false;
      }
      barriers := barriers + {p};
      return true;
    }

    method RemoveBarrier(p: Position) returns (ok: bool)
      requires Value().Valid()
      modifies this
      ensures Value().Valid()
      ensures ok == (p in old(barriers))
      ensures barriers == old(barriers) - {p}
    {
      ok := p in barriers;
      barriers := barriers - {p};
    }
  }
}
