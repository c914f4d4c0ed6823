/** The client's picture of a dungeon snapshot. */
module Render {
  import opened Wrappers
  import opened Positions
  import opened GameMap
  import opened Entities
  import opened Worlds
  import opened Snapshots
  import opened Dungeons

  const MAX_MAP_CELLS: nat := 200 * 200

  datatype Refusal = InvalidCoordinates | CoordinateOverflow | TooLarge

  datatype Health = Health(id: Id, kind: Kind, hp: uint32)

  /**
   One message; or the lines of the picture followed by the total and a line per entity; or nothing,
   because the signed row counter overflows and the rows never end.
   */
  datatype Screen =
    | Refused(why: Refusal)
    | Picture(lines: seq<string>, total: nat, healths: seq<Health>)
    | RowCounterOverflow

  type Cell = (uint64, uint64)

  function CellsOf(entities: seq<EntitySnapshot>): seq<Cell> {
    seq(|entities|, i requires 0 <= i < |entities| => (entities[i].posX, entities[i].posY))
  }

  function BarrierCells(barriers: seq<BarrierSnapshot>): seq<Cell> {
    seq(|barriers|, i requires 0 <= i < |barriers| => (barriers[i].posX, barriers[i].posY))
  }

  function HealthsOf(entities: seq<EntitySnapshot>, kind: Kind): seq<Health> {
    seq(|entities|, i requires 0 <= i < |entities| => Health(entities[i].id, kind, entities[i].hp))
  }

  // ---------------------------------------------------------------------------------------
  // What the picture shows
  // ---------------------------------------------------------------------------------------

  /** Mobs hide players, and both hide barriers. */
  function Symbol(s: DungeonSnapshot, cell: Cell): char {
    if cell in CellsOf(s.mobs) then 'M'
    else if cell in CellsOf(s.players) then '@'
    else if cell in BarrierCells(s.gameMap.barriers) then 'b'
    else '.'
  }

  predicate FewCells(width: nat, height: nat) { width * height <= MAX_MAP_CELLS }

  predicate Fits(m: MapSnapshot) {
    && m.blcX <= m.trcX && m.blcY <= m.trcY
    && FewCells(m.trcX as int - m.blcX as int + 1, m.trcY as int - m.blcY as int + 1)
  }

  function Width(m: MapSnapshot): nat
    requires Fits(m)
  {
    m.trcX as int - m.blcX as int + 1
  }

  function Height(m: MapSnapshot): nat
    requires Fits(m)
  {
    m.trcY as int - m.blcY as int + 1
  }

  function Row(s: DungeonSnapshot, y: uint64): string
    requires Fits(s.gameMap)
  {
    "#" + seq(Width(s.gameMap), c requires 0 <= c < Width(s.gameMap) =>
                Symbol(s, ((s.gameMap.blcX as int + c) as uint64, y))) + "#"
  }

  /** The rows from top to bottom. */
  function RowsDown(s: DungeonSnapshot): (rows: seq<string>)
    requires Fits(s.gameMap)
    ensures |rows| == Height(s.gameMap)
    ensures forall r :: 0 <= r < |rows| ==> rows[r] == Row(s, (s.gameMap.trcY as int - r) as uint64)
  {
    hide FewCells, Row;
    seq(Height(s.gameMap), r requires 0 <= r < Height(s.gameMap) => Row(s, (s.gameMap.trcY as int - r) as uint64))
  }

  /**
   The rows counted down from the top; none if the signed loop bounds cross. The counter ends one
   below the bottom row, so for a bottom row of -2^63 it overflows.
   */
  function Rows(s: DungeonSnapshot): Option<seq<string>>
    requires Fits(s.gameMap)
  {
    var m := s.gameMap;
    if ToSigned(m.blcY) == INT64_MIN then None
    else if ToSigned(m.trcY) < ToSigned(m.blcY) then Some([])
    else Some(RowsDown(s))
  }

  const TITLE: string := "=== Game State ==="

  function Border(width: nat): string {
    seq(width + 2, _ => '#')
  }

  function Lines(rows: seq<string>, width: nat): seq<string> {
    [TITLE, Border(width)] + rows + [Border(width)]
  }

  /** The guards in the code's order, then the picture. */
  function Render(s: DungeonSnapshot): Screen {
    var m := s.gameMap;
    if m.trcX < m.blcX || m.trcY < m.blcY then Refused(InvalidCoordinates)
    else if m.trcX - m.blcX == UINT64_MAX || m.trcY - m.blcY == UINT64_MAX then Refused(CoordinateOverflow)
    else if !Fits(m) then Refused(TooLarge)
    else
      match Rows(s)
      case None => RowCounterOverflow
      case Some(rows) =>
        Picture(Lines(rows, Width(m)), |s.players| + |s.mobs|,
                HealthsOf(s.players, Player) + HealthsOf(s.mobs, Monster))
  }

  // ---------------------------------------------------------------------------------------
  // The code
  // ---------------------------------------------------------------------------------------

  lemma DivisionGuard(w: nat, h: nat)
    requires h > 0
    ensures w > MAX_MAP_CELLS / h <==> !FewCells(w, h)
  {
    ProductExceeds(w, h, MAX_MAP_CELLS);
  }

  /** Writes the symbol into the cell of every item that lies on the map. */
  method PlaceOnGrid(grid: array2<char>, m: MapSnapshot, items: seq<Cell>, symbol: char)
    requires Fits(m) && grid.Length0 == Height(m) && grid.Length1 == Width(m)
    modifies grid
    ensures forall r, c :: 0 <= r < grid.Length0 && 0 <= c < grid.Length1 ==>
              grid[r, c] == if CellAt(m, r, c) in items then symbol else old(grid[r, c])
  {
    for i := 0 to |items|
      invariant forall r, c :: 0 <= r < grid.Length0 && 0 <= c < grid.Length1 ==>
                  grid[r, c] == if CellAt(m, r, c) in items[..i] then symbol else old(grid[r, c])
    {
      var (x, y) := items[i];
      if m.blcX <= x <= m.trcX && m.blcY <= y <= m.trcY {
        grid[(y - m.blcY) as int, (x - m.blcX) as int] := symbol;
      }
      assert items[..i + 1] == items[..i] + [items[i]];
    }
    assert items[..|items|] == items;
  }

  function CellAt(m: MapSnapshot, r: nat, c: nat): Cell
    requires Fits(m) && r < Height(m) && c < Width(m)
  {
    ((m.blcX as int + c) as uint64, (m.blcY as int + r) as uint64)
  }

  /** The floor, then barriers, players and mobs. */
  method PaintGrid(s: DungeonSnapshot) returns (grid: array2<char>)
    requires Fits(s.gameMap)
    ensures fresh(grid) && grid.Length0 == Height(s.gameMap) && grid.Length1 == Width(s.gameMap)
    ensures forall r, c :: 0 <= r < grid.Length0 && 0 <= c < grid.Length1 ==>
              grid[r, c] == Symbol(s, CellAt(s.gameMap, r, c))
  {
    var m := s.gameMap;
    grid := new char[Height(m), Width(m)]((_, _) => '.');
    PlaceOnGrid(grid, m, BarrierCells(m.barriers), 'b');
    PlaceOnGrid(grid, m, CellsOf(s.players), '@');
    PlaceOnGrid(grid, m, CellsOf(s.mobs), 'M');
  }

  method GridRow(grid: array2<char>, r: nat) returns (row: string)
    requires r < grid.Length0
    ensures row == seq(grid.Length1, c requires 0 <= c < grid.Length1 reads grid => grid[r, c])
  {
    row := [];
    for c := 0 to grid.Length1
      invariant |row| == c && forall k :: 0 <= k < c ==> row[k] == grid[r, k]
    {
      row := row + [grid[r, c]];
    }
  }

  lemma RowIs(s: DungeonSnapshot, row: string, y: uint64)
    requires Fits(s.gameMap) && |row| == Width(s.gameMap)
    requires forall c :: 0 <= c < |row| ==> row[c] == Symbol(s, ((s.gameMap.blcX as int + c) as uint64, y))
    ensures "#" + row + "#" == Row(s, y)
  {
    hide Symbol;
  }

  /** Counts a signed row number down from the top to the bottom of the map; `None` if it overflows. */
  method PrintRows(s: DungeonSnapshot, grid: array2<char>) returns (printed: Option<seq<string>>)
    requires Fits(s.gameMap) && grid.Length0 == Height(s.gameMap) && grid.Length1 == Width(s.gameMap)
    requires forall r, c :: 0 <= r < grid.Length0 && 0 <= c < grid.Length1 ==>
               grid[r, c] == Symbol(s, CellAt(s.gameMap, r, c))
    ensures printed == Rows(s)
  {
    hide Symbol, Row, FewCells, RowsDown;
    var m := s.gameMap;
    var rows := [];
    var y := ToSigned(m.trcY);
    while y >= ToSigned(m.blcY)
      invariant ToSigned(m.trcY) < ToSigned(m.blcY) ==> rows == []
      invariant ToSigned(m.trcY) >= ToSigned(m.blcY) ==>
                  && |rows| <= Height(m) && y as int == ToSigned(m.trcY) as int - |rows|
                  && forall r :: 0 <= r < |rows| ==> rows[r] == Row(s, (m.trcY as int - r) as uint64)
    {
      var idx := WrappedSub(ToUnsigned(y), m.blcY) as int;
      assert idx == Height(m) - 1 - |rows|;
      var row := GridRow(grid, idx);
      RowIs(s, row, (m.trcY as int - |rows|) as uint64);
      rows := rows + ["#" + row + "#"];
      if y == INT64_MIN {
        return None;
      }
      y := y - 1;
    }
    if ToSigned(m.trcY) >= ToSigned(m.blcY) {
      assert rows == RowsDown(s);
    }
    return Some(rows);
  }

  method RenderGameState(s: DungeonSnapshot) returns (screen: Screen)
    ensures screen == Render(s)
  {
    hide Symbol, Row, RowsDown, FewCells, HealthsOf;
    var m := s.gameMap;
    if m.trcX < m.blcX || m.trcY < m.blcY {
      return Refused(InvalidCoordinates);
    }
    var diffX, diffY := m.trcX - m.blcX, m.trcY - m.blcY;
    if diffX == UINT64_MAX || diffY == UINT64_MAX {
      return Refused(CoordinateOverflow);
    }
    var w64, h64 := diffX + 1, diffY + 1;
    DivisionGuard(w64 as int, h64 as int);
    if w64 as int > MAX_MAP_CELLS / h64 as int {
      return Refused(TooLarge);
    }
    var width := w64 as int;
    var grid := PaintGrid(s);
    var lines := [TITLE];
    var border := seq(width + 2, _ => '#');
    lines := lines + [border];
    var rows := PrintRows(s, grid);
    if rows.None? {
      return RowCounterOverflow;
    }
    lines := lines + rows.value + [border];
    screen := Picture(lines, |s.players| + |s.mobs|, HealthsOf(s.players, Player) + HealthsOf(s.mobs, Monster));
  }

  // ---------------------------------------------------------------------------------------
  // Nothing is lost on screen
  // ---------------------------------------------------------------------------------------

  /** A pair of corner coordinates on both sides of zero; their unsigned readings are in the wrong order. */
  predicate Straddles(a: Area) { a.blc.x < 0 <= a.trc.x || a.blc.y < 0 <= a.trc.y }

  /** The guards let the map pass: no pair of corners straddles zero, and it is small enough. */
  predicate Accepted(a: Area) {
    && !Straddles(a)
    && a.blc.x <= a.trc.x && a.blc.y <= a.trc.y
    && FewCells(a.trc.x as int - a.blc.x as int + 1, a.trc.y as int - a.blc.y as int + 1)
  }

  /** An accepted map whose rows can be counted down. */
  predicate Displayable(a: Area) { Accepted(a) && a.blc.y != INT64_MIN }

  function UnsignedCell(p: Position): Cell {
    (ToUnsigned(p.x), ToUnsigned(p.y))
  }

  /** What stands on a cell of the world. */
  function TrueSymbol(w: World, p: Position): char {
    if Occupied(w.monsters, p) then 'M'
    else if Occupied(w.players, p) then '@'
    else if p in w.area.barriers then 'b'
    else '.'
  }

  lemma EntityCells(shown: seq<EntitySnapshot>, kind: Kind, m: EntityMap, p: Position)
    requires ShowsEntities(shown, kind, m)
    ensures UnsignedCell(p) in CellsOf(shown) <==> Occupied(m, p)
  {
    var cells := CellsOf(shown);
    if Occupied(m, p) {
      var id :| id in m && m[id].pos == p;
      var i :| 0 <= i < |shown| && shown[i].id == id;
      assert cells[i] == UnsignedCell(p);
    }
    if UnsignedCell(p) in cells {
      var i :| 0 <= i < |cells| && cells[i] == UnsignedCell(p);
      assert m[shown[i].id].pos == p;
    }
  }

  lemma BarrierCellsShown(shown: seq<BarrierSnapshot>, barriers: set<Position>, p: Position)
    requires ShowsBarriers(shown, barriers)
    ensures UnsignedCell(p) in BarrierCells(shown) <==> p in barriers
  {
    var cells := BarrierCells(shown);
    if p in barriers {
      var i :| 0 <= i < |shown| && shown[i] == SnapshotBarrier(p);
      assert cells[i] == UnsignedCell(p);
    }
    if UnsignedCell(p) in cells {
      var i :| 0 <= i < |cells| && cells[i] == UnsignedCell(p);
      assert shown[i] in shown;
      var q :| q in barriers && shown[i] == SnapshotBarrier(q);
      assert q == p;
    }
  }

  lemma SymbolIsTrue(s: DungeonSnapshot, w: World, p: Position)
    requires Shows(s, w)
    ensures Symbol(s, UnsignedCell(p)) == TrueSymbol(w, p)
  {
    EntityCells(s.mobs, Monster, w.monsters, p);
    EntityCells(s.players, Player, w.players, p);
    BarrierCellsShown(s.gameMap.barriers, w.area.barriers, p);
    hide ShowsEntities, ShowsBarriers, CellsOf, BarrierCells, Occupied;
  }

  /** The picture is drawn exactly for a displayable map, and refused exactly by the guards. */
  lemma DrawnIff(s: DungeonSnapshot, w: World)
    requires Shows(s, w) && w.area.IsCorrect()
    ensures Render(s).Picture? <==> Displayable(w.area)
    ensures Render(s).Refused? <==> !Accepted(w.area)
    ensures Displayable(w.area) ==> Fits(s.gameMap) && ToSigned(s.gameMap.trcY) >= ToSigned(s.gameMap.blcY)
  {
    hide ShowsEntities, ShowsBarriers;
    var m, a := s.gameMap, w.area;
    if m.blcX <= m.trcX && m.blcY <= m.trcY {
      assert m.trcX as int - m.blcX as int == a.trc.x as int - a.blc.x as int;
      assert m.trcY as int - m.blcY as int == a.trc.y as int - a.blc.y as int;
    }
  }

  /** Why there is no picture; the guard against an overflow of the width or height is never needed. */
  lemma NoPictureBecause(s: DungeonSnapshot, w: World)
    requires Shows(s, w) && w.area.IsCorrect()
    ensures var a := w.area;
            var cells := (a.trc.x as int - a.blc.x as int + 1) * (a.trc.y as int - a.blc.y as int + 1);
            && (Render(s) == Refused(InvalidCoordinates) <==> Straddles(a))
            && Render(s) != Refused(CoordinateOverflow)
            && (Render(s) == Refused(TooLarge) <==> !Straddles(a) && cells > 40000)
            && (Render(s) == RowCounterOverflow <==> !Straddles(a) && cells <= 40000 && a.blc.y == INT64_MIN)
  {
    hide ShowsEntities, ShowsBarriers;
    var m, a := s.gameMap, w.area;
    if m.blcX <= m.trcX && m.blcY <= m.trcY {
      assert m.trcX as int - m.blcX as int == a.trc.x as int - a.blc.x as int;
      assert m.trcY as int - m.blcY as int == a.trc.y as int - a.blc.y as int;
    }
  }

  /** A small valid map at the lower end of the number range passes the guards and is not drawn. */
  lemma LowestRowOverflows(s: DungeonSnapshot, w: World)
    requires Shows(s, w) && w.area == Area(Position(0, INT64_MIN), Position(1, INT64_MIN + 1), {})
    ensures w.area.Valid() && Accepted(w.area) && Render(s) == RowCounterOverflow
  {
    hide ShowsEntities, ShowsBarriers;
    DrawnIff(s, w);
  }

  /** The character of the picture that stands for a position of the map. */
  ghost predicate Painted(lines: seq<string>, a: Area, p: Position, c: char) {
    var line, column := 2 + a.trc.y as int - p.y as int, 1 + p.x as int - a.blc.x as int;
    0 <= line < |lines| && 0 <= column < |lines[line]| && lines[line][column] == c
  }

  /** Title, border, one line per row of the map between two border signs, border. */
  ghost predicate Framed(lines: seq<string>, width: nat, height: nat) {
    && |lines| == height + 3 && lines[0] == "=== Game State ==="
    && lines[1] == lines[height + 2] && |lines[1]| == width + 2 && (forall c :: c in lines[1] ==> c == '#')
    && forall i :: 2 <= i < height + 2 ==> |lines[i]| == width + 2 && lines[i][0] == lines[i][width + 1] == '#'
  }

  lemma FramedRows(s: DungeonSnapshot)
    requires Fits(s.gameMap)
    ensures Framed(Lines(RowsDown(s), Width(s.gameMap)), Width(s.gameMap), Height(s.gameMap))
    ensures forall r :: 0 <= r < Height(s.gameMap) ==> Lines(RowsDown(s), Width(s.gameMap))[2 + r] == RowsDown(s)[r]
  {
    hide Symbol, FewCells, RowsDown;
  }

  lemma DrawnAt(s: DungeonSnapshot, r: nat, c: nat)
    requires Fits(s.gameMap) && r < Height(s.gameMap) && c < Width(s.gameMap)
    ensures var m, lines := s.gameMap, Lines(RowsDown(s), Width(s.gameMap));
            && Framed(lines, Width(m), Height(m))
            && lines[2 + r][1 + c] == Symbol(s, ((m.blcX as int + c) as uint64, (m.trcY as int - r) as uint64))
  {
    hide Symbol, FewCells, RowsDown, Lines;
    FramedRows(s);
    var y := (s.gameMap.trcY as int - r) as uint64;
    assert RowsDown(s)[r] == Row(s, y);
    assert Row(s, y)[1 + c] == Symbol(s, ((s.gameMap.blcX as int + c) as uint64, y));
  }

  /** Row and column of a position, counted from the top left corner. */
  lemma CellOf(m: MapSnapshot, a: Area, p: Position)
    requires m.blcX == ToUnsigned(a.blc.x) && m.blcY == ToUnsigned(a.blc.y)
    requires m.trcX == ToUnsigned(a.trc.x) && m.trcY == ToUnsigned(a.trc.y)
    requires Fits(m) && Accepted(a) && a.IsInMap(p)
    ensures Width(m) == a.trc.x as int - a.blc.x as int + 1 && Height(m) == a.trc.y as int - a.blc.y as int + 1
    ensures UnsignedCell(p) == ((m.blcX as int + (p.x as int - a.blc.x as int)) as uint64,
                                (m.trcY as int - (a.trc.y as int - p.y as int)) as uint64)
  {
    hide FewCells;
  }

  lemma PictureIs(s: DungeonSnapshot, w: World)
    requires Shows(s, w) && w.area.IsCorrect() && Displayable(w.area)
    ensures Render(s).Picture? && Fits(s.gameMap) && Render(s).lines == Lines(RowsDown(s), Width(s.gameMap))
  {
    hide ShowsEntities, ShowsBarriers, RowsDown, Lines;
    DrawnIff(s, w);
  }

  /** Every cell of the map shows what stands there, and the rest of the picture is its frame. */
  lemma PaintedTrue(s: DungeonSnapshot, w: World, p: Position)
    requires Shows(s, w) && w.area.IsCorrect() && Displayable(w.area) && w.area.IsInMap(p)
    ensures Render(s).Picture? && Painted(Render(s).lines, w.area, p, TrueSymbol(w, p))
    ensures Framed(Render(s).lines, w.area.trc.x as int - w.area.blc.x as int + 1,
                   w.area.trc.y as int - w.area.blc.y as int + 1)
  {
    hide Symbol, TrueSymbol, ShowsEntities, ShowsBarriers, Render, Fits, Accepted, RowsDown, Lines;
    hide ToUnsigned, UnsignedCell;
    PictureIs(s, w);
    SymbolIsTrue(s, w, p);
    CellOf(s.gameMap, w.area, p);
    DrawnAt(s, w.area.trc.y as int - p.y as int, p.x as int - w.area.blc.x as int);
  }

  lemma AllPainted(s: DungeonSnapshot, w: World)
    requires Shows(s, w) && w.area.IsCorrect() && Displayable(w.area)
    ensures Render(s).Picture?
    ensures forall p :: w.area.IsInMap(p) ==> Painted(Render(s).lines, w.area, p, TrueSymbol(w, p))
    ensures Framed(Render(s).lines, w.area.trc.x as int - w.area.blc.x as int + 1,
                   w.area.trc.y as int - w.area.blc.y as int + 1)
  {
    hide TrueSymbol, Shows, Render, Accepted, Painted, Framed;
    PaintedTrue(s, w, w.area.blc);
    forall p | w.area.IsInMap(p)
      ensures Painted(Render(s).lines, w.area, p, TrueSymbol(w, p))
    {
      PaintedTrue(s, w, p);
    }
  }

  /** The position that row `r` and column `c` of the picture stand for. */
  function PlaceOf(a: Area, r: nat, c: nat): Position
    requires a.IsCorrect()
    requires r <= a.trc.y as int - a.blc.y as int && c <= a.trc.x as int - a.blc.x as int
  {
    Position((a.blc.x as int + c) as int64, (a.trc.y as int - r) as int64)
  }

  /** Every place inside the frame stands for a position of the map, and shows what stands there. */
  ghost predicate EveryPlaceShown(lines: seq<string>, w: World)
    requires w.area.IsCorrect()
  {
    forall r: nat, c: nat ::
      r <= w.area.trc.y as int - w.area.blc.y as int && c <= w.area.trc.x as int - w.area.blc.x as int ==>
      var p := PlaceOf(w.area, r, c);
      && w.area.IsInMap(p)
      && 2 + r < |lines| && 1 + c < |lines[2 + r]| && lines[2 + r][1 + c] == TrueSymbol(w, p)
  }

  lemma PlacesShown(lines: seq<string>, w: World)
    requires w.area.IsCorrect()
    requires forall p :: w.area.IsInMap(p) ==> Painted(lines, w.area, p, TrueSymbol(w, p))
    ensures EveryPlaceShown(lines, w)
  {
    hide TrueSymbol;
    forall r: nat, c: nat |
      r <= w.area.trc.y as int - w.area.blc.y as int && c <= w.area.trc.x as int - w.area.blc.x as int
      ensures var p := PlaceOf(w.area, r, c);
              && w.area.IsInMap(p)
              && 2 + r < |lines| && 1 + c < |lines[2 + r]| && lines[2 + r][1 + c] == TrueSymbol(w, p)
    {
      var p := PlaceOf(w.area, r, c);
      assert Painted(lines, w.area, p, TrueSymbol(w, p));
    }
  }

  /** Exactly one line tells the hit points of the entity. */
  ghost predicate HasLine(healths: seq<Health>, kind: Kind, id: Id, hp: uint32) {
    exists i :: 0 <= i < |healths| && healths[i] == Health(id, kind, hp)
                && forall j :: 0 <= j < |healths| && healths[j].id == id && healths[j].kind == kind ==> j == i
  }

  /** The number of entities, and below it one line for each of them, with its own hit points. */
  lemma HealthsAreTrue(s: DungeonSnapshot, w: World)
    requires Shows(s, w) && Render(s).Picture?
    ensures Render(s).total == |Render(s).healths| == |w.players| + |w.monsters|
    ensures forall id :: id in w.players ==> HasLine(Render(s).healths, Player, id, w.players[id].hp)
    ensures forall id :: id in w.monsters ==> HasLine(Render(s).healths, Monster, id, w.monsters[id].hp)
  {
    hide Shows, ShowsBarriers, ShowsEntities, Fits, Rows, Lines, HealthsOf, HasLine, Tells;
    SnapshotIsTrue(s, w);
    var players, mobs := HealthsOf(s.players, Player), HealthsOf(s.mobs, Monster);
    HealthsList(s.players, Player);
    HealthsList(s.mobs, Monster);
    var healths := players + mobs;
    forall id | id in w.players
      ensures HasLine(healths, Player, id, w.players[id].hp)
    {
      PlayerLine(s.players, healths, id, w.players[id]);
    }
    forall id | id in w.monsters
      ensures HasLine(healths, Monster, id, w.monsters[id].hp)
    {
      MonsterLine(s.mobs, healths, |players|, id, w.monsters[id]);
    }
  }

  lemma PlayerLine(shown: seq<EntitySnapshot>, healths: seq<Health>, id: Id, e: EntityValue)
    requires Tells(shown, Player, id, e) && |shown| <= |healths|
    requires forall i :: 0 <= i < |shown| ==> healths[i] == Health(shown[i].id, Player, shown[i].hp)
    requires forall i :: |shown| <= i < |healths| ==> healths[i].kind == Monster
    ensures HasLine(healths, Player, id, e.hp)
  {
    var i :| 0 <= i < |shown| && shown[i].id == id;
    assert healths[i] == Health(id, Player, e.hp);
  }

  lemma MonsterLine(shown: seq<EntitySnapshot>, healths: seq<Health>, first: nat, id: Id, e: EntityValue)
    requires Tells(shown, Monster, id, e) && first + |shown| == |healths|
    requires forall i :: 0 <= i < |shown| ==> healths[first + i] == Health(shown[i].id, Monster, shown[i].hp)
    requires forall i :: 0 <= i < first ==> healths[i].kind == Player
    ensures HasLine(healths, Monster, id, e.hp)
  {
    var i :| 0 <= i < |shown| && shown[i].id == id;
    assert healths[first + i] == Health(id, Monster, e.hp);
    forall j | first <= j < |healths| && healths[j].id == id
      ensures j == first + i
    {
      assert healths[first + (j - first)] == Health(shown[j - first].id, Monster, shown[j - first].hp);
    }
  }

  lemma HealthsList(shown: seq<EntitySnapshot>, kind: Kind)
    ensures |HealthsOf(shown, kind)| == |shown|
    ensures forall i :: 0 <= i < |shown| ==> HealthsOf(shown, kind)[i] == Health(shown[i].id, kind, shown[i].hp)
  {
  }

  /**
   For every reachable dungeon whose map is displayable: the picture is a frame around one cell for
   each position of the map, which shows what stands there. It shows a `@` where a player is, an `M`
   where a monster is, a `b` on every barrier, and nowhere else; each `@` or `M` stands for one
   entity only.
   */
  lemma NothingIsLost(area: Area, history: seq<Action>, spawns: nat, w: World, s: DungeonSnapshot)
    requires area.Valid() && Recorded(area, history, spawns, w) && Shows(s, w)
    ensures Render(s).Picture? <==> Displayable(area)
    ensures Displayable(area) ==>
              var lines := Render(s).lines;
              && Framed(lines, area.trc.x as int - area.blc.x as int + 1, area.trc.y as int - area.blc.y as int + 1)
              && (forall p :: area.IsInMap(p) ==> Painted(lines, area, p, TrueSymbol(w, p)))
              && w.area == area && EveryPlaceShown(lines, w)
              && (forall id :: id in w.players ==> Painted(lines, area, w.players[id].pos, '@'))
              && (forall id :: id in w.monsters ==> Painted(lines, area, w.monsters[id].pos, 'M'))
              && (forall p :: p in area.barriers ==> Painted(lines, area, p, 'b'))
              && (forall p :: Available(w, p) ==> Painted(lines, area, p, '.'))
              && (forall p :: area.IsInMap(p) && Painted(lines, area, p, '@') ==> OneAt(w.players, p))
              && (forall p :: area.IsInMap(p) && Painted(lines, area, p, 'M') ==> OneAt(w.monsters, p))
              && (forall p :: area.IsInMap(p) && Painted(lines, area, p, 'b') ==> p in area.barriers)
    ensures Displayable(area) ==>
              && Render(s).total == |Render(s).healths| == |w.players| + |w.monsters|
              && (forall id :: id in w.players ==> HasLine(Render(s).healths, Player, id, w.players[id].hp))
              && (forall id :: id in w.monsters ==> HasLine(Render(s).healths, Monster, id, w.monsters[id].hp))
  {
    hide Render, Shows, Recorded, TrueSymbol, Sound, Framed, Accepted, OneAt, HasLine, EveryPlaceShown, Available;
    RecordedIsSound(area, history, spawns, w);
    DrawnIff(s, w);
    if Displayable(area) {
      AllPainted(s, w);
      PlacesShown(Render(s).lines, w);
      SoundSymbols(w);
      HealthsAreTrue(s, w);
    }
  }

  /** Exactly one entity of the kind stands there. */
  ghost predicate OneAt(m: EntityMap, p: Position) {
    exists id :: id in m && m[id].pos == p && forall other :: other in m && m[other].pos == p ==> other == id
  }

  lemma SoundSymbols(w: World)
    requires Sound(w) && w.area.Valid()
    ensures forall id :: id in w.players ==>
              w.area.IsInMap(w.players[id].pos) && TrueSymbol(w, w.players[id].pos) == '@'
    ensures forall id :: id in w.monsters ==>
              w.area.IsInMap(w.monsters[id].pos) && TrueSymbol(w, w.monsters[id].pos) == 'M'
    ensures forall p :: p in w.area.barriers ==> w.area.IsInMap(p) && TrueSymbol(w, p) == 'b'
    ensures forall p :: Available(w, p) ==> w.area.IsInMap(p) && TrueSymbol(w, p) == '.'
    ensures forall p :: TrueSymbol(w, p) == '@' ==> OneAt(w.players, p)
    ensures forall p :: TrueSymbol(w, p) == 'M' ==> OneAt(w.monsters, p)
    ensures forall p :: TrueSymbol(w, p) == 'b' ==> p in w.area.barriers
  {
  }
}
