/** The game field (class GameField): a `height x width` matrix of cell
    statuses and the registry of the ships placed on it. */
module Field {
  import opened Results
  import Ships
  import Manager

  /** CellStatus: `Ship` marks a cell a ship was placed on and that no
      attack has cleared yet. */
  datatype CellStatus = Unknown | Empty | Ship

  /** Rows indexed by y, columns by x: `cells[y][x]`. */
  type Grid = seq<seq<CellStatus>>

  datatype Pos = Pos(x: nat, y: nat)

  datatype GameField = GameField(width: nat, height: nat, cells: Grid, manager: Manager.ShipManager)

  ghost predicate Shaped(cells: Grid, width: nat, height: nat) {
    |cells| == height && forall y :: 0 <= y < height ==> |cells[y]| == width
  }

  /** What the constructor guarantees of every field it returns. */
  ghost predicate Valid(f: GameField) {
    f.width >= 1 && f.height >= 1 && Shaped(f.cells, f.width, f.height)
  }

  predicate InGrid(f: GameField, p: Pos) {
    p.x < f.width && p.y < f.height
  }

  /** The cell `j` steps from `(x, y)` along `ori`: the `tx, ty` of the
      loops in placeShip and attackCell. */
  function Step(ori: Ships.Orientation, x: nat, y: nat, j: nat): Pos {
    if ori == Ships.Horizontal then Pos(x + j, y) else Pos(x, y + j)
  }

  /** The footprint of a ship of length `len` anchored at `(x, y)`, as a
      set of cells: the reference the offset loops are checked against. */
  predicate OnFootprint(ori: Ships.Orientation, x: nat, y: nat, len: nat, p: Pos) {
    match ori
    case Horizontal => p.y == y && x <= p.x < x + len
    case Vertical => p.x == x && y <= p.y < y + len
  }

  /** The grid with the cell at `p` set to `v`. */
  function SetCell(cells: Grid, p: Pos, v: CellStatus): (r: Grid)
    requires p.y < |cells| && p.x < |cells[p.y]|
    ensures |r| == |cells|
    ensures forall y :: 0 <= y < |cells| ==> |r[y]| == |cells[y]|
    ensures forall y, x :: 0 <= y < |cells| && 0 <= x < |cells[y]| ==>
      r[y][x] == if Pos(x, y) == p then v else cells[y][x]
  {
    cells[p.y := cells[p.y][p.x := v]]
  }

  /** GameField(w, h): invalid argument iff a dimension is 0; otherwise an
      all-Unknown field with an empty registry. */
  function NewField(w: nat, h: nat): (r: Result<GameField>)
    ensures r.Err? <==> w < 1 || h < 1
    ensures r.Err? ==> r.error == InvalidArgument
    ensures r.Ok? ==> Valid(r.value) && r.value.width == w && r.value.height == h
    ensures r.Ok? ==> forall y, x :: 0 <= y < h && 0 <= x < w ==> r.value.cells[y][x] == Unknown
    ensures r.Ok? ==> r.value.manager.ships == []
  {
    if w < 1 || h < 1 then Err(InvalidArgument)
    else Ok(GameField(w, h, seq(h, _ => seq(w, _ => Unknown)), Manager.EmptyManager))
  }

  // ---------------------------------------------------------------------
  // Probing cells along an orientation

  /** Cell statuses a placement may not reuse: everything but Unknown. */
  const Taken: set<CellStatus> := {Empty, Ship}

  /** Cell statuses an attack looks for. */
  const Afloat: set<CellStatus> := {Ship}

  /** Outcome of walking offsets along an orientation: the first offset
      whose cell is in the stop set, no such offset, or an offset that
      leaves the grid before either (an out-of-bounds read in C++). */
  datatype Probe = Found(offset: nat) | Clear | OffGrid

  /** The probe at offset `j` is inside the grid and not in `stop`. */
  ghost predicate Misses(f: GameField, ori: Ships.Orientation, x: nat, y: nat, j: nat, stop: set<CellStatus>)
    requires Valid(f)
  {
    var p := Step(ori, x, y, j);
    InGrid(f, p) && f.cells[p.y][p.x] !in stop
  }

  /** The probe at offset `j` is inside the grid and in `stop`. */
  ghost predicate Hits(f: GameField, ori: Ships.Orientation, x: nat, y: nat, j: nat, stop: set<CellStatus>)
    requires Valid(f)
  {
    var p := Step(ori, x, y, j);
    InGrid(f, p) && f.cells[p.y][p.x] in stop
  }

  /** Every offset in `[from, to)` misses. */
  ghost predicate ClearBetween(f: GameField, ori: Ships.Orientation, x: nat, y: nat, from: nat, to: nat, stop: set<CellStatus>)
    requires Valid(f)
  {
    forall m :: from <= m < to ==> Misses(f, ori, x, y, m, stop)
  }

  /** The offset loop shared by placeShip's collision check and
      attackCell: offsets `j, j+1, ..., len-1` in order, stopping at the
      first cell in `stop`. */
  function Scan(f: GameField, ori: Ships.Orientation, x: nat, y: nat, len: nat, j: nat, stop: set<CellStatus>): (r: Probe)
    requires Valid(f)
    ensures r.Found? ==> j <= r.offset < len && Hits(f, ori, x, y, r.offset, stop)
                         && ClearBetween(f, ori, x, y, j, r.offset, stop)
    ensures r.Clear? ==> ClearBetween(f, ori, x, y, j, len, stop)
    ensures r.OffGrid? ==> exists k :: j <= k < len && !InGrid(f, Step(ori, x, y, k))
                                       && ClearBetween(f, ori, x, y, j, k, stop)
    decreases len - j
  {
    if j >= len then Clear
    else
      var p := Step(ori, x, y, j);
      if !InGrid(f, p) then OffGrid
      else if f.cells[p.y][p.x] in stop then Found(j)
      else Scan(f, ori, x, y, len, j + 1, stop)
  }

  // ---------------------------------------------------------------------
  // placeShip

  /** The result of placeShip: the field afterwards and the returned flag. */
  datatype Placed = Placed(field: GameField, placed: bool)

  /** The footprint lies inside the grid: the bounds check of placeShip
      along the ship's axis, together with the check of the other
      coordinate that the C++ code leaves out. A ship of length 0 has no
      cells to read, so for it only the axis check applies, as in C++. */
  predicate Fits(f: GameField, ori: Ships.Orientation, x: nat, y: nat, len: nat) {
    match ori
    case Horizontal => x + len <= f.width && (len > 0 ==> y < f.height)
    case Vertical => y + len <= f.height && (len > 0 ==> x < f.width)
  }

  /** Every footprint cell inside the grid is Unknown. */
  ghost predicate FootprintFree(f: GameField, ori: Ships.Orientation, x: nat, y: nat, len: nat)
    requires Valid(f)
  {
    forall cy, cx :: 0 <= cy < f.height && 0 <= cx < f.width && OnFootprint(ori, x, y, len, Pos(cx, cy))
      ==> f.cells[cy][cx] == Unknown
  }

  /** Offsets `0..len-1` are all inside the grid. */
  ghost predicate ProbesInGrid(f: GameField, ori: Ships.Orientation, x: nat, y: nat, len: nat) {
    forall j :: 0 <= j < len ==> InGrid(f, Step(ori, x, y, j))
  }

  /** The cells at offsets `0..n-1` set to Ship, in increasing offset
      order like the marking loop of placeShip. */
  function Mark(f: GameField, ori: Ships.Orientation, x: nat, y: nat, n: nat): (r: Grid)
    requires Valid(f) && ProbesInGrid(f, ori, x, y, n)
    ensures Shaped(r, f.width, f.height)
    ensures forall cy, cx :: 0 <= cy < f.height && 0 <= cx < f.width ==>
      r[cy][cx] == if OnFootprint(ori, x, y, n, Pos(cx, cy)) then Ship else f.cells[cy][cx]
    decreases n
  {
    if n == 0 then f.cells
    else SetCell(Mark(f, ori, x, y, n - 1), Step(ori, x, y, n - 1), Ship)
  }

  /** The successful end of placeShip (Game.cpp:216-224): mark the
      footprint, register a copy. A helper of the PlaceShip and
      PlaceShipAsWritten rows, which state its effect. */
  function Commit(f: GameField, ship: Ships.Ship, x: nat, y: nat): (r: Placed)
    requires Valid(f) && ProbesInGrid(f, ship.orientation, x, y, ship.Length())
    ensures Valid(r.field) && r.placed
    ensures r.field.width == f.width && r.field.height == f.height
    ensures r.field.manager.ships == f.manager.ships + [ship]
    ensures forall cy, cx :: 0 <= cy < f.height && 0 <= cx < f.width ==>
      r.field.cells[cy][cx] ==
        if OnFootprint(ship.orientation, x, y, ship.Length(), Pos(cx, cy)) then Ship else f.cells[cy][cx]
  {
    Placed(GameField(f.width, f.height, Mark(f, ship.orientation, x, y, ship.Length()),
                     Manager.AddShip(f.manager, ship)), true)
  }

  /** A footprint that fits has every offset inside the grid; for a ship
      of at least one segment the converse holds too. */
  lemma FitsIffProbesInGrid(f: GameField, ori: Ships.Orientation, x: nat, y: nat, len: nat)
    ensures Fits(f, ori, x, y, len) ==> ProbesInGrid(f, ori, x, y, len)
    ensures len >= 1 && ProbesInGrid(f, ori, x, y, len) ==> Fits(f, ori, x, y, len)
  {
    if len >= 1 && ProbesInGrid(f, ori, x, y, len) {
      assert InGrid(f, Step(ori, x, y, 0));
      assert InGrid(f, Step(ori, x, y, len - 1));
    }
  }

  /** Offsets the loop walked past without stopping were inside the grid. */
  lemma ClearInGrid(f: GameField, ori: Ships.Orientation, x: nat, y: nat, len: nat, stop: set<CellStatus>)
    requires Valid(f) && ClearBetween(f, ori, x, y, 0, len, stop)
    ensures ProbesInGrid(f, ori, x, y, len)
  {
    forall j | 0 <= j < len
      ensures InGrid(f, Step(ori, x, y, j))
    {
      assert Misses(f, ori, x, y, j, stop);
    }
  }

  /** From offset `j` on, the loop stops at a cell in `stop` exactly when
      some offset hits with every earlier one (from `j`) missing, and runs
      off the grid exactly when some offset is outside with every earlier
      one missing. */
  lemma {:induction false} ScanExactFrom(f: GameField, ori: Ships.Orientation, x: nat, y: nat, len: nat, j: nat,
                                         stop: set<CellStatus>)
    requires Valid(f)
    ensures Scan(f, ori, x, y, len, j, stop).Found? <==>
      exists k :: j <= k < len && Hits(f, ori, x, y, k, stop) && ClearBetween(f, ori, x, y, j, k, stop)
    ensures Scan(f, ori, x, y, len, j, stop).OffGrid? <==>
      exists k :: j <= k < len && !InGrid(f, Step(ori, x, y, k)) && ClearBetween(f, ori, x, y, j, k, stop)
    decreases len - j
  {
    if j < len {
      var p := Step(ori, x, y, j);
      if !InGrid(f, p) {
        assert !Hits(f, ori, x, y, j, stop) && !Misses(f, ori, x, y, j, stop);
        assert ClearBetween(f, ori, x, y, j, j, stop);
      } else if f.cells[p.y][p.x] in stop {
        assert Hits(f, ori, x, y, j, stop) && !Misses(f, ori, x, y, j, stop);
        assert ClearBetween(f, ori, x, y, j, j, stop);
      } else {
        ScanExactFrom(f, ori, x, y, len, j + 1, stop);
        assert Misses(f, ori, x, y, j, stop) && !Hits(f, ori, x, y, j, stop);
        forall k | j < k <= len
          ensures ClearBetween(f, ori, x, y, j, k, stop) <==> ClearBetween(f, ori, x, y, j + 1, k, stop)
        {
        }
      }
    }
  }

  /** The offset loop finds no taken cell exactly when the footprint, read
      as a set of cells, is free. */
  lemma ClearIffFree(f: GameField, ori: Ships.Orientation, x: nat, y: nat, len: nat)
    requires Valid(f) && ProbesInGrid(f, ori, x, y, len)
    ensures ClearBetween(f, ori, x, y, 0, len, Taken) <==> FootprintFree(f, ori, x, y, len)
  {
    if ClearBetween(f, ori, x, y, 0, len, Taken) {
      forall cy, cx | 0 <= cy < f.height && 0 <= cx < f.width && OnFootprint(ori, x, y, len, Pos(cx, cy))
        ensures f.cells[cy][cx] == Unknown
      {
        var j := if ori == Ships.Horizontal then cx - x else cy - y;
        assert Step(ori, x, y, j) == Pos(cx, cy);
        assert Misses(f, ori, x, y, j, Taken);
      }
    }
    if FootprintFree(f, ori, x, y, len) {
      forall m | 0 <= m < len
        ensures Misses(f, ori, x, y, m, Taken)
      {
        var p := Step(ori, x, y, m);
        assert InGrid(f, p);
        assert OnFootprint(ori, x, y, len, p);
      }
    }
  }

  /** GameField::placeShip. Refuses (returns false, field and registry
      untouched) when the footprint does not fit or hits a cell that is
      not Unknown; otherwise sets exactly the footprint cells to Ship and
      appends the ship to the registry. */
  function PlaceShip(f: GameField, ship: Ships.Ship, x: nat, y: nat): (r: Placed)
    requires Valid(f)
    ensures Valid(r.field) && r.field.width == f.width && r.field.height == f.height
    ensures r.placed <==> Fits(f, ship.orientation, x, y, ship.Length())
                          && FootprintFree(f, ship.orientation, x, y, ship.Length())
    ensures !r.placed ==> r.field == f
    ensures r.placed ==> r.field.manager.ships == f.manager.ships + [ship]
    ensures r.placed ==> forall cy, cx :: 0 <= cy < f.height && 0 <= cx < f.width ==>
      r.field.cells[cy][cx] ==
        if OnFootprint(ship.orientation, x, y, ship.Length(), Pos(cx, cy)) then Ship else f.cells[cy][cx]
  {
    var ori, len := ship.orientation, ship.Length();
    if !Fits(f, ori, x, y, len) then Placed(f, false)
    else
      FitsIffProbesInGrid(f, ori, x, y, len);
      ClearIffFree(f, ori, x, y, len);
      match Scan(f, ori, x, y, len, 0, Taken)
      case Clear => Commit(f, ship, x, y)
      case _ => Placed(f, false)
  }

  /** A placement that succeeds only ever touches cells inside the grid. */
  lemma PlacedFootprintInGrid(f: GameField, ship: Ships.Ship, x: nat, y: nat, p: Pos)
    requires Valid(f) && PlaceShip(f, ship, x, y).placed
    requires OnFootprint(ship.orientation, x, y, ship.Length(), p)
    ensures InGrid(f, p)
  {
  }

  /** Once a ship is placed, any placement whose footprint shares a cell
      with it is refused and changes nothing. */
  lemma PlacementsExclusive(f: GameField, s1: Ships.Ship, x1: nat, y1: nat,
                            s2: Ships.Ship, x2: nat, y2: nat, p: Pos)
    requires Valid(f) && PlaceShip(f, s1, x1, y1).placed
    requires OnFootprint(s1.orientation, x1, y1, s1.Length(), p)
    requires OnFootprint(s2.orientation, x2, y2, s2.Length(), p)
    ensures var g := PlaceShip(f, s1, x1, y1).field;
      PlaceShip(g, s2, x2, y2) == Placed(g, false)
  {
    var g := PlaceShip(f, s1, x1, y1).field;
    assert InGrid(f, p);
    assert g.cells[p.y][p.x] == Ship;
  }

  // ---------------------------------------------------------------------
  // attackCell

  /** What attackCell reports: "Hit on ship i, segment j" or "Miss!". */
  datatype Outcome = Hit(ship: nat, segment: nat) | Miss

  /** The field after an attack, and what the attack reported. */
  datatype Attack = Attack(field: GameField, outcome: Outcome)

  /** Every offset probed for `s` from `(x, y)` is inside the grid and not Ship. */
  ghost predicate ShipClear(f: GameField, s: Ships.Ship, x: nat, y: nat)
    requires Valid(f)
  {
    ClearBetween(f, s.orientation, x, y, 0, s.Length(), Afloat)
  }

  /** The outer loop of attackCell from ship `i` on: for each registered
      ship, in order, the offsets `0..len-1` along that ship's orientation
      from the attacked cell. */
  function ScanShips(f: GameField, x: nat, y: nat, i: nat): (r: Result<Outcome>)
    requires Valid(f) && i <= |f.manager.ships|
    ensures r.Err? ==> r.error == UndefinedBehaviour
    ensures r.Err? ==>
      exists k, m :: i <= k < |f.manager.ships| && 0 <= m < f.manager.ships[k].Length()
        && !InGrid(f, Step(f.manager.ships[k].orientation, x, y, m))
        && ClearBetween(f, f.manager.ships[k].orientation, x, y, 0, m, Afloat)
        && (forall k' :: i <= k' < k ==> ShipClear(f, f.manager.ships[k'], x, y))
    ensures r.Ok? && r.value.Miss? ==>
      forall k :: i <= k < |f.manager.ships| ==> ShipClear(f, f.manager.ships[k], x, y)
    ensures r.Ok? && r.value.Hit? ==>
      var k, m := r.value.ship, r.value.segment;
      i <= k < |f.manager.ships| && 0 <= m < f.manager.ships[k].Length()
      && Hits(f, f.manager.ships[k].orientation, x, y, m, Afloat)
      && ClearBetween(f, f.manager.ships[k].orientation, x, y, 0, m, Afloat)
      && (forall k' :: i <= k' < k ==> ShipClear(f, f.manager.ships[k'], x, y))
    decreases |f.manager.ships| - i
  {
    if i == |f.manager.ships| then Ok(Miss)
    else
      var s := f.manager.ships[i];
      match Scan(f, s.orientation, x, y, s.Length(), 0, Afloat)
      case Found(j) => Ok(Hit(i, j))
      case OffGrid => Err(UndefinedBehaviour)
      case Clear => ScanShips(f, x, y, i + 1)
  }

  /** GameField::attackCell, as written: the probes start at the attacked
      cell for every ship, not at the cell where that ship was placed, so
      a hit may be charged to a different ship and clear a different cell
      than the one attacked. An out-of-grid probe reached before any hit
      is reported as undefined behaviour. Out of range iff the attacked
      cell is outside the grid. On a miss nothing changes; on a hit the
      first probed Ship cell (lowest ship index, then lowest offset) turns
      Empty and that ship's segment at that offset takes one damage step,
      and nothing else changes. */
  function AttackCell(f: GameField, x: nat, y: nat): (r: Result<Attack>)
    requires Valid(f)
    ensures r.Err? && r.error == OutOfRange <==> x >= f.width || y >= f.height
    ensures r.Err? ==> r.error in {OutOfRange, UndefinedBehaviour}
    ensures r.Err? && r.error == UndefinedBehaviour ==>
      exists k, m :: 0 <= k < |f.manager.ships| && 0 <= m < f.manager.ships[k].Length()
        && !InGrid(f, Step(f.manager.ships[k].orientation, x, y, m))
        && ClearBetween(f, f.manager.ships[k].orientation, x, y, 0, m, Afloat)
        && (forall k' :: 0 <= k' < k ==> ShipClear(f, f.manager.ships[k'], x, y))
    ensures r.Ok? ==> Valid(r.value.field)
    ensures r.Ok? && r.value.outcome.Miss? ==>
      r.value.field == f && forall k :: 0 <= k < |f.manager.ships| ==> ShipClear(f, f.manager.ships[k], x, y)
    ensures r.Ok? && r.value.outcome.Hit? ==>
      var k, m, g := r.value.outcome.ship, r.value.outcome.segment, r.value.field;
      0 <= k < |f.manager.ships| && 0 <= m < f.manager.ships[k].Length()
      // the hit is the first probed Ship cell
      && (forall k' :: 0 <= k' < k ==> ShipClear(f, f.manager.ships[k'], x, y))
      && ClearBetween(f, f.manager.ships[k].orientation, x, y, 0, m, Afloat)
      // exactly that cell goes from Ship to Empty
      && var p := Step(f.manager.ships[k].orientation, x, y, m);
      InGrid(f, p) && f.cells[p.y][p.x] == Ship
      && g.width == f.width && g.height == f.height
      && (forall cy, cx :: 0 <= cy < f.height && 0 <= cx < f.width ==>
            g.cells[cy][cx] == if Pos(cx, cy) == p then Empty else f.cells[cy][cx])
      // exactly one segment of one ship takes one damage step
      && |g.manager.ships| == |f.manager.ships|
      && Ships.AttackSegment(f.manager.ships[k], m) == Ok(g.manager.ships[k])
      && (forall i :: 0 <= i < |f.manager.ships| && i != k ==> g.manager.ships[i] == f.manager.ships[i])
  {
    if x >= f.width || y >= f.height then Err(OutOfRange)
    else
      match ScanShips(f, x, y, 0)
      case Err(e) => Err(e)
      case Ok(Miss) => Ok(Attack(f, Miss))
      case Ok(Hit(k, m)) =>
        var s := f.manager.ships[k];
        var p := Step(s.orientation, x, y, m);
        var ships := f.manager.ships[k := Ships.Damage(s, m)];
        Ok(Attack(GameField(f.width, f.height, SetCell(f.cells, p, Empty), Manager.ShipManager(ships)),
                  Hit(k, m)))
  }
}
