/** GameField::placeShip exactly as the C++ code computes it, with the
    `size_t` wrap-around of `x + len` and without a check of the
    coordinate across the ship's axis. `Field.PlaceShip` is the corrected
    version the rest of the model uses; the lemmas below show where the
    two part ways and that they agree everywhere else. */
module PlaceAsWritten {
  import opened Results
  import Ships
  import opened Field

  /** `size_t` arithmetic is modulo 2^64. */
  const SizeModulus: nat := 0x1_0000_0000_0000_0000

  predicate IsSize(n: nat) {
    n < SizeModulus
  }

  /** `x + len` in `size_t`. */
  function SizeAdd(a: nat, b: nat): (r: nat)
    requires IsSize(a) && IsSize(b)
    ensures IsSize(r)
    ensures a + b < SizeModulus ==> r == a + b
    ensures a + b >= SizeModulus ==> r + SizeModulus == a + b
  {
    (a + b) % SizeModulus
  }

  /** The bounds check of placeShip as written (Game.cpp:202-203), with
      the sum taken in `size_t`: only the coordinate along the axis. */
  predicate AxisCheckPasses(f: GameField, ori: Ships.Orientation, x: nat, y: nat, len: nat)
    requires IsSize(x) && IsSize(y) && IsSize(len)
  {
    match ori
    case Horizontal => SizeAdd(x, len) <= f.width
    case Vertical => SizeAdd(y, len) <= f.height
  }

  /** placeShip as written: the axis bounds check in `size_t`; then the
      collision loop, which reads outside the grid (undefined behaviour)
      when the unchecked coordinate is out of range and no taken cell
      comes first; then the marking loop and the registration. */
  function PlaceShipAsWritten(f: GameField, ship: Ships.Ship, x: nat, y: nat): (r: Result<Placed>)
    requires Valid(f) && IsSize(f.width) && IsSize(f.height)
    requires IsSize(x) && IsSize(y) && IsSize(ship.Length())
    ensures r.Err? ==> r.error == UndefinedBehaviour
    ensures r.Err? <==>
      AxisCheckPasses(f, ship.orientation, x, y, ship.Length())
      && exists k :: 0 <= k < ship.Length() && !InGrid(f, Step(ship.orientation, x, y, k))
                     && ClearBetween(f, ship.orientation, x, y, 0, k, Taken)
    ensures r.Ok? && !r.value.placed <==>
      !AxisCheckPasses(f, ship.orientation, x, y, ship.Length())
      || exists k :: 0 <= k < ship.Length() && Hits(f, ship.orientation, x, y, k, Taken)
                     && ClearBetween(f, ship.orientation, x, y, 0, k, Taken)
    ensures r.Ok? && !r.value.placed ==> r.value.field == f
    ensures r.Ok? && r.value.placed ==>
      ProbesInGrid(f, ship.orientation, x, y, ship.Length())
      && Valid(r.value.field) && r.value.field.width == f.width && r.value.field.height == f.height
      && r.value.field.manager.ships == f.manager.ships + [ship]
      && forall cy, cx :: 0 <= cy < f.height && 0 <= cx < f.width ==>
           r.value.field.cells[cy][cx] ==
             if OnFootprint(ship.orientation, x, y, ship.Length(), Pos(cx, cy)) then Ship else f.cells[cy][cx]
  {
    var ori, len := ship.orientation, ship.Length();
    ScanExactFrom(f, ori, x, y, len, 0, Taken);
    if !AxisCheckPasses(f, ori, x, y, len) then Ok(Placed(f, false))
    else
      match Scan(f, ori, x, y, len, 0, Taken)
      case OffGrid => Err(UndefinedBehaviour)
      case Found(_) => Ok(Placed(f, false))
      case Clear =>
        ClearInGrid(f, ori, x, y, len, Taken);
        Ok(Commit(f, ship, x, y))
  }

  /** Where the coordinate across the axis is inside the grid (or the
      ship has no segments) and `x + len` (or `y + len`) does not wrap,
      the code as written and the corrected placement return the same
      field and flag. */
  lemma AsWrittenAgrees(f: GameField, ship: Ships.Ship, x: nat, y: nat)
    requires Valid(f) && IsSize(f.width) && IsSize(f.height)
    requires IsSize(x) && IsSize(y) && IsSize(ship.Length())
    requires ship.orientation == Ships.Horizontal ==>
      (ship.Length() > 0 ==> y < f.height) && x + ship.Length() < SizeModulus
    requires ship.orientation == Ships.Vertical ==>
      (ship.Length() > 0 ==> x < f.width) && y + ship.Length() < SizeModulus
    ensures PlaceShipAsWritten(f, ship, x, y) == Ok(PlaceShip(f, ship, x, y))
  {
    var ori, len := ship.orientation, ship.Length();
    if Fits(f, ori, x, y, len) {
      FitsIffProbesInGrid(f, ori, x, y, len);
      assert !Scan(f, ori, x, y, len, 0, Taken).OffGrid?;
    }
  }

  /** A ship of length 0 reads no cell, so both versions register it even
      with its cross-axis coordinate outside the grid. */
  lemma EmptyShipOffGridRegistered()
    ensures var f := NewField(10, 10).value;
      var ship := Ships.NewShip(0, Ships.Vertical);
      PlaceShipAsWritten(f, ship, 10, 0).Ok? && PlaceShipAsWritten(f, ship, 10, 0).value.placed
      && PlaceShip(f, ship, 10, 0).placed
      && PlaceShip(f, ship, 10, 0).field.manager.ships == [ship]
  {
  }

  /** A horizontal ship anchored one row below a 10x10 grid: the code as
      written reads row 10 (undefined behaviour), the corrected placement
      refuses. */
  lemma RowNeverChecked()
    ensures var f := NewField(10, 10).value;
      var ship := Ships.NewShip(1, Ships.Horizontal);
      PlaceShipAsWritten(f, ship, 0, 10) == Err(UndefinedBehaviour)
      && PlaceShip(f, ship, 0, 10) == Placed(f, false)
  {
    var f := NewField(10, 10).value;
    var ship := Ships.NewShip(1, Ships.Horizontal);
    assert Scan(f, ship.orientation, 0, 10, 1, 0, Taken) == OffGrid;
  }

  /** A 2-long horizontal ship at x = 2^64 - 1: `x + len` wraps to 1, the
      bounds check passes, and the collision loop reads column 2^64 - 1
      (undefined behaviour); the corrected placement refuses. */
  lemma SumWraps()
    ensures var f := NewField(10, 10).value;
      var ship := Ships.NewShip(2, Ships.Horizontal);
      SizeAdd(SizeModulus - 1, 2) == 1
      && PlaceShipAsWritten(f, ship, SizeModulus - 1, 0) == Err(UndefinedBehaviour)
      && PlaceShip(f, ship, SizeModulus - 1, 0) == Placed(f, false)
  {
    var f := NewField(10, 10).value;
    var ship := Ships.NewShip(2, Ships.Horizontal);
    assert Scan(f, ship.orientation, SizeModulus - 1, 0, 2, 0, Taken) == OffGrid;
  }
}
