/** The layout of the driver in Game.cpp: a 10x10 field with a 3-long
    horizontal ship at (2, 2) and a 2-long vertical ship at (5, 5), and
    what single attacks on it do. */
module Scenario {
  import opened Results
  import Segment
  import Ships
  import opened Field

  function Blank(): GameField {
    NewField(10, 10).value
  }

  const First := Ships.NewShip(3, Ships.Horizontal)
  const Second := Ships.NewShip(2, Ships.Vertical)

  function Layout(): GameField {
    PlaceShip(PlaceShip(Blank(), First, 2, 2).field, Second, 5, 5).field
  }

  /** Cells of the driver's layout that hold a ship. */
  predicate LayoutShipCell(cx: nat, cy: nat) {
    (cy == 2 && 2 <= cx <= 4) || (cx == 5 && 5 <= cy <= 6)
  }

  /** The driver's field after both placements: 10x10, the two ships
      registered in placement order, Ship exactly on their footprints and
      Unknown everywhere else. */
  ghost predicate LayoutShape(f: GameField) {
    Valid(f) && f.width == 10 && f.height == 10
    && f.manager.ships == [First, Second]
    && forall cy, cx :: 0 <= cy < 10 && 0 <= cx < 10 ==>
      f.cells[cy][cx] == if LayoutShipCell(cx, cy) then Ship else Unknown
  }

  /** Both placements of the driver succeed and produce that field. */
  lemma LayoutPlaced()
    ensures PlaceShip(Blank(), First, 2, 2).placed
    ensures PlaceShip(PlaceShip(Blank(), First, 2, 2).field, Second, 5, 5).placed
    ensures LayoutShape(Layout())
  {
    var f0 := Blank();
    var f1 := PlaceShip(f0, First, 2, 2).field;
    assert FootprintFree(f0, First.orientation, 2, 2, 3);
    assert FootprintFree(f1, Second.orientation, 5, 5, 2);
  }

  /** Attacking (5, 5), the anchor of ship 1, is charged to ship 0
      segment 0, whose probe from (5, 5) lands on that cell. Afterwards
      ship 1's cell (5, 5) is Empty while ship 1 is untouched, and ship 0
      is damaged while its own anchor still reads Ship. */
  lemma AttackSecondAnchor()
    ensures var r := AttackCell(Layout(), 5, 5);
      r.Ok? && r.value.outcome == Hit(0, 0)
      && r.value.field.cells[5][5] == Empty
      && r.value.field.cells[2][2] == Ship
      && r.value.field.manager.ships[0].segments[0] == Segment.Damaged
      && r.value.field.manager.ships[1] == Second
  {
    LayoutPlaced();
    AttackSecondAnchorOn(Layout());
  }

  lemma AttackSecondAnchorOn(f: GameField)
    requires LayoutShape(f)
    ensures var r := AttackCell(f, 5, 5);
      r.Ok? && r.value.outcome == Hit(0, 0)
      && r.value.field.cells[5][5] == Empty
      && r.value.field.cells[2][2] == Ship
      && r.value.field.manager.ships[0].segments[0] == Segment.Damaged
      && r.value.field.manager.ships[1] == Second
  {
    assert f.cells[5][5] == Ship;
    assert Scan(f, Ships.Horizontal, 5, 5, 3, 0, Afloat) == Found(0);
    assert ScanShips(f, 5, 5, 0) == Ok(Hit(0, 0));
  }

  /** Attacking (2, 2) twice: the first attack hits ship 0 segment 0 and
      clears (2, 2); the second walks on to (3, 2), hits ship 0 segment 1
      and clears (3, 2). */
  ghost predicate RepeatWalksOn(f: GameField) {
    Valid(f) && f.width == 10 && f.height == 10
    && var r1 := AttackCell(f, 2, 2);
    r1.Ok? && r1.value.outcome == Hit(0, 0)
    && r1.value.field.cells[2][2] == Empty
    && var r2 := AttackCell(r1.value.field, 2, 2);
    r2.Ok? && r2.value.outcome == Hit(0, 1)
    && r2.value.field.cells[2][3] == Empty
    && r2.value.field.manager.ships[0].segments == [Segment.Damaged, Segment.Damaged, Segment.Intact]
  }

  lemma RepeatedAttackWalksOn()
    ensures RepeatWalksOn(Layout())
  {
    LayoutPlaced();
    RepeatedAttackWalksOnFrom(Layout());
  }

  lemma RepeatedAttackWalksOnFrom(f: GameField)
    requires LayoutShape(f)
    ensures RepeatWalksOn(f)
  {
    assert f.cells[2][2] == Ship;
    assert Scan(f, Ships.Horizontal, 2, 2, 3, 0, Afloat) == Found(0);
    assert ScanShips(f, 2, 2, 0) == Ok(Hit(0, 0));
    var g := AttackCell(f, 2, 2).value.field;
    assert g.cells[2][2] == Empty && g.cells[2][3] == Ship;
    assert g.manager.ships[0].orientation == Ships.Horizontal && g.manager.ships[0].Length() == 3;
    assert Scan(g, Ships.Horizontal, 2, 2, 3, 1, Afloat) == Found(1);
    assert Scan(g, Ships.Horizontal, 2, 2, 3, 0, Afloat) == Found(1);
    assert ScanShips(g, 2, 2, 0) == Ok(Hit(0, 1));
  }

  /** Attacking (0, 0) misses and leaves the field as it was. */
  lemma CornerMisses()
    ensures AttackCell(Layout(), 0, 0) == Ok(Attack(Layout(), Miss))
  {
    LayoutPlaced();
    CornerMissesOn(Layout());
  }

  lemma CornerMissesOn(f: GameField)
    requires LayoutShape(f)
    ensures AttackCell(f, 0, 0) == Ok(Attack(f, Miss))
  {
    assert f.cells[0][0] == Unknown && f.cells[0][1] == Unknown && f.cells[0][2] == Unknown;
    assert f.cells[1][0] == Unknown;
    assert Scan(f, Ships.Horizontal, 0, 0, 3, 2, Afloat) == Clear;
    assert Scan(f, Ships.Horizontal, 0, 0, 3, 1, Afloat) == Clear;
    assert Scan(f, Ships.Horizontal, 0, 0, 3, 0, Afloat) == Clear;
    assert Scan(f, Ships.Vertical, 0, 0, 2, 1, Afloat) == Clear;
    assert Scan(f, Ships.Vertical, 0, 0, 2, 0, Afloat) == Clear;
    assert ScanShips(f, 0, 0, 2) == Ok(Miss);
    assert ScanShips(f, 0, 0, 1) == Ok(Miss);
    assert ScanShips(f, 0, 0, 0) == Ok(Miss);
  }

  /** Attacking (5, 9): ship 0's probes (5,9), (6,9), (7,9) are Unknown,
      and ship 1's second probe is (5, 10), outside the grid. */
  lemma BottomRowReadsPastGrid()
    ensures AttackCell(Layout(), 5, 9) == Err(UndefinedBehaviour)
  {
    LayoutPlaced();
    BottomRowReadsPastGridOn(Layout());
  }

  lemma BottomRowReadsPastGridOn(f: GameField)
    requires LayoutShape(f)
    ensures AttackCell(f, 5, 9) == Err(UndefinedBehaviour)
  {
    assert f.cells[9][5] == Unknown && f.cells[9][6] == Unknown && f.cells[9][7] == Unknown;
    assert Scan(f, Ships.Horizontal, 5, 9, 3, 2, Afloat) == Clear;
    assert Scan(f, Ships.Horizontal, 5, 9, 3, 1, Afloat) == Clear;
    assert Scan(f, Ships.Horizontal, 5, 9, 3, 0, Afloat) == Clear;
    assert Scan(f, Ships.Vertical, 5, 9, 2, 1, Afloat) == OffGrid;
    assert Scan(f, Ships.Vertical, 5, 9, 2, 0, Afloat) == OffGrid;
    assert ScanShips(f, 5, 9, 1) == Err(UndefinedBehaviour);
    assert ScanShips(f, 5, 9, 0) == Err(UndefinedBehaviour);
  }

  /** A 3-long horizontal ship fits at x = 7 of a 10-wide field but not
      at x = 8. */
  lemma PlacementBoundary()
    ensures !PlaceShip(Blank(), First, 8, 0).placed
    ensures PlaceShip(Blank(), First, 7, 0).placed
  {
    assert FootprintFree(Blank(), First.orientation, 7, 0, 3);
  }

  /** A vertical ship over (3, 1) and (3, 2) collides with ship 0 and the
      field is left exactly as it was. */
  lemma OverlapLeavesFieldAlone()
    ensures PlaceShip(Layout(), Second, 3, 1) == Placed(Layout(), false)
  {
    LayoutPlaced();
    var f := Layout();
    assert OnFootprint(Second.orientation, 3, 1, 2, Pos(3, 2));
    assert f.cells[2][3] == Ship;
  }
}
