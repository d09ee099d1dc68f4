/** The number of cells marked Ship, and how placement and attacks move it:
    a successful placement adds the ship's length, a hit takes one away,
    everything else leaves it alone. */
module Census {
  import opened Results
  import Ships
  import opened Field

  function RowCount(row: seq<CellStatus>): nat
    decreases |row|
  {
    if |row| == 0 then 0 else (if row[0] == Ship then 1 else 0) + RowCount(row[1..])
  }

  /** Number of Ship cells in the grid. */
  function Count(cells: Grid): nat
    decreases |cells|
  {
    if |cells| == 0 then 0 else RowCount(cells[0]) + Count(cells[1..])
  }

  function Weight(c: CellStatus): nat {
    if c == Ship then 1 else 0
  }

  lemma {:induction false} RowCountUpdate(row: seq<CellStatus>, x: nat, v: CellStatus)
    requires x < |row|
    ensures RowCount(row[x := v]) + Weight(row[x]) == RowCount(row) + Weight(v)
    decreases |row|
  {
    if x > 0 {
      RowCountUpdate(row[1..], x - 1, v);
      assert row[x := v][1..] == row[1..][x - 1 := v];
    }
  }

  lemma {:induction false} CountUpdate(cells: Grid, y: nat, row: seq<CellStatus>)
    requires y < |cells|
    ensures Count(cells[y := row]) + RowCount(cells[y]) == Count(cells) + RowCount(row)
    decreases |cells|
  {
    if y > 0 {
      CountUpdate(cells[1..], y - 1, row);
      assert cells[y := row][1..] == cells[1..][y - 1 := row];
    }
  }

  /** Setting one cell moves the count by the change of that cell alone. */
  lemma SetCellCount(cells: Grid, p: Pos, v: CellStatus)
    requires p.y < |cells| && p.x < |cells[p.y]|
    ensures Count(SetCell(cells, p, v)) + Weight(cells[p.y][p.x]) == Count(cells) + Weight(v)
  {
    RowCountUpdate(cells[p.y], p.x, v);
    CountUpdate(cells, p.y, cells[p.y][p.x := v]);
  }

  /** Marking a free footprint of `n` cells adds exactly `n` Ship cells. */
  lemma {:induction false} MarkCount(f: GameField, ori: Ships.Orientation, x: nat, y: nat, n: nat)
    requires Valid(f) && ProbesInGrid(f, ori, x, y, n) && FootprintFree(f, ori, x, y, n)
    ensures Count(Mark(f, ori, x, y, n)) == Count(f.cells) + n
    decreases n
  {
    if n > 0 {
      var p := Step(ori, x, y, n - 1);
      var prev := Mark(f, ori, x, y, n - 1);
      assert FootprintFree(f, ori, x, y, n - 1);
      MarkCount(f, ori, x, y, n - 1);
      assert InGrid(f, p);
      assert !OnFootprint(ori, x, y, n - 1, p);
      assert OnFootprint(ori, x, y, n, p);
      assert prev[p.y][p.x] == f.cells[p.y][p.x] == Unknown;
      SetCellCount(prev, p, Ship);
    }
  }

  /** A successful placement adds the ship's length to the count; a
      refused one leaves it unchanged. */
  lemma PlaceShipCount(f: GameField, ship: Ships.Ship, x: nat, y: nat)
    requires Valid(f)
    ensures var r := PlaceShip(f, ship, x, y);
      Count(r.field.cells) == Count(f.cells) + if r.placed then ship.Length() else 0
  {
    var r := PlaceShip(f, ship, x, y);
    if r.placed {
      FitsIffProbesInGrid(f, ship.orientation, x, y, ship.Length());
      MarkCount(f, ship.orientation, x, y, ship.Length());
      assert r.field.cells == Mark(f, ship.orientation, x, y, ship.Length());
    }
  }

  /** A hit removes exactly one Ship cell; a miss removes none. */
  lemma AttackCellCount(f: GameField, x: nat, y: nat)
    requires Valid(f)
    ensures var r := AttackCell(f, x, y);
      r.Ok? ==> Count(r.value.field.cells) + (if r.value.outcome.Hit? then 1 else 0) == Count(f.cells)
  {
    var r := AttackCell(f, x, y);
    if r.Ok? && r.value.outcome.Hit? {
      var k, m := r.value.outcome.ship, r.value.outcome.segment;
      var p := Step(f.manager.ships[k].orientation, x, y, m);
      assert r.value.field.cells == SetCell(f.cells, p, Empty);
      SetCellCount(f.cells, p, Empty);
    }
  }
}
