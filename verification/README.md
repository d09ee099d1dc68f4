# Battleship core in Dafny

A model of the single-player Battleship simulation in `Game.cpp`. It has four layers:

- a ship segment that can only be damaged forwards (`Intact → Damaged → Destroyed`);
- a ship, which is an orientation plus a vector of segments;
- an append-only ship registry (`ShipManager`) that reports when a ship is destroyed;
- the game field (`GameField`): a `height × width` matrix of cell statuses (`Unknown`, `Empty`, `Ship`) that owns a registry.

Every class becomes an immutable datatype. Every operation becomes a pure function. The C++ exceptions become a `Result` that is `Ok(value)` or `Err(OutOfRange | InvalidArgument | UndefinedBehaviour)`.

Modules, leaf first:

| file | module | models |
|---|---|---|
| `results.dfy` | `Results` | error kinds and the result type |
| `segment.dfy` | `Segment` | `ShipSegment` |
| `ship.dfy` | `Ships` | `Orientation`, `Ship` |
| `manager.dfy` | `Manager` | `ShipManager` |
| `field.dfy` | `Field` | `CellStatus`, `GameField` (constructor, `placeShip`, `attackCell`) |
| `place_as_written.dfy` | `PlaceAsWritten` | `placeShip` exactly as the C++ computes it (see Findings) |
| `census.dfy` | `Census` | the number of `Ship` cells, as an invariant of placement and attack |
| `scenario.dfy` | `Scenario` | the fixed layout the driver in `main()` builds, and single attacks on it |

## How attacks are modelled

`attackCell(x, y)` is modelled exactly as written. For each registered ship `i`, in insertion order, it probes the cells `j = 0 .. len-1` steps from the **attacked** cell along that ship's orientation. It does not start from the cell where the ship was placed. At the first probed cell whose status is `Ship`, it damages segment `j` of ship `i` and sets that probed cell to `Empty`.

So the hit can be charged to a ship that does not occupy the attacked cell, and the cell that gets cleared can differ from the one attacked. On the driver's layout (a 3-long horizontal ship at (2,2) and a 2-long vertical ship at (5,5)) this gives:

- Attacking (5,5) damages ship 0, segment 0 (`Scenario.AttackSecondAnchor`).
- Attacking (2,2) a second time hits ship 0, segment 1 and clears (3,2) (`Scenario.RepeatedAttackWalksOn`).

A probe can leave the grid: `x + j ≥ width` for a horizontal ship, or `y + j ≥ height` for a vertical one. In C++ that is an out-of-bounds `std::vector` read, which is undefined behaviour. The model has no precondition against it. Instead, `AttackCell` returns `Err(UndefinedBehaviour)` when the scan reaches such a probe before any hit. A probe that comes after the first hit is never read, so it does not count. Example: attacking (5,9) on the driver's layout (`Scenario.BottomRowReadsPastGrid`).

`attackCell` calls `Ship::attackSegment` directly, not `ShipManager::attackShip`. So an attack on a cell never produces the "is destroyed" report. Only `Manager.AttackShip` reports destruction.

Further consequences of `Game.cpp`:

- The `Ship` constructor accepts length 0 (Game.cpp:50). Such a ship is destroyed from the start (`Ships.NewShipDestroyed`), and placing it marks no cells.
- Repeating the attack on (2,2) hits ship 0, segment 1 and clears (3,2) (`Scenario.RepeatedAttackWalksOn`).
- After an attack, a `Ship` cell need not belong to the ship whose segment was damaged. `Scenario.AttackSecondAnchor` shows a cleared cell whose ship is still intact, and a damaged ship whose own cell still reads `Ship`.

Other modelling choices:

- A ship's length is the size of its segment vector. The constructor sets both from the same argument, and only the move operations (left out) set them separately.
- Grid cells are indexed `cells[y][x]`, as in `field[ty][tx]`.
- Coordinates and lengths are unbounded naturals everywhere except in `PlaceAsWritten`, which models `size_t` wrap-around.

## Model

| member | source | states |
|---|---|---|
| `Segment.TakeDamage` | Game.cpp:21-26 | one damage step moves the rank along the track by exactly one, and the end of the track (Destroyed) is the only fixed point; the rank never decreases |
| `Segment.IsDestroyed` | Game.cpp:28-30 | a segment is destroyed exactly when it is at the end of the damage track |
| `Segment.IterateRank` | Game.cpp:21-26 | after `n` damage calls the rank is the old rank plus `n`, capped at Destroyed; the state never moves backwards; the segment is destroyed exactly when old rank plus `n` reaches 2 |
| `Segment.TwoCallsDestroy` | Game.cpp:21-26 | starting from Intact, `n` damage calls destroy the segment exactly when `n ≥ 2` |
| `Ships.NewShip` | Game.cpp:50 | a new ship has exactly `len` segments, all Intact, and the given orientation |
| `Ships.SegmentsDestroyed` | Game.cpp:62-67 | the early-exit loop returns true exactly when every segment is Destroyed, which includes the empty vector |
| `Ships.IsDestroyed` | Game.cpp:62-67 | a ship is destroyed exactly when all its segments are Destroyed |
| `Ships.NewShipDestroyed` | Game.cpp:50-67 | a new ship is destroyed exactly when its length is 0 |
| `Ships.AttackSegment` | Game.cpp:56-60 | fails with out-of-range exactly when `index ≥ length`; otherwise only segment `index` changes, by one damage step, and length and orientation are kept |
| `Ships.AttackDestroyedSegment` | Game.cpp:56-60 | attacking a segment that is already Destroyed leaves the ship unchanged |
| `Ships.GetSegment` | Game.cpp:77-81 | fails with out-of-range exactly when `index ≥ length`; otherwise gives the state of segment `index` |
| `Ships.GetAfterAttack` | Game.cpp:56-81 | reading a segment after attacking it gives its earlier state advanced by one damage step |
| `Ships.AttackAllSegments` | Game.cpp:56-60 | after any sequence of segment attacks, each segment has taken as many damage steps as its index occurs in the sequence |
| `Ships.FreshShipDestroyedAfter` | Game.cpp:50-67 | a new ship is destroyed after a sequence of attacks exactly when every segment index occurs in it at least twice, in any interleaving |
| `Manager.AddShip` | Game.cpp:122-124 | the registry grows by one, the new ship is at the end, and every earlier index keeps its ship |
| `Manager.AttackShip` | Game.cpp:126-136 | fails with out-of-range exactly when the ship index or the segment index is bad; on success only the chosen ship changes, as `attackSegment` says, and destruction is reported exactly when that ship is destroyed afterwards |
| `Manager.ReportedAgain` | Game.cpp:126-136 | attacking a ship that is already destroyed succeeds, changes nothing, and reports the destruction again |
| `Manager.DestructionReportedOnLastBlow` | Game.cpp:126-136 | a 2-long ship attacked on segments 0, 0, 1, 1 is reported destroyed only on the fourth attack |
| `Field.NewField` | Game.cpp:154-157 | fails with invalid-argument exactly when a dimension is 0; otherwise gives a well-formed field of the requested size with every cell Unknown and no ships |
| `Field.Scan` | Game.cpp:237-250 | the offset loop, which is shared with the collision check at Game.cpp:208-214; it finds the first offset whose cell is in the stop set with all earlier offsets in the grid and not in it, or it reports all offsets clear, or it reports the first out-of-grid offset reached before any stop |
| `Field.ClearInGrid` | Game.cpp:237-241 | offsets the loop walked past without stopping all lie inside the grid |
| `Field.Mark` | Game.cpp:216-222 | the marking loop sets exactly the footprint cells to Ship and leaves every other cell as it was |
| `Field.FitsIffProbesInGrid` | Game.cpp:201-205 | a footprint that passes the bounds check lies inside the grid, and for a ship of length at least 1 the converse holds |
| `Field.ClearIffFree` | Game.cpp:207-214 | the collision loop finds no non-Unknown cell exactly when every cell of the footprint is Unknown |
| `Field.ScanExactFrom` | Game.cpp:237-250 | the loop stops at a cell in the stop set exactly when some offset hits with every earlier offset missing, and runs off the grid exactly when some offset is outside with every earlier offset missing |
| `Field.Commit` | Game.cpp:216-224 | the successful tail of placeShip: exactly the footprint cells become Ship, the other cells and the size are unchanged, and the ship is appended to the registry |
| `Field.PlaceShip` | Game.cpp:197-225 | returns true exactly when the footprint fits (along the axis, and across it for a ship of length at least 1) and all its cells are Unknown; on false the field and registry are unchanged; on true exactly the footprint cells become Ship, the other cells and the size are unchanged, and the ship is appended to the registry |
| `Field.PlacedFootprintInGrid` | Game.cpp:201-205 | a successful placement only touches cells inside the grid |
| `Field.PlacementsExclusive` | Game.cpp:207-214 | after a successful placement, any placement whose footprint shares a cell with it is refused and changes nothing |
| `Field.ScanShips` | Game.cpp:232-252 | the outer loop reports the first hit, ordered by lowest ship index then lowest offset, or a miss when every probe of every ship is in the grid and not Ship, or undefined behaviour at the first out-of-grid probe reached before any hit |
| `Field.AttackCell` | Game.cpp:227-255 | fails with out-of-range exactly when the attacked cell is outside the grid; on a miss nothing changes and every probe was clear; on a hit, that hit is the first probed Ship cell, only that cell changes from Ship to Empty, and only the matching segment of that one ship takes one damage step; undefined behaviour only when an out-of-grid probe comes before every hit |
| `PlaceAsWritten.SizeAdd` | Game.cpp:202-203 | `x + len` in `size_t`: the true sum when it is below 2^64, and the sum minus 2^64 otherwise |
| `PlaceAsWritten.PlaceShipAsWritten` | Game.cpp:197-225 | placeShip as written: undefined behaviour exactly when the `size_t` axis check passes and the collision loop reaches a cell outside the grid before a taken cell; false exactly when the axis check fails or a taken cell comes first, and then the field is unchanged; on true the whole footprint was inside the grid, exactly the footprint cells become Ship, the rest is unchanged, and the ship is appended |
| `PlaceAsWritten.AsWrittenAgrees` | Game.cpp:197-225 | when the coordinate across the axis is in the grid (or the ship has length 0) and the sum does not wrap, the as-written and corrected placements give the same result |
| `PlaceAsWritten.EmptyShipOffGridRegistered` | Game.cpp:197-225 | a 0-long vertical ship at (10,0) on a 10×10 field reads no cell, and both versions register it and return true |
| `PlaceAsWritten.RowNeverChecked` | Game.cpp:202-212 | a 1-long horizontal ship at (0,10) on a 10×10 field: the as-written code reads outside the grid, and the corrected placement refuses without changing the field |
| `PlaceAsWritten.SumWraps` | Game.cpp:202-212 | a 2-long horizontal ship at x = 2^64 − 1: the sum wraps to 1, the as-written code reads outside the grid, and the corrected placement refuses |
| `Scenario.LayoutPlaced` | Game.cpp:272-284 | both placements of the driver succeed; the field then holds Ship exactly at (2,2), (3,2), (4,2), (5,5) and (5,6), and the registry holds the two ships in order |
| `Scenario.AttackSecondAnchor` | Game.cpp:237-249 | attacking (5,5) hits ship 0, segment 0 and clears (5,5); ship 1 is untouched and (2,2) still reads Ship |
| `Scenario.RepeatedAttackWalksOn` | Game.cpp:237-249 | attacking (2,2) twice hits ship 0 segment 0 and then ship 0 segment 1, clearing (2,2) and then (3,2) |
| `Scenario.CornerMisses` | Game.cpp:232-254 | attacking (0,0) misses and leaves the field unchanged |
| `Scenario.BottomRowReadsPastGrid` | Game.cpp:237-241 | attacking (5,9) reaches the probe (5,10) outside the grid before any hit |
| `Scenario.PlacementBoundary` | Game.cpp:202-205 | a 3-long horizontal ship fits at x = 7 of a 10-wide field and not at x = 8 |
| `Scenario.OverlapLeavesFieldAlone` | Game.cpp:207-214 | a placement that collides with ship 0 returns false and leaves the field exactly as it was |
| `Census.MarkCount` | Game.cpp:216-222 | marking a free footprint of `n` cells adds exactly `n` Ship cells |
| `Census.PlaceShipCount` | Game.cpp:197-225 | a successful placement adds the ship's length to the number of Ship cells; a refused one adds nothing |
| `Census.AttackCellCount` | Game.cpp:227-255 | a hit removes exactly one Ship cell; a miss removes none |

## Left out

- Output is not modelled: `printField`, `printSegments`, `printShips`, `ShipSegment::getState` and every `std::cout` line. The hit or miss, and the destruction flag, are returned as data instead.
- `main()` is not modelled as a program. It reads the attack coordinates from standard input, and it fills a second `ShipManager` that never sees the attack. Its fixed layout is modelled in `Scenario`.
- The copy and move constructors and assignment operators are not modelled. Dafny values are immutable, so a copy is the value itself. The moved-from states (length 0, size 0) and the `GameField` copy constructor, which drops the registry, are not modelled.
- `ShipManager::getShips` is not modelled. It returns a mutable reference, and the model passes registries by value.
- The unused top-level `SegmentState` enum is not modelled.
- `main.py` is not modelled. It is an interactive menu over modules that are not part of this model.
- The `size_t` wrap-around of `x + j` inside the probe loops is not modelled. It needs a grid wider than 2^64 − len cells. Outside `PlaceAsWritten`, coordinates are unbounded.

## Findings

| source | as written | input that shows it | evidently intended | confidence | as-written member | corrected member |
|---|---|---|---|---|---|---|
| Game.cpp:202-212 | only the coordinate along the ship's axis is bounds-checked: a horizontal placement never compares `y` with `height`, and a vertical one never compares `x` with `width`. The collision loop then reads `field[y][x]` outside the grid | 10×10 field, 1-long horizontal ship at (0, 10) | return false and leave the field unchanged | high, not executed | `PlaceAsWritten.PlaceShipAsWritten`, `PlaceAsWritten.RowNeverChecked` | `Field.PlaceShip`, `Field.PlacedFootprintInGrid` |
| Game.cpp:202-203 | `x + len` is computed in `size_t` and wraps, so a huge `x` passes the bounds check | 10×10 field, 2-long horizontal ship at x = 2^64 − 1, y = 0 | return false and leave the field unchanged | high, not executed | `PlaceAsWritten.PlaceShipAsWritten`, `PlaceAsWritten.SumWraps` | `Field.PlaceShip`, `Field.PlacedFootprintInGrid` |

The corrected `Field.PlaceShip` also checks the cross-axis coordinate of a ship with at least one segment, and it uses unbounded arithmetic. The rest of the model uses it. `PlaceAsWritten.AsWrittenAgrees` proves that it gives the same result as the code as written on every input where the sum does not wrap and either the cross-axis coordinate is inside the grid or the ship has length 0. On the remaining inputs without wrap-around, the cross-axis coordinate is outside the grid and the ship has a segment. There the code as written returns false when its axis check fails, as the corrected version does, and otherwise reads outside the grid.
