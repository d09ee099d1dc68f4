/** The append-only registry of ships (class ShipManager). */
module Manager {
  import opened Results
  import Segment
  import Ships

  /** Ships indexed by insertion order; there is no removal, so an index,
      once assigned, always names the same ship. */
  datatype ShipManager = ShipManager(ships: seq<Ships.Ship>)

  /** A default-constructed manager holds no ships. */
  const EmptyManager := ShipManager([])

  /** ShipManager::addShip: appends a copy; no deduplication, no checks. */
  function AddShip(m: ShipManager, s: Ships.Ship): (r: ShipManager)
    ensures |r.ships| == |m.ships| + 1
    ensures r.ships[|m.ships|] == s
    ensures forall i :: 0 <= i < |m.ships| ==> r.ships[i] == m.ships[i]
  {
    ShipManager(m.ships + [s])
  }

  /** The registry after an attack, and whether the attacked ship is now
      destroyed (the "Ship <i> is destroyed!" line). */
  datatype Attacked = Attacked(manager: ShipManager, destroyed: bool)

  /** ShipManager::attackShip: out of range for a bad ship index, then
      whatever Ship::attackSegment says about the segment index. */
  function AttackShip(m: ShipManager, shipIndex: nat, segmentIndex: nat): (r: Result<Attacked>)
    ensures r.Err? <==> shipIndex >= |m.ships| || segmentIndex >= m.ships[shipIndex].Length()
    ensures r.Err? ==> r.error == OutOfRange
    ensures r.Ok? ==> |r.value.manager.ships| == |m.ships|
    ensures r.Ok? ==> forall i :: 0 <= i < |m.ships| && i != shipIndex ==> r.value.manager.ships[i] == m.ships[i]
    ensures r.Ok? ==> Ships.AttackSegment(m.ships[shipIndex], segmentIndex) == Ok(r.value.manager.ships[shipIndex])
    ensures r.Ok? ==> (r.value.destroyed <==> Ships.IsDestroyed(r.value.manager.ships[shipIndex]))
  {
    if shipIndex >= |m.ships| then Err(OutOfRange)
    else
      match Ships.AttackSegment(m.ships[shipIndex], segmentIndex)
      case Err(e) => Err(e)
      case Ok(s) => Ok(Attacked(ShipManager(m.ships[shipIndex := s]), Ships.IsDestroyed(s)))
  }

  /** A destroyed ship stays destroyed under further attacks and is
      reported again every time. */
  lemma ReportedAgain(m: ShipManager, shipIndex: nat, segmentIndex: nat)
    requires shipIndex < |m.ships| && segmentIndex < m.ships[shipIndex].Length()
    requires Ships.IsDestroyed(m.ships[shipIndex])
    ensures AttackShip(m, shipIndex, segmentIndex).Ok?
    ensures AttackShip(m, shipIndex, segmentIndex).value.destroyed
    ensures AttackShip(m, shipIndex, segmentIndex).value.manager == m
  {
    var s := m.ships[shipIndex];
    Ships.AttackDestroyedSegment(s, segmentIndex);
    assert m.ships[shipIndex := s] == m.ships;
  }

  /** A length-2 ship attacked on segments 0, 0, 1, 1: only the fourth
      attack, the one that destroys the last segment, is reported. */
  lemma DestructionReportedOnLastBlow()
    ensures var m0 := AddShip(EmptyManager, Ships.NewShip(2, Ships.Vertical));
      var a1 := AttackShip(m0, 0, 0);
      a1.Ok? && !a1.value.destroyed &&
      var a2 := AttackShip(a1.value.manager, 0, 0);
      a2.Ok? && !a2.value.destroyed &&
      var a3 := AttackShip(a2.value.manager, 0, 1);
      a3.Ok? && !a3.value.destroyed &&
      var a4 := AttackShip(a3.value.manager, 0, 1);
      a4.Ok? && a4.value.destroyed
  {
    var m0 := AddShip(EmptyManager, Ships.NewShip(2, Ships.Vertical));
    var a1 := AttackShip(m0, 0, 0);
    assert a1.value.manager.ships[0].segments == [Segment.Damaged, Segment.Intact];
    var a2 := AttackShip(a1.value.manager, 0, 0);
    assert a2.value.manager.ships[0].segments == [Segment.Destroyed, Segment.Intact];
    var a3 := AttackShip(a2.value.manager, 0, 1);
    assert a3.value.manager.ships[0].segments == [Segment.Destroyed, Segment.Damaged];
    var a4 := AttackShip(a3.value.manager, 0, 1);
    assert a4.value.manager.ships[0].segments == [Segment.Destroyed, Segment.Destroyed];
  }
}
