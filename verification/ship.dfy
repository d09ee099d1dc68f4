/** A ship: an orientation and a vector of segments (class Ship). */
module Ships {
  import opened Results
  import Segment

  /** The axis along which a ship's segments extend. */
  datatype Orientation = Horizontal | Vertical

  /** A ship's length is the size of its segment vector: the C++
      constructor sets both from the same argument and no operation of the
      core changes either. */
  datatype Ship = Ship(orientation: Orientation, segments: seq<Segment.State>)
  {
    /** Ship::getLength (Game.cpp:52); a helper of the Ship rows, whose
        contracts state what the length is. */
    function Length(): nat { |segments| }
  }

  /** Ship(len, ori): `len` fresh segments. A length of 0 is accepted. */
  function NewShip(len: nat, ori: Orientation): (s: Ship)
    ensures s.Length() == len && s.orientation == ori
    ensures forall i :: 0 <= i < s.Length() ==> s.segments[i] == Segment.Intact
  {
    Ship(ori, seq(len, _ => Segment.Intact))
  }

  /** Every segment of the vector is at the end of the damage track. */
  ghost predicate AllDestroyed(segs: seq<Segment.State>) {
    forall i :: 0 <= i < |segs| ==> Segment.IsDestroyed(segs[i])
  }

  /** The loop of Ship::isDestroyed: stops at the first segment that is
      not destroyed. */
  function SegmentsDestroyed(segs: seq<Segment.State>): (r: bool)
    ensures r <==> AllDestroyed(segs)
    decreases |segs|
  {
    if |segs| == 0 then true
    else if !Segment.IsDestroyed(segs[0]) then false
    else SegmentsDestroyed(segs[1..])
  }

  /** Ship::isDestroyed */
  predicate IsDestroyed(s: Ship)
    ensures IsDestroyed(s) <==> forall i :: 0 <= i < s.Length() ==> s.segments[i] == Segment.Destroyed
  {
    SegmentsDestroyed(s.segments)
  }

  /** Applies one damage step to segment `index`. */
  function Damage(s: Ship, index: nat): (r: Ship)
    requires index < s.Length()
    ensures r.orientation == s.orientation && r.Length() == s.Length()
    ensures r.segments[index] == Segment.TakeDamage(s.segments[index])
    ensures forall i :: 0 <= i < s.Length() && i != index ==> r.segments[i] == s.segments[i]
  {
    s.(segments := s.segments[index := Segment.TakeDamage(s.segments[index])])
  }

  /** Ship::attackSegment: out of range iff `index >= length`; otherwise
      segment `index` takes one damage step and nothing else changes. */
  function AttackSegment(s: Ship, index: nat): (r: Result<Ship>)
    ensures r.Err? <==> index >= s.Length()
    ensures r.Err? ==> r.error == OutOfRange
    ensures r.Ok? ==> r.value.orientation == s.orientation && r.value.Length() == s.Length()
    ensures r.Ok? ==> r.value.segments[index] == Segment.TakeDamage(s.segments[index])
    ensures r.Ok? ==> forall i :: 0 <= i < s.Length() && i != index ==> r.value.segments[i] == s.segments[i]
  {
    if index >= s.Length() then Err(OutOfRange) else Ok(Damage(s, index))
  }

  /** Ship::getSegment: out of range iff `index >= length`. */
  function GetSegment(s: Ship, index: nat): (r: Result<Segment.State>)
    ensures r.Err? <==> index >= s.Length()
    ensures r.Err? ==> r.error == OutOfRange
    ensures r.Ok? ==> r.value == s.segments[index]
  {
    if index >= s.Length() then Err(OutOfRange) else Ok(s.segments[index])
  }

  /** A fresh ship is destroyed exactly when it has no segments. */
  lemma NewShipDestroyed(len: nat, ori: Orientation)
    ensures IsDestroyed(NewShip(len, ori)) <==> len == 0
  {
    var s := NewShip(len, ori);
    if len > 0 {
      assert !Segment.IsDestroyed(s.segments[0]);
    }
  }

  /** Attacking a destroyed segment leaves the ship as it was. */
  lemma AttackDestroyedSegment(s: Ship, index: nat)
    requires index < s.Length() && Segment.IsDestroyed(s.segments[index])
    ensures AttackSegment(s, index) == Ok(s)
  {
    assert Damage(s, index).segments == s.segments;
  }

  /** getSegment after attackSegment on the same index reads the state
      one damage step further on. */
  lemma GetAfterAttack(s: Ship, index: nat)
    requires index < s.Length()
    ensures GetSegment(AttackSegment(s, index).value, index) == Ok(Segment.TakeDamage(GetSegment(s, index).value))
  {
  }

  /** Every segment index of `idx` is a segment of `s`. */
  ghost predicate ValidIndices(s: Ship, idx: seq<nat>) {
    forall k :: 0 <= k < |idx| ==> idx[k] < s.Length()
  }

  /** The ship after `attackSegment` has been called with each index of
      `idx` in turn. */
  function AttackAll(s: Ship, idx: seq<nat>): (r: Ship)
    requires ValidIndices(s, idx)
    ensures r.Length() == s.Length() && r.orientation == s.orientation
    decreases |idx|
  {
    if |idx| == 0 then s else AttackAll(Damage(s, idx[0]), idx[1..])
  }

  /** In any interleaving of attacks, each segment ends up where as many
      damage steps as its index occurs in `idx` take it. */
  lemma {:induction false} AttackAllSegments(s: Ship, idx: seq<nat>)
    requires ValidIndices(s, idx)
    ensures forall k :: 0 <= k < s.Length() ==>
      AttackAll(s, idx).segments[k] == Segment.Iterate(s.segments[k], multiset(idx)[k])
    decreases |idx|
  {
    if |idx| > 0 {
      var s' := Damage(s, idx[0]);
      AttackAllSegments(s', idx[1..]);
      assert idx == [idx[0]] + idx[1..];
      forall k | 0 <= k < s.Length()
        ensures AttackAll(s, idx).segments[k] == Segment.Iterate(s.segments[k], multiset(idx)[k])
      {
        if k == idx[0] {
          assert multiset(idx)[k] == multiset(idx[1..])[k] + 1;
        } else {
          assert multiset(idx)[k] == multiset(idx[1..])[k];
        }
      }
    }
  }

  /** A fresh ship is destroyed after a sequence of attacks exactly when
      every one of its segments was attacked at least twice. */
  lemma FreshShipDestroyedAfter(len: nat, ori: Orientation, idx: seq<nat>)
    requires ValidIndices(NewShip(len, ori), idx)
    ensures IsDestroyed(AttackAll(NewShip(len, ori), idx)) <==>
      forall k :: 0 <= k < len ==> multiset(idx)[k] >= 2
  {
    var s := NewShip(len, ori);
    var r := AttackAll(s, idx);
    AttackAllSegments(s, idx);
    forall k | 0 <= k < len
      ensures Segment.IsDestroyed(r.segments[k]) <==> multiset(idx)[k] >= 2
    {
      Segment.TwoCallsDestroy(multiset(idx)[k]);
    }
  }
}
