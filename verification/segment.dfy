/** One damageable unit of a ship (class ShipSegment). */
module Segment {

  /** ShipSegment::State: a one-way track Intact -> Damaged -> Destroyed. */
  datatype State = Intact | Damaged | Destroyed

  /** Position of a state along the damage track; the reference against
      which every transition is judged. */
  function Rank(s: State): nat {
    match s
    case Intact => 0
    case Damaged => 1
    case Destroyed => 2
  }

  /** ShipSegment::takeDamage: one step along the track, a no-op at the end. */
  function TakeDamage(s: State): (r: State)
    ensures Rank(r) == if Rank(s) == 2 then 2 else Rank(s) + 1
    ensures Rank(s) <= Rank(r)
    ensures r == s <==> s == Destroyed
  {
    match s
    case Intact => Damaged
    case Damaged => Destroyed
    case Destroyed => Destroyed
  }

  /** ShipSegment::isDestroyed: the segment sits at the end of the track. */
  predicate IsDestroyed(s: State)
    ensures IsDestroyed(s) <==> Rank(s) == 2
  {
    s == Destroyed
  }

  /** The state after `n` consecutive `TakeDamage` calls. */
  function Iterate(s: State, n: nat): State
    decreases n
  {
    if n == 0 then s else Iterate(TakeDamage(s), n - 1)
  }

  /** `n` damage calls advance the rank by `n`, capped at the end of the
      track: the state never moves backwards, and a segment is destroyed
      exactly when enough calls have been made. */
  lemma {:induction false} IterateRank(s: State, n: nat)
    ensures Rank(Iterate(s, n)) == if Rank(s) + n >= 2 then 2 else Rank(s) + n
    ensures Rank(s) <= Rank(Iterate(s, n))
    ensures IsDestroyed(Iterate(s, n)) <==> Rank(s) + n >= 2
    decreases n
  {
    if n > 0 {
      IterateRank(TakeDamage(s), n - 1);
    }
  }

  /** Two calls from Intact always destroy a segment; one does not. */
  lemma {:induction false} TwoCallsDestroy(n: nat)
    ensures IsDestroyed(Iterate(Intact, n)) <==> n >= 2
  {
    IterateRank(Intact, n);
  }
}
