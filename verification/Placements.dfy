// What the storage proofs need of a layout: where a logical byte lives, and the laws that make
// the primaries one array cut into pieces.
module Placements {

  /** primary and local give the place of an offset, room the bytes left in its stripe, and
      offsetOf the offset of a place. */
  datatype Placement = Placement(
    primaries: nat,
    minion: nat,
    capacity: nat,
    primary: nat -> nat,
    local: nat -> nat,
    room: nat -> nat,
    offsetOf: (nat, nat) -> nat
  ) {

    /** The inverse finds o again, and the minions hold o exactly if it is below the capacity,
        which is a stripe boundary. */
    ghost predicate OffsetLaw(o: nat) {
      && primary(o) < primaries
      && room(o) > 0
      && offsetOf(primary(o), local(o)) == o
      && (local(o) < minion <==> o < capacity)
      && (o < capacity ==> o + room(o) <= capacity)
    }

    /** Every place on a primary is the place of an offset. */
    ghost predicate PlaceLaw(p: nat, l: nat) {
      p < primaries ==> primary(offsetOf(p, l)) == p && local(offsetOf(p, l)) == l
    }

    /** Up to the stripe boundary, consecutive bytes of one minion. */
    ghost predicate ChunkLaw(o: nat, x: nat) {
      o <= x < o + room(o) ==> primary(x) == primary(o) && local(x) == local(o) + (x - o)
    }

    ghost predicate Lawful() {
      && (forall o: nat :: OffsetLaw(o))
      && (forall p: nat, l: nat :: PlaceLaw(p, l))
      && (forall o: nat, x: nat :: ChunkLaw(o, x))
    }

    /** The chunk the loops of Read and Write cut: up to the stripe boundary. */
    function ChunkLength(offset: nat, remaining: nat): (n: nat)
      ensures n <= remaining && n <= room(offset) && (n == remaining || n == room(offset))
      ensures room(offset) > 0 && remaining > 0 ==> n > 0
    {
      if remaining <= room(offset) then remaining else room(offset)
    }
  }

  /** A chunk is inside the minions or outside them as a whole. */
  lemma ChunkFitsWhole(at: Placement, o: nat, n: nat)
    requires at.Lawful() && 0 < n <= at.room(o)
    ensures at.local(o) + n <= at.minion <==> o < at.capacity
    ensures o < at.capacity <==> o + n <= at.capacity
  {
    var last := o + n - 1;
    assert at.OffsetLaw(o) && at.OffsetLaw(last) && at.ChunkLaw(o, last);
  }

  /** A place is in the local range of a chunk exactly when its offset is in the chunk. */
  lemma PlaceInChunk(at: Placement, o: nat, n: nat, x: nat)
    requires at.Lawful() && n <= at.room(o)
    ensures o <= x < o + n <==>
            at.primary(x) == at.primary(o) && at.local(o) <= at.local(x) < at.local(o) + n
    ensures o <= x < o + n ==> at.local(x) == at.local(o) + (x - o)
  {
    assert at.ChunkLaw(o, x);
    if at.primary(x) == at.primary(o) && at.local(o) <= at.local(x) < at.local(o) + n {
      var y := o + (at.local(x) - at.local(o));
      assert at.ChunkLaw(o, y) && at.OffsetLaw(x) && at.OffsetLaw(y);
    }
  }
}
