// Where RAIDStorage puts a logical byte: the arithmetic of PrimaryIndex, MirrorIndex and
// LocalOffset, for any stripe size that divides the minion size. RAIDStorage's constructor
// picks the stripe size equal to the minion size.
module Layout {
  import opened Placements

  datatype Geometry = Geometry(primaries: nat, stripe: nat, minion: nat) {

    ghost predicate Valid() {
      primaries > 0 && stripe > 0 && minion > 0 && minion % stripe == 0
    }

    function PrimaryIndex(offset: nat): (p: nat)
      requires primaries > 0 && stripe > 0
      ensures p < primaries
    {
      (offset / stripe) % primaries
    }

    function MirrorIndex(primary: nat): nat {
      primaries + primary
    }

    function LocalOffset(offset: nat): nat
      requires primaries > 0 && stripe > 0
    {
      ProductIsNat(offset / stripe / primaries, stripe);
      offset / stripe / primaries * stripe + offset % stripe
    }

    function Capacity(): nat {
      ProductIsNat(primaries, minion);
      primaries * minion
    }

    /** The bytes left before the next stripe boundary: available_in_stripe. */
    function Room(offset: nat): (n: nat)
      requires stripe > 0
      ensures n > 0
    {
      stripe - offset % stripe
    }

    /** The logical offset stored at a place: the inverse of (PrimaryIndex, LocalOffset). */
    function OffsetOf(primary: nat, local: nat): nat
      requires stripe > 0
    {
      ProductIsNat(local / stripe, primaries);
      ProductIsNat(local / stripe * primaries + primary, stripe);
      (local / stripe * primaries + primary) * stripe + local % stripe
    }
  }

  lemma ProductIsNat(a: int, b: int)
    requires a >= 0 && b >= 0
    ensures a * b >= 0
  {
  }

  lemma ProductMonotone(a: int, b: int, d: int)
    requires d > 0
    ensures a < b <==> a * d < b * d
    ensures a < b ==> a * d + d <= b * d
  {
    if a < b {
      ProductIsNat(b - a - 1, d);
      Distribute(b - 1, a, d);
      Distribute(b, b - 1, d);
    } else {
      ProductIsNat(a - b, d);
      Distribute(a, b, d);
    }
  }

  lemma Distribute(a: int, b: int, d: int)
    ensures (a - b) * d == a * d - b * d
  {
  }

  lemma QuotientAndRemainder(q: int, r: int, d: int)
    requires 0 <= r < d
    ensures (q * d + r) / d == q && (q * d + r) % d == r
  {
    var y := (q * d + r) / d;
    Euclid(q * d + r, d);
    ProductMonotone(q, y, d);
    ProductMonotone(y, q, d);
  }

  lemma Euclid(x: int, d: int)
    requires d > 0
    ensures x / d * d + x % d == x && 0 <= x % d < d
  {
  }

  /** Onto: every place on a primary minion is the place of some logical offset. */
  lemma EveryPlaceIsUsed(g: Geometry, p: nat, l: nat)
    requires g.stripe > 0 && p < g.primaries
    ensures g.PrimaryIndex(g.OffsetOf(p, l)) == p && g.LocalOffset(g.OffsetOf(p, l)) == l
  {
    var index := l / g.stripe * g.primaries + p;
    QuotientAndRemainder(index, l % g.stripe, g.stripe);
    QuotientAndRemainder(l / g.stripe, p, g.primaries);
  }

  /** One-to-one: the place of an offset determines the offset. */
  lemma PlaceDeterminesOffset(g: Geometry, o: nat)
    requires g.stripe > 0 && g.primaries > 0
    ensures g.OffsetOf(g.PrimaryIndex(o), g.LocalOffset(o)) == o
  {
    var index := o / g.stripe;
    QuotientAndRemainder(index / g.primaries, o % g.stripe, g.stripe);
    assert index / g.primaries * g.primaries + index % g.primaries == index;
  }

  lemma DistinctOffsetsHaveDistinctPlaces(g: Geometry, a: nat, b: nat)
    requires g.stripe > 0 && g.primaries > 0
    ensures a == b <==> g.PrimaryIndex(a) == g.PrimaryIndex(b) && g.LocalOffset(a) == g.LocalOffset(b)
  {
    PlaceDeterminesOffset(g, a);
    PlaceDeterminesOffset(g, b);
  }

  /** A chunk cut at the stripe boundary lies on consecutive local bytes of one minion. */
  lemma ChunkIsContiguous(g: Geometry, o: nat, i: nat)
    requires g.stripe > 0 && g.primaries > 0
    requires i < g.Room(o)
    ensures g.PrimaryIndex(o + i) == g.PrimaryIndex(o)
    ensures g.LocalOffset(o + i) == g.LocalOffset(o) + i
  {
    QuotientAndRemainder(o / g.stripe, o % g.stripe + i, g.stripe);
    assert o / g.stripe * g.stripe + (o % g.stripe + i) == o + i;
  }

  /** The minions hold exactly the offsets below the capacity. */
  lemma FitsIffBelowCapacity(g: Geometry, o: nat)
    requires g.Valid()
    ensures g.LocalOffset(o) < g.minion <==> o < g.Capacity()
  {
    var stripes := g.minion / g.stripe;
    assert stripes * g.stripe == g.minion;
    var index := o / g.stripe;
    var group := index / g.primaries;
    assert g.LocalOffset(o) == group * g.stripe + o % g.stripe;
    LessByQuotient(g.LocalOffset(o), stripes, g.stripe);
    QuotientAndRemainder(group, o % g.stripe, g.stripe);
    LessByQuotient(index, stripes, g.primaries);
    LessByQuotient(o, stripes * g.primaries, g.stripe);
    assert stripes * g.primaries * g.stripe == g.Capacity() by {
      assert stripes * g.primaries * g.stripe == g.primaries * (stripes * g.stripe);
    }
  }

  lemma CapacityInStripes(g: Geometry) returns (all: nat)
    requires g.Valid()
    ensures all * g.stripe == g.Capacity()
  {
    var stripes := g.minion / g.stripe;
    assert stripes * g.stripe == g.minion;
    ProductIsNat(stripes, g.primaries);
    all := stripes * g.primaries;
    assert all * g.stripe == g.primaries * (stripes * g.stripe);
  }

  lemma LessByQuotient(x: nat, k: int, d: nat)
    requires d > 0
    ensures x < k * d <==> x / d < k
  {
    assert x / d * d + x % d == x;
    ProductMonotone(x / d, k, d);
    ProductMonotone(k - 1, x / d, d);
  }

  /** A chunk is inside the minions or outside them as a whole: the capacity is a stripe boundary. */
  lemma ChunkFitsWhole(g: Geometry, o: nat, n: nat)
    requires g.Valid() && 0 < n <= g.Room(o)
    ensures g.LocalOffset(o) + n <= g.minion <==> o < g.Capacity()
    ensures o < g.Capacity() <==> o + n <= g.Capacity()
  {
    ChunkIsContiguous(g, o, n - 1);
    FitsIffBelowCapacity(g, o);
    FitsIffBelowCapacity(g, o + n - 1);
    hide Geometry.LocalOffset, Geometry.PrimaryIndex;
    var all := CapacityInStripes(g);
    LessByQuotient(o, all, g.stripe);
    ProductMonotone(o / g.stripe, all, g.stripe);
    assert o / g.stripe * g.stripe + o % g.stripe == o;
  }

  lemma LocalOffsetAtMostOffset(g: Geometry, o: nat)
    requires g.stripe > 0 && g.primaries > 0
    ensures g.LocalOffset(o) <= o
  {
    var index := o / g.stripe;
    assert index / g.primaries <= index by {
      LessByQuotient(index, index + 1, g.primaries);
      ProductMonotone(1, g.primaries + 1, index + 1);
    }
    ProductMonotone(index, index / g.primaries, g.stripe);
    assert index * g.stripe + o % g.stripe == o;
  }

  /** The stripes go round the primaries in order: byte j of the k-th stripe on primary p, and what is
      left of that stripe. */
  lemma RoundRobin(g: Geometry, k: nat, p: nat, j: nat)
    requires g.Valid() && p < g.primaries && j < g.stripe
    ensures 0 <= (k * g.primaries + p) * g.stripe + j
    ensures var o := (k * g.primaries + p) * g.stripe + j;
            g.PrimaryIndex(o) == p && g.LocalOffset(o) == k * g.stripe + j && g.Room(o) == g.stripe - j
  {
    ProductIsNat(k, g.primaries);
    ProductIsNat(k * g.primaries + p, g.stripe);
    QuotientAndRemainder(k * g.primaries + p, j, g.stripe);
    QuotientAndRemainder(k, p, g.primaries);
  }

  /** The layout as a placement: what the rest of the storage proofs know of it. */
  function Striped(g: Geometry): Placement
    requires g.Valid()
  {
    Placement(g.primaries, g.minion, g.Capacity(),
              (o: nat) => g.PrimaryIndex(o),
              (o: nat) => g.LocalOffset(o),
              (o: nat) => g.Room(o),
              (p: nat, l: nat) => g.OffsetOf(p, l))
  }

  lemma StripedLocal(g: Geometry, o: nat)
    requires g.Valid()
    ensures Striped(g).local(o) == o / g.stripe / g.primaries * g.stripe + o % g.stripe
  {
  }

  lemma StripedIsLawful(g: Geometry)
    requires g.Valid()
    ensures Striped(g).Lawful()
  {
    var s := Striped(g);
    forall o: nat
      ensures s.OffsetLaw(o)
    {
      PlaceDeterminesOffset(g, o);
      FitsIffBelowCapacity(g, o);
      ChunkFitsWhole(g, o, g.Room(o));
    }
    forall p: nat, l: nat
      ensures s.PlaceLaw(p, l)
    {
      if p < s.primaries {
        EveryPlaceIsUsed(g, p, l);
      }
    }
    forall o: nat, x: nat
      ensures s.ChunkLaw(o, x)
    {
      if o <= x < o + s.room(o) {
        ChunkIsContiguous(g, o, x - o);
      }
    }
  }
}
