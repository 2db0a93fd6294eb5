// RAIDStorage computes with size_t. The loops of Read and Write and the bounds checks of the
// minions, with every addition, subtraction and multiplication modulo 2^64, against the unbounded
// arithmetic of RaidSpec: the one addition that can wrap, and the requests on which it does.
module MachineArithmetic {
  import opened Bytes
  import opened Layout
  import opened Minions
  import opened Placements
  import opened RaidSpec

  const WORD: nat := 0x1_0000_0000_0000_0000

  type size = n: nat | n < WORD

  function Add(a: size, b: size): size { (a + b) % WORD }

  function Sub(a: size, b: size): size { (a - b) % WORD }

  function Mul(a: size, b: size): size
  {
    ProductIsNat(a, b);
    (a * b) % WORD
  }

  ghost predicate FitsWord(g: Geometry) {
    g.Valid() && g.primaries < WORD && g.stripe < WORD && g.minion < WORD
  }

  /** The primaries and one more minion have fewer than 2^64 bytes. */
  ghost predicate FitsMemory(g: Geometry) {
    FitsWord(g) && g.Capacity() + g.minion < WORD
  }

  lemma QuotientIsSize(a: size, b: size)
    requires b > 0
    ensures 0 <= a / b < WORD && 0 <= a % b < WORD && a % b < b
  {
    LessByQuotient(a, a + 1, b);
    ProductMonotone(1, b + 1, a + 1);
  }

  function MachineLocalOffset(g: Geometry, o: size): size
    requires FitsWord(g)
  {
    QuotientIsSize(o, g.stripe);
    QuotientIsSize(o / g.stripe, g.primaries);
    Add(Mul(o / g.stripe / g.primaries, g.stripe), o % g.stripe)
  }

  function MachineRoom(g: Geometry, o: size): (n: size)
    requires FitsWord(g)
    ensures n == g.Room(o) && n > 0
  {
    QuotientIsSize(o, g.stripe);
    Sub(g.stripe, o % g.stripe)
  }

  lemma SmallSum(p: nat, r: nat)
    requires p + r < WORD
    ensures p % WORD == p && (p % WORD + r) % WORD == p + r
  {
  }

  lemma LocalOffsetDoesNotWrap(g: Geometry, o: size)
    requires FitsWord(g)
    ensures MachineLocalOffset(g, o) == g.LocalOffset(o) <= o
  {
    LocalOffsetAtMostOffset(g, o);
    QuotientIsSize(o, g.stripe);
    QuotientIsSize(o / g.stripe, g.primaries);
    var group: size := o / g.stripe / g.primaries;
    ProductIsNat(group, g.stripe);
    var product: nat, rest: size := group * g.stripe, o % g.stripe;
    SmallSum(product, rest);
    assert Mul(group, g.stripe) == product;
  }

  // ---- The bounds check of one minion call ----

  /** offset + buf.size() > m_size, as the minions compute it. */
  predicate LetsThrough(g: Geometry, local: size, n: size) {
    Add(local, n) <= g.minion
  }

  /** The check of a chunk is right if and only if its addition does not wrap. */
  lemma CheckIsRightIff(g: Geometry, o: size, n: size)
    requires FitsWord(g) && 0 < n <= g.Room(o)
    ensures LetsThrough(g, MachineLocalOffset(g, o), n) == (g.LocalOffset(o) + n <= g.minion)
            <==> g.LocalOffset(o) + n < WORD
  {
    hide MachineLocalOffset, Geometry.LocalOffset, Geometry.Room;
    LocalOffsetDoesNotWrap(g, o);
    var sum := g.LocalOffset(o) + n;
    if sum >= WORD {
      Room64(g, o, n);
      assert sum % WORD == sum - WORD;
    } else {
      assert sum % WORD == sum;
    }
  }

  /** A chunk that wraps comes back inside the minion. */
  lemma Room64(g: Geometry, o: size, n: size)
    requires FitsWord(g) && 0 < n <= g.Room(o)
    ensures g.LocalOffset(o) + n - WORD <= g.minion
  {
    hide Geometry.LocalOffset;
    LocalOffsetDoesNotWrap(g, o);
    StripeAtMostMinion(g);
  }

  lemma StripeAtMostMinion(g: Geometry)
    requires g.Valid()
    ensures g.stripe <= g.minion
  {
    var stripes := g.minion / g.stripe;
    assert stripes * g.stripe == g.minion;
    ProductMonotone(0, stripes, g.stripe);
  }

  /** It wraps only with a single primary, and there exactly if the chunk ends at or beyond 2^64. */
  lemma WrapsIff(g: Geometry, o: size, n: size)
    requires FitsMemory(g) && 0 < n <= g.Room(o)
    ensures g.LocalOffset(o) + n >= WORD <==> g.primaries == 1 && o + n >= WORD
  {
    hide Geometry.LocalOffset, Geometry.Capacity, Geometry.Room;
    if g.primaries == 1 {
      SinglePrimary(g, o);
    } else {
      HalfOfOffset(g, o, n);
      TwoMinions(g);
      StripeAtMostMinion(g);
    }
  }

  lemma SinglePrimary(g: Geometry, o: nat)
    requires g.stripe > 0 && g.primaries == 1
    ensures g.LocalOffset(o) == o
  {
    assert o / g.stripe / 1 == o / g.stripe;
    Euclid(o, g.stripe);
  }

  /** With two primaries or more a chunk ends in the first half of the address space, but for a stripe. */
  lemma HalfOfOffset(g: Geometry, o: nat, n: nat)
    requires g.stripe > 0 && g.primaries >= 2 && 0 < n <= g.Room(o)
    ensures 2 * (g.LocalOffset(o) + n) <= o + 2 * g.stripe
  {
    var index := o / g.stripe;
    var group, rest := index / g.primaries, o % g.stripe;
    Euclid(index, g.primaries);
    HalfOf(group, index, g.primaries);
    Euclid(o, g.stripe);
    DoubleProduct(group, index, g.stripe);
    HalfOfSum(group * g.stripe, index * g.stripe, rest, n, g.stripe);
  }

  lemma HalfOfSum(local: nat, whole: nat, rest: nat, n: nat, stripe: nat)
    requires 2 * local <= whole && rest + n <= stripe
    ensures 2 * (local + rest + n) <= whole + rest + 2 * stripe
  {
  }

  lemma DoubleProduct(group: nat, index: nat, stripe: nat)
    requires 2 * group <= index
    ensures 2 * (group * stripe) <= index * stripe
  {
    ProductIsNat(index - 2 * group, stripe);
    Distribute(index, 2 * group, stripe);
  }

  lemma HalfOf(group: nat, index: nat, primaries: nat)
    requires primaries >= 2 && group * primaries <= index
    ensures 2 * group <= index
  {
    ProductIsNat(group, primaries - 2);
    assert group * primaries == 2 * group + group * (primaries - 2);
  }

  lemma TwoMinions(g: Geometry)
    requires g.Valid() && g.primaries >= 2
    ensures 2 * g.minion <= g.Capacity()
  {
    ProductIsNat(g.primaries - 2, g.minion);
    assert g.primaries * g.minion == 2 * g.minion + (g.primaries - 2) * g.minion;
  }

  // ---- Whole requests ----

  /** A call the check lets through although it passes the end makes a memory minion copy outside
      m_data; what happens then is not defined. */
  datatype Outcome<+T> = Finished(result: T) | OutsideBuffer

  /** Write in size_t arithmetic. */
  function MachineWrite(g: Geometry, img: Image, o: size, buf: seq<byte>, io: (nat, Copy) -> Io)
    : Outcome<(Image, bool)>
    requires FitsWord(g) && |img| == 2 * g.primaries && |buf| < WORD
    decreases |buf|
  {
    if buf == [] then Finished((img, true))
    else
      var local := MachineLocalOffset(g, o);
      var n: size := if |buf| <= MachineRoom(g, o) then |buf| else MachineRoom(g, o);
      var p := g.PrimaryIndex(o);
      var m := g.MirrorIndex(p);
      if !LetsThrough(g, local, n) then Finished((img, false))
      else if local + n > g.minion then OutsideBuffer
      else
        var first := MinionWrite(img[p], local, buf[..n], io(o, Primary));
        var img1 := img[p := first.data];
        var second := MinionWrite(img1[m], local, buf[..n], io(o, Mirror));
        var img2 := img1[m := second.data];
        if !first.ok then Finished((img1, false))
        else if !second.ok then Finished((img2, false))
        else MachineWrite(g, img2, Add(o, n), buf[n..], io)
  }

  lemma SubShrinks(a: size, b: size)
    requires b <= a
    ensures Sub(a, b) == a - b
  {
  }

  /** Read in size_t arithmetic. */
  function MachineRead(g: Geometry, img: Image, o: size, remaining: size, bad: (nat, Copy) -> bool)
    : Outcome<(seq<byte>, bool)>
    requires FitsWord(g) && |img| == 2 * g.primaries
    decreases remaining
  {
    if remaining == 0 then Finished(([], true))
    else
      var local := MachineLocalOffset(g, o);
      var n: size := if remaining <= MachineRoom(g, o) then remaining else MachineRoom(g, o);
      var p := g.PrimaryIndex(o);
      if !LetsThrough(g, local, n) then Finished(([], false))
      else if local + n > g.minion then OutsideBuffer
      else
        var first := MinionRead(img[p], local, n, bad(o, Primary));
        var second := MinionRead(img[g.MirrorIndex(p)], local, n, bad(o, Mirror));
        if first.Threw? && second.Threw? then Finished(([], false))
        else
          SubShrinks(remaining, n);
          match MachineRead(g, img, Add(o, n), Sub(remaining, n), bad)
          case OutsideBuffer => OutsideBuffer
          case Finished((rest, ok)) => Finished(((if first.Ok? then first.value else second.value) + rest, ok))
  }

  /** The length of the first chunk. */
  function FirstChunk(g: Geometry, o: nat, len: nat): nat
    requires g.stripe > 0
  {
    Min(len, g.Room(o))
  }

  /** The first chunk wraps: a single primary, and it ends at or beyond 2^64. */
  predicate Wraps(g: Geometry, o: nat, len: nat)
    requires g.stripe > 0
  {
    g.primaries == 1 && len > 0 && o + FirstChunk(g, o, len) >= WORD
  }

  /** The first chunk of a request, in both arithmetics. */
  lemma FirstMachineChunk(g: Geometry, o: size, len: size)
    requires FitsWord(g) && len > 0
    ensures var n := FirstChunk(g, o, len);
            && 0 < n <= len && n <= g.Room(o) && n < WORD && n == Striped(g).ChunkLength(o, len)
            && n == (if len <= MachineRoom(g, o) then len else MachineRoom(g, o))
            && Striped(g).primary(o) == g.PrimaryIndex(o) && Striped(g).local(o) == MachineLocalOffset(g, o)
            && Striped(g).primaries == g.primaries && Striped(g).minion == g.minion
  {
    LocalOffsetDoesNotWrap(g, o);
    hide MachineLocalOffset, Geometry.LocalOffset, Geometry.PrimaryIndex, Geometry.Capacity;
  }

  /** Its check lets it through exactly if it is in range or wraps. */
  lemma FirstCheck(g: Geometry, o: size, n: size)
    requires FitsMemory(g) && 0 < n <= g.Room(o)
    ensures LetsThrough(g, MachineLocalOffset(g, o), n) <==>
            o < g.Capacity() || (g.primaries == 1 && o + n >= WORD)
    ensures MachineLocalOffset(g, o) + n <= g.minion <==> o < g.Capacity()
    ensures o < g.Capacity() ==> o + n <= g.Capacity()
  {
    hide MachineLocalOffset, LetsThrough, Geometry.LocalOffset, Geometry.PrimaryIndex, Geometry.Capacity;
    LocalOffsetDoesNotWrap(g, o);
    CheckIsRightIff(g, o, n);
    WrapsIff(g, o, n);
    Layout.ChunkFitsWhole(g, o, n);
  }

  /** After an in-range chunk nothing wraps any more. */
  lemma NextDoesNotWrap(g: Geometry, o: size, len: size)
    requires FitsMemory(g) && len > 0 && o < g.Capacity()
    ensures var n := FirstChunk(g, o, len);
            && n <= len && o + n <= g.Capacity() && !Wraps(g, o, len) && !Wraps(g, o + n, len - n)
            && n < WORD && Add(o, n) == o + n && Sub(len, n) == len - n
  {
    var n := FirstChunk(g, o, len);
    StripeAtMostMinion(g);
    Layout.ChunkFitsWhole(g, o, n);
    assert (o + n) % WORD == o + n && (len - n) % WORD == len - n;
    RoomAtMostStripe(g, o + n);
  }

  lemma RoomAtMostStripe(g: Geometry, o: nat)
    requires g.stripe > 0
    ensures g.Room(o) <= g.stripe
  {
  }

  /** A Write does in size_t arithmetic what it does in unbounded arithmetic if and only if its first
      chunk does not wrap; if it does, the first minion call leaves the buffer. */
  lemma {:induction false} MachineWriteIsWriteIff(g: Geometry, img: Image, o: size, buf: seq<byte>,
                                                  io: (nat, Copy) -> Io)
    requires FitsMemory(g) && WellFormed(Striped(g), img) && |buf| < WORD
    ensures MachineWrite(g, img, o, buf, io) ==
            if Wraps(g, o, |buf|) then OutsideBuffer else Finished(WriteChunks(Striped(g), img, o, buf, io))
    decreases |buf|
  {
    hide MachineLocalOffset, MachineRoom, Geometry.PrimaryIndex, Geometry.Capacity, Placement.Lawful;
    hide Add, Sub, LetsThrough, Striped, Wraps, FirstChunk, MinionWrite, MachineWrite, WriteChunks;
    if buf == [] || o >= g.Capacity() {
      WriteStoresNothing(g, img, o, buf, io);
    } else {
      var n := FirstChunk(g, o, |buf|);
      FirstMachineChunk(g, o, |buf|);
      FirstCheck(g, o, n);
      NextDoesNotWrap(g, o, |buf|);
      var p, m := g.PrimaryIndex(o), g.MirrorIndex(g.PrimaryIndex(o));
      var first := MinionWrite(img[p], MachineLocalOffset(g, o), buf[..n], io(o, Primary));
      var img1 := img[p := first.data];
      var second := MinionWrite(img1[m], MachineLocalOffset(g, o), buf[..n], io(o, Mirror));
      WriteTurn(Striped(g), img, o, buf, io, first, second);
      MachineWriteTurn(g, img, o, buf, io, n, first, second);
      if first.ok && second.ok {
        MachineWriteIsWriteIff(g, img1[m := second.data], o + n, buf[n..], io);
      }
    }
  }

  /** A Write that is empty, or starts beyond the storage, in both arithmetics. */
  lemma WriteStoresNothing(g: Geometry, img: Image, o: size, buf: seq<byte>, io: (nat, Copy) -> Io)
    requires FitsMemory(g) && WellFormed(Striped(g), img) && |buf| < WORD && (buf == [] || o >= g.Capacity())
    ensures MachineWrite(g, img, o, buf, io) ==
            if Wraps(g, o, |buf|) then OutsideBuffer else Finished(WriteChunks(Striped(g), img, o, buf, io))
  {
    hide MachineLocalOffset, MachineRoom, Geometry.PrimaryIndex, Geometry.Capacity, Placement.Lawful;
    hide Add, Sub, LetsThrough, Striped;
    if buf != [] {
      FirstMachineChunk(g, o, |buf|);
      FirstCheck(g, o, FirstChunk(g, o, |buf|));
      assert img[g.PrimaryIndex(o) := img[g.PrimaryIndex(o)]] == img;
    }
  }

  /** One turn of a Write, by the outcomes of its two minion calls. */
  lemma MachineWriteTurn(g: Geometry, img: Image, o: size, buf: seq<byte>, io: (nat, Copy) -> Io,
                         n: size, first: WriteOutcome, second: WriteOutcome)
    requires FitsWord(g) && |img| == 2 * g.primaries && buf != [] && |buf| < WORD
    requires n == (if |buf| <= MachineRoom(g, o) then |buf| else MachineRoom(g, o)) && n <= |buf|
    requires LetsThrough(g, MachineLocalOffset(g, o), n) && MachineLocalOffset(g, o) + n <= g.minion
    requires var p, local := g.PrimaryIndex(o), MachineLocalOffset(g, o);
             var img1 := img[p := first.data];
             && first == MinionWrite(img[p], local, buf[..n], io(o, Primary))
             && second == MinionWrite(img1[g.MirrorIndex(p)], local, buf[..n], io(o, Mirror))
    ensures var p := g.PrimaryIndex(o);
            var img1 := img[p := first.data];
            var img2 := img1[g.MirrorIndex(p) := second.data];
            MachineWrite(g, img, o, buf, io) ==
            if !first.ok then Finished((img1, false))
            else if !second.ok then Finished((img2, false))
            else MachineWrite(g, img2, Add(o, n), buf[n..], io)
  {
    hide MachineLocalOffset, MachineRoom, LetsThrough, Geometry.PrimaryIndex, MinionWrite, Add, Sub;
  }

  /** What the minion calls for a chunk return. */
  function MachineChunk(g: Geometry, img: Image, o: size, n: size, bad: (nat, Copy) -> bool): Result<seq<byte>>
    requires FitsWord(g) && |img| == 2 * g.primaries
  {
    var local, p := MachineLocalOffset(g, o), g.PrimaryIndex(o);
    var first := MinionRead(img[p], local, n, bad(o, Primary));
    if first.Ok? then first else MinionRead(img[g.MirrorIndex(p)], local, n, bad(o, Mirror))
  }

  /** One turn of a Read, by the outcome of its chunk. */
  lemma MachineReadTurn(g: Geometry, img: Image, o: size, len: size, bad: (nat, Copy) -> bool, n: size)
    requires FitsWord(g) && |img| == 2 * g.primaries && len > 0
    requires n == if len <= MachineRoom(g, o) then len else MachineRoom(g, o)
    requires LetsThrough(g, MachineLocalOffset(g, o), n) && MachineLocalOffset(g, o) + n <= g.minion
    ensures var chunk := MachineChunk(g, img, o, n, bad);
            MachineRead(g, img, o, len, bad) ==
            if chunk.Threw? then Finished(([], false))
            else match MachineRead(g, img, Add(o, n), Sub(len, n), bad)
                 case OutsideBuffer => OutsideBuffer
                 case Finished((rest, ok)) => Finished((chunk.value + rest, ok))
  {
    hide MachineLocalOffset, MachineRoom, LetsThrough, Geometry.PrimaryIndex, MinionRead, Add, Sub;
  }

  lemma SameChunk(g: Geometry, img: Image, o: size, n: size, bad: (nat, Copy) -> bool)
    requires FitsWord(g) && WellFormed(Striped(g), img)
    ensures |img| == 2 * g.primaries
    ensures MachineChunk(g, img, o, n, bad) == ReadChunk(Striped(g), img, o, n, bad)
    ensures MachineLocalOffset(g, o) + n > g.minion ==> ReadChunk(Striped(g), img, o, n, bad) == Threw
  {
    FirstMachineChunk(g, o, 1);
    hide MachineLocalOffset, Geometry.PrimaryIndex, Geometry.Capacity, Placement.Lawful, FirstChunk, MachineRoom;
  }

  /** And so does a Read. */
  lemma {:induction false} MachineReadIsReadIff(g: Geometry, img: Image, o: size, len: size,
                                                bad: (nat, Copy) -> bool)
    requires FitsMemory(g) && WellFormed(Striped(g), img)
    ensures MachineRead(g, img, o, len, bad) ==
            if Wraps(g, o, len) then OutsideBuffer else Finished(ReadChunks(Striped(g), img, o, len, bad))
    decreases len
  {
    hide MachineLocalOffset, MachineRoom, Geometry.PrimaryIndex, Geometry.Capacity, Placement.Lawful;
    hide Add, Sub, LetsThrough, Striped, ReadChunk, MachineChunk, Wraps, FirstChunk, MachineRead, ReadChunks;
    if len == 0 || o >= g.Capacity() {
      ReadReturnsNothing(g, img, o, len, bad);
    } else {
      var n := FirstChunk(g, o, len);
      FirstMachineChunk(g, o, len);
      FirstCheck(g, o, n);
      SameChunk(g, img, o, n, bad);
      ReadTurn(Striped(g), img, o, len, bad, ReadChunk(Striped(g), img, o, n, bad));
      NextDoesNotWrap(g, o, len);
      MachineReadTurn(g, img, o, len, bad, n);
      MachineReadIsReadIff(g, img, o + n, len - n, bad);
    }
  }

  /** A Read that is empty, or starts beyond the storage, in both arithmetics. */
  lemma ReadReturnsNothing(g: Geometry, img: Image, o: size, len: size, bad: (nat, Copy) -> bool)
    requires FitsMemory(g) && WellFormed(Striped(g), img) && (len == 0 || o >= g.Capacity())
    ensures MachineRead(g, img, o, len, bad) ==
            if Wraps(g, o, len) then OutsideBuffer else Finished(ReadChunks(Striped(g), img, o, len, bad))
  {
    hide MachineLocalOffset, MachineRoom, Geometry.PrimaryIndex, Geometry.Capacity, Placement.Lawful;
    hide Add, Sub, LetsThrough, Striped, ReadChunk, MachineChunk;
    if len > 0 {
      var n := FirstChunk(g, o, len);
      FirstMachineChunk(g, o, len);
      FirstCheck(g, o, n);
      SameChunk(g, img, o, n, bad);
      ReadTurn(Striped(g), img, o, len, bad, ReadChunk(Striped(g), img, o, n, bad));
    }
  }

  /** In particular a request that ends below 2^64 is safe, and so is every request to a storage with
      two primaries or more. */
  lemma SafeRequests(g: Geometry, o: nat, len: nat)
    requires FitsMemory(g)
    ensures o + len < WORD || g.primaries > 1 ==> !Wraps(g, o, len)
  {
  }

  /** Two minions of 1 MiB, and a Write of one byte at the last 64-bit offset, which the wire can
      carry: the check passes, and the copy goes to the last address there is. */
  lemma LastOffsetWraps(img: Image, b: byte, io: (nat, Copy) -> Io)
    requires |img| == 2
    ensures var g := Geometry(1, 0x10_0000, 0x10_0000);
            FitsMemory(g) && MachineWrite(g, img, WORD - 1, [b], io) == OutsideBuffer
  {
    var g := Geometry(1, 0x10_0000, 0x10_0000);
    LocalOffsetDoesNotWrap(g, WORD - 1);
    SinglePrimary(g, WORD - 1);
    hide MachineLocalOffset;
  }

  // ---- LocalStorage ----

  /** offset + buffer.size() > m_storage.size(), as LocalStorage computes it. */
  predicate LocalLetsThrough(capacity: size, o: size, n: size) {
    Add(o, n) <= capacity
  }

  /** Its check is right if and only if its addition does not wrap back into the array. */
  lemma LocalCheckIsRightIff(capacity: size, o: size, n: size)
    ensures LocalLetsThrough(capacity, o, n) == (o + n <= capacity)
            <==> !(WORD <= o + n <= WORD + capacity)
  {
    if o + n < WORD {
      assert (o + n) % WORD == o + n;
    } else {
      assert (o + n) % WORD == o + n - WORD;
    }
  }

  /** The byte at the last offset is one such request, whatever the size of the array. */
  lemma LastOffsetPassesLocally(capacity: size)
    ensures LocalLetsThrough(capacity, WORD - 1, 1) && WORD - 1 + 1 > capacity
  {
    LocalCheckIsRightIff(capacity, WORD - 1, 1);
  }
}
