// RAIDStorage itself: the loops of Read and Write over the minion objects, proved to do what
// RaidRuns.RaidStep says.
module Raid {
  import opened Bytes
  import opened OrderedMaps
  import opened Layout
  import opened MetadataStores
  import opened Minions
  import opened Placements
  import opened RaidSpec
  import opened RaidRuns
  import opened Requests
  import opened Streams

  /** The contents of the minions. */
  ghost function Contents(ms: seq<StorageMinionFile>): (img: Image)
    reads set m | m in ms :: m.data
    ensures |img| == |ms|
    ensures forall i | 0 <= i < |ms| :: img[i] == ms[i].data[..]
  {
    if ms == [] then [] else Contents(ms[..|ms| - 1]) + [ms[|ms| - 1].data[..]]
  }

  /** No two minions share a buffer. */
  ghost predicate Separate(ms: seq<StorageMinionFile>) {
    forall i, j | 0 <= i < j < |ms| :: ms[i].data != ms[j].data
  }

  /** Copying one more chunk into the buffer of a Read. */
  lemma ChunkCopied(whole: seq<byte>, buffer: seq<byte>, initial: seq<byte>, at: nat, chunk: seq<byte>, rest: seq<byte>)
    requires |buffer| == |initial| && at + |chunk| <= |buffer| && buffer[at..] == initial[at..]
    requires whole == buffer[..at] + (chunk + rest)
    ensures var after, n := Splice(buffer, at, chunk), at + |chunk|;
            after[n..] == initial[n..] && whole == after[..n] + rest
  {
    var after, n := Splice(buffer, at, chunk), at + |chunk|;
    assert after[..n] == buffer[..at] + chunk;
    assert after[n..] == buffer[at..][|chunk|..];
  }

  class RAIDStorage {
    const minions: seq<StorageMinionFile>
    const store: MetadataStore
    const numPrimary: nat
    const minionSize: nat
    const stripeSize: nat
    var offsetSizes: map<nat, nat>

    ghost function Geo(): Geometry {
      Geometry(numPrimary, stripeSize, minionSize)
    }

    ghost predicate Valid() {
      && Geo().Valid()
      && |minions| == 2 * numPrimary
      && Separate(minions)
      && forall i | 0 <= i < |minions| :: minions[i].data.Length == minionSize
    }

    ghost function Placed(): (at: Placement)
      requires Valid()
      ensures at.Lawful() && at.primaries == numPrimary && at.minion == minionSize
    {
      StripedIsLawful(Geo());
      Striped(Geo())
    }

    ghost function State(): (s: RaidState)
      requires Valid()
      reads this, store.Repr(), set m | m in minions :: m.data
      ensures WellFormed(Placed(), s.img) && s.index == offsetSizes
    {
      RaidState(Contents(minions), offsetSizes, store.Contents())
    }

    /** With the stripe as large as a minion, as the constructor makes it, the logical array is the
        primaries one after another, and their mirrors hold the other copy. */
    lemma OneAfterAnother(p: nat, l: nat)
      requires Valid() && stripeSize == minionSize && p < numPrimary && l < minionSize
      ensures 0 <= p * minionSize + l < Placed().capacity == numPrimary * minionSize
      ensures var o, img := p * minionSize + l, Contents(minions);
              && WellFormed(Placed(), img)
              && View(Placed(), img, Primary)[o] == minions[p].data[l]
              && View(Placed(), img, Mirror)[o] == minions[numPrimary + p].data[l]
    {
      var at, img, o := Placed(), State().img, p * minionSize + l;
      ProductIsNat(p, minionSize);
      RoundRobin(Geo(), 0, p, l);
      assert at.primary(o) == p && at.local(o) == l;
      assert at.OffsetLaw(o);
      hide Placed, Placement.Lawful;
      assert View(at, img, Primary)[o] == Byte(at, img, Primary, o);
      assert View(at, img, Mirror)[o] == Byte(at, img, Mirror, o);
    }

    /** The constructor's body, after its checks. */
    constructor Checked(minions: seq<StorageMinionFile>, store: MetadataStore, canOpen: bool)
      requires |minions| > 0 && |minions| % 2 == 0
      ensures this.minions == minions && this.store == store && numPrimary == |minions| / 2
      ensures stripeSize == minionSize == minions[0].data.Length
      ensures offsetSizes == Loaded(store.Contents(), canOpen)
    {
      this.minions, this.store := minions, store;
      numPrimary := |minions| / 2;
      minionSize := minions[0].Size();
      stripeSize := minions[0].Size();
      new;
      offsetSizes := store.Load(canOpen);
    }

    /** The constructor: it throws on an empty or odd set of minions, and takes the sizes as they
        come. The storage it makes is sound if and only if the minions have one positive size, and a
        buffer each; StorageFactory makes such minions. */
    static method Create(minions: seq<StorageMinionFile>, store: MetadataStore, canOpen: bool)
      returns (r: RAIDStorage?)
      ensures r == null <==> |minions| == 0 || |minions| % 2 != 0
      ensures r != null ==>
                && fresh(r) && r.minions == minions && r.store == store && r.numPrimary == |minions| / 2
                && r.stripeSize == r.minionSize == minions[0].data.Length
                && r.offsetSizes == Loaded(store.Contents(), canOpen)
                && (r.Valid() <==>
                      Separate(minions) && forall m | m in minions :: 0 < m.data.Length == minions[0].data.Length)
                && (r.Valid() ==> r.Placed().capacity == |minions| / 2 * minions[0].data.Length)
    {
      if |minions| == 0 || |minions| % 2 != 0 {
        return null;
      }
      r := new RAIDStorage.Checked(minions, store, canOpen);
    }

    function PrimaryIndex(offset: nat): (p: nat)
      requires Valid()
      ensures p == MinionOf(Placed(), Primary, offset) && p < |minions|
    {
      assert Placed().OffsetLaw(offset);
      offset / stripeSize % numPrimary
    }

    function MirrorIndex(primary: nat): nat {
      numPrimary + primary
    }

    function LocalOffset(offset: nat): (l: nat)
      requires Valid()
      ensures l == Placed().local(offset)
    {
      StripedLocal(Geo(), offset);
      var stripeIndex := offset / stripeSize;
      var stripeGroup := stripeIndex / numPrimary;
      ProductIsNat(stripeGroup, stripeSize);
      stripeGroup * stripeSize + offset % stripeSize
    }

    /** min(remaining, available_in_stripe). */
    function ChunkSize(offset: nat, remaining: nat): (n: nat)
      requires Valid()
      ensures n == Placed().ChunkLength(offset, remaining) && n <= remaining
      ensures remaining > 0 ==> n > 0
    {
      assert Placed().OffsetLaw(offset);
      var available := stripeSize - offset % stripeSize;
      if remaining <= available then remaining else available
    }

    method Write(data: DriverData, f: Faults)
      requires Valid()
      modifies this`offsetSizes, store.Repr(), data`ok, set m | m in minions :: m.data
      ensures Valid()
      ensures (State(), Status(data.ok)) ==
              RaidStep(Placed(), old(State()), RaidRuns.Write(data.offset, data.buffer), f)
    {
      hide Placed, Valid, WriteChunks, WellFormed, Contents, Saved, Separate, Striped, Placement.Lawful, RaidStep;
      ghost var before := State();
      var ok := StoreChunks(data.offset, data.buffer, f.write);
      WriteStep(Placed(), before, data.offset, data.buffer, f, Contents(minions), ok);
      if ok {
        RecordSize(data.offset, |data.buffer|, f.save);
      }
      data.ok := ok;
    }

    /** The block under m_offsets_lock: the index update and its save. */
    method RecordSize(offset: nat, size: nat, io: SaveIo)
      requires Valid()
      modifies this`offsetSizes, store.Repr()
      ensures Contents(minions) == old(Contents(minions)) && offsetSizes == old(offsetSizes)[offset := size]
      ensures store.Contents() == Saved(old(store.Contents()), offsetSizes, io)
    {
      hide Placed, Valid, WellFormed, Contents, Saved, Separate, Striped, Placement.Lawful;
      offsetSizes := offsetSizes[offset := size];
      store.Save(offsetSizes, io);
    }

    /** The loop of Write: false when a minion call throws out of it. */
    method StoreChunks(start: nat, buffer: seq<byte>, io: (nat, Copy) -> Io) returns (ok: bool)
      requires Valid()
      modifies set m | m in minions :: m.data
      ensures WellFormed(Placed(), old(Contents(minions)))
      ensures (Contents(minions), ok) == WriteChunks(Placed(), old(Contents(minions)), start, buffer, io)
    {
      hide Placed, ChunkSize, Geometry.Valid, WriteChunks;
      ghost var at, img := Placed(), State().img;
      var offset := start;
      var remaining: nat := |buffer|;
      var bufPos: nat := 0;
      assert buffer[0..] == buffer;
      while remaining > 0
        invariant bufPos + remaining == |buffer| && offset == start + bufPos
        invariant WellFormed(at, Contents(minions))
        invariant WriteChunks(at, Contents(minions), offset, buffer[bufPos..], io) ==
                  WriteChunks(at, img, start, buffer, io)
      {
        var n := ChunkSize(offset, remaining);
        assert buffer[bufPos..][n..] == buffer[bufPos + n..];
        ok := WriteChunk(offset, buffer[bufPos..], n, io);
        if !ok {
          return;
        }
        offset := offset + n;
        bufPos := bufPos + n;
        remaining := remaining - n;
      }
      assert buffer[bufPos..] == [];
      WriteNothing(at, Contents(minions), offset, io);
      ok := true;
    }

    /** One turn of the loop: the primary, then the mirror, ending Write if either throws. */
    method WriteChunk(offset: nat, rest: seq<byte>, n: nat, io: (nat, Copy) -> Io) returns (ok: bool)
      requires Valid() && rest != [] && n == Placed().ChunkLength(offset, |rest|)
      modifies set m | m in minions :: m.data
      ensures WellFormed(Placed(), old(Contents(minions))) && WellFormed(Placed(), Contents(minions))
      ensures WriteChunks(Placed(), old(Contents(minions)), offset, rest, io) ==
              if ok then WriteChunks(Placed(), Contents(minions), offset + n, rest[n..], io)
              else (Contents(minions), false)
    {
      hide Placed, PrimaryIndex, LocalOffset, Geometry.Valid, Striped, Placement.Lawful, WriteChunks, MinionWrite;
      ghost var at, img := Placed(), State().img;
      var primary := PrimaryIndex(offset);
      var mirror := MirrorIndex(primary);
      assert mirror == MinionOf(at, Mirror, offset);
      var local := LocalOffset(offset);
      var chunk := rest[..n];
      ghost var first := MinionWrite(img[primary], local, chunk, io(offset, Primary));
      ok := WriteCopy(primary, local, chunk, io(offset, Primary));
      if !ok {
        WriteTurn(at, img, offset, rest, io, first, first);
        return;
      }
      ghost var second := MinionWrite(Contents(minions)[mirror], local, chunk, io(offset, Mirror));
      ok := WriteCopy(mirror, local, chunk, io(offset, Mirror));
      WriteTurn(at, img, offset, rest, io, first, second);
      assert WellFormed(at, State().img);
    }

    /** One minion call, and what it does to the contents of all minions. */
    method WriteCopy(i: nat, local: nat, chunk: seq<byte>, io: Io) returns (ok: bool)
      requires Valid() && i < |minions|
      modifies minions[i].data
      ensures var call := MinionWrite(old(Contents(minions))[i], local, chunk, io);
              Contents(minions) == old(Contents(minions))[i := call.data] && ok == call.ok
    {
      ok := minions[i].Write(local, chunk, io);
      assert forall j | 0 <= j < |minions| && j != i :: minions[j].data[..] == old(minions[j].data[..]);
    }

    /** One turn of the loop: the primary, or if it throws the mirror. */
    method ReadCopies(offset: nat, n: nat, bad: (nat, Copy) -> bool) returns (r: Result<seq<byte>>)
      requires Valid()
      ensures r == ReadChunk(Placed(), State().img, offset, n, bad)
    {
      hide Placed, PrimaryIndex, LocalOffset, Geometry.Valid, Striped, Placement.Lawful;
      var primary := PrimaryIndex(offset);
      var mirror := MirrorIndex(primary);
      assert mirror == MinionOf(Placed(), Mirror, offset);
      var local := LocalOffset(offset);
      r := minions[primary].Read(local, n, bad(offset, Primary));
      if r.Threw? {
        r := minions[mirror].Read(local, n, bad(offset, Mirror));
      }
    }

    method Read(data: DriverData, f: Faults)
      requires Valid()
      modifies data`ok, data`buffer
      ensures State() == old(State())
      ensures Bytes(data.ok, data.buffer) ==
              RaidStep(Placed(), old(State()), RaidRuns.Read(data.offset, data.len, old(data.buffer)), f).1
    {
      hide Placed, Geometry.Valid, ReadChunks, Striped, Placement.Lawful, WellFormed, Separate;
      data.ok, data.buffer := FetchChunks(data.offset, data.len, Resize(data.buffer, data.len), f.read);
    }

    /** The loop of Read, filling the buffer: false when both copies of a chunk throw. */
    method FetchChunks(start: nat, len: nat, initial: seq<byte>, bad: (nat, Copy) -> bool)
      returns (ok: bool, buffer: seq<byte>)
      requires Valid() && |initial| == len
      ensures var whole := ReadChunks(Placed(), State().img, start, len, bad);
              ok == whole.1 && buffer == whole.0 + initial[|whole.0|..]
    {
      hide Placed, ChunkSize, Geometry.Valid, ReadChunk, ReadChunks, Striped, Contents, Separate, Placement.Lawful;
      ghost var at, img := Placed(), State().img;
      ghost var whole := ReadChunks(at, img, start, len, bad);
      var offset := start;
      var remaining := len;
      var bufPos: nat := 0;
      buffer := initial;
      while remaining > 0
        invariant bufPos + remaining == len && offset == start + bufPos
        invariant |buffer| == len && buffer[bufPos..] == initial[bufPos..]
        invariant whole.0 == buffer[..bufPos] + ReadChunks(at, img, offset, remaining, bad).0
        invariant whole.1 == ReadChunks(at, img, offset, remaining, bad).1
      {
        var n := ChunkSize(offset, remaining);
        var temp := ReadCopies(offset, n, bad);
        ReadTurn(at, img, offset, remaining, bad, temp);
        if temp.Threw? {
          assert buffer == whole.0 + initial[bufPos..];
          return false, buffer;
        }
        ChunkCopied(whole.0, buffer, initial, bufPos, temp.value,
                    ReadChunks(at, img, offset + n, remaining - n, bad).0);
        buffer := Splice(buffer, bufPos, temp.value);
        offset := offset + n;
        bufPos := bufPos + n;
        remaining := remaining - n;
      }
      ReadNothing(at, img, offset, bad);
      assert buffer == whole.0 + initial[bufPos..];
      ok := true;
    }

    method GetDataSize(offset: nat) returns (size: nat)
      requires Valid()
      ensures size == SizeAt(offsetSizes, offset)
      ensures offset in offsetSizes ==> size == offsetSizes[offset]
      ensures offset !in offsetSizes ==> size == 0
    {
      if offset !in offsetSizes {
        return 0;
      }
      size := offsetSizes[offset];
    }

    /** The loop over the std::map, which visits its entries in key order. */
    method ListOffsets() returns (result: seq<(nat, nat)>)
      requires Valid()
      ensures result == Entries(offsetSizes)
    {
      hide Valid, Entries;
      result := [];
      var entries := Entries(offsetSizes);
      for i := 0 to |entries|
        invariant result == entries[..i]
      {
        result := result + [entries[i]];
      }
    }
  }
}
