// RAIDStorage on values: the chunked, mirrored Write and the chunked Read with failover, with
// every minion call allowed to fail, for any lawful placement of the logical bytes.
module RaidSpec {
  import opened Bytes
  import opened Placements
  import opened Minions
  import opened Streams

  datatype Copy = Primary | Mirror

  type Image = seq<seq<byte>>

  /** Which minion calls of one request fail, by the logical offset of the chunk and the copy, and what
      becomes of its save of the index. */
  datatype Faults = Faults(write: (nat, Copy) -> Io, read: (nat, Copy) -> bool, save: SaveIo)

  const NoFaults := Faults((o: nat, c: Copy) => Done, (o: nat, c: Copy) => false, Written)

  /** 2 * primaries minions of equal size. */
  ghost predicate WellFormed(at: Placement, img: Image) {
    at.Lawful() && |img| == 2 * at.primaries && forall i | 0 <= i < |img| :: |img[i]| == at.minion
  }

  function MinionOf(at: Placement, c: Copy, o: nat): (m: nat)
    requires at.Lawful()
    ensures m < 2 * at.primaries
  {
    assert at.OffsetLaw(o);
    if c == Primary then at.primary(o) else at.primaries + at.primary(o)
  }

  /** The loop of Write. */
  function WriteChunks(at: Placement, img: Image, o: nat, buf: seq<byte>, io: (nat, Copy) -> Io): (r: (Image, bool))
    requires WellFormed(at, img)
    ensures WellFormed(at, r.0)
    decreases |buf|
  {
    if buf == [] then
      (img, true)
    else
      var n := at.ChunkLength(o, |buf|);
      assert at.OffsetLaw(o);
      var p, m, local := MinionOf(at, Primary, o), MinionOf(at, Mirror, o), at.local(o);
      var first := MinionWrite(img[p], local, buf[..n], io(o, Primary));
      var img1 := img[p := first.data];
      if !first.ok then (img1, false)
      else
        var second := MinionWrite(img1[m], local, buf[..n], io(o, Mirror));
        var img2 := img1[m := second.data];
        if !second.ok then (img2, false)
        else WriteChunks(at, img2, o + n, buf[n..], io)
  }

  lemma WriteNothing(at: Placement, img: Image, o: nat, io: (nat, Copy) -> Io)
    requires WellFormed(at, img)
    ensures WriteChunks(at, img, o, [], io) == (img, true)
  {
  }

  /** One turn of that loop, by the outcomes of its two minion calls. */
  lemma WriteTurn(at: Placement, img: Image, o: nat, buf: seq<byte>, io: (nat, Copy) -> Io,
                  first: WriteOutcome, second: WriteOutcome)
    requires WellFormed(at, img) && buf != []
    requires var chunk := buf[..at.ChunkLength(o, |buf|)];
             var img1 := img[MinionOf(at, Primary, o) := first.data];
             && first == MinionWrite(img[MinionOf(at, Primary, o)], at.local(o), chunk, io(o, Primary))
             && (first.ok ==> second == MinionWrite(img1[MinionOf(at, Mirror, o)], at.local(o), chunk, io(o, Mirror)))
    ensures var n := at.ChunkLength(o, |buf|);
            var img1 := img[MinionOf(at, Primary, o) := first.data];
            var img2 := img1[MinionOf(at, Mirror, o) := second.data];
            if !first.ok then WriteChunks(at, img, o, buf, io) == (img1, false)
            else if !second.ok then WriteChunks(at, img, o, buf, io) == (img2, false)
            else WellFormed(at, img2) && WriteChunks(at, img, o, buf, io) == WriteChunks(at, img2, o + n, buf[n..], io)
  {
  }

  /** One chunk of Read: the primary, or else the mirror. */
  function ReadChunk(at: Placement, img: Image, o: nat, n: nat, bad: (nat, Copy) -> bool): (r: Result<seq<byte>>)
    requires WellFormed(at, img)
    ensures r.Ok? ==> |r.value| == n
  {
    var local := at.local(o);
    var first := MinionRead(img[MinionOf(at, Primary, o)], local, n, bad(o, Primary));
    if first.Ok? then first
    else MinionRead(img[MinionOf(at, Mirror, o)], local, n, bad(o, Mirror))
  }

  /** The loop of Read: the bytes copied out before the end or the first chunk with no good copy. */
  function ReadChunks(at: Placement, img: Image, o: nat, remaining: nat, bad: (nat, Copy) -> bool)
    : (r: (seq<byte>, bool))
    requires WellFormed(at, img)
    ensures |r.0| <= remaining
    ensures r.1 ==> |r.0| == remaining
    decreases remaining
  {
    if remaining == 0 then
      ([], true)
    else
      var n := at.ChunkLength(o, remaining);
      assert at.OffsetLaw(o);
      var chunk := ReadChunk(at, img, o, n, bad);
      if chunk.Threw? then ([], false)
      else
        var rest := ReadChunks(at, img, o + n, remaining - n, bad);
        (chunk.value + rest.0, rest.1)
  }

  lemma ReadNothing(at: Placement, img: Image, o: nat, bad: (nat, Copy) -> bool)
    requires WellFormed(at, img)
    ensures ReadChunks(at, img, o, 0, bad) == ([], true)
  {
  }

  /** One turn of that loop, by the outcome of its chunk. */
  lemma ReadTurn(at: Placement, img: Image, o: nat, remaining: nat, bad: (nat, Copy) -> bool, chunk: Result<seq<byte>>)
    requires WellFormed(at, img) && remaining > 0
    requires chunk == ReadChunk(at, img, o, at.ChunkLength(o, remaining), bad)
    ensures ReadChunks(at, img, o, remaining, bad) ==
            if chunk.Threw? then ([], false)
            else
              var n := at.ChunkLength(o, remaining);
              var rest := ReadChunks(at, img, o + n, remaining - n, bad);
              (chunk.value + rest.0, rest.1)
  {
  }

  // ---- What the minions hold, as one logical array per copy ----

  function Byte(at: Placement, img: Image, c: Copy, o: nat): byte
    requires WellFormed(at, img) && o < at.capacity
  {
    assert at.OffsetLaw(o);
    img[MinionOf(at, c, o)][at.local(o)]
  }

  function View(at: Placement, img: Image, c: Copy): (v: seq<byte>)
    requires WellFormed(at, img)
    ensures |v| == at.capacity
  {
    seq(at.capacity, (o: nat) requires o < at.capacity => Byte(at, img, c, o))
  }

  /** The image with the bytes of one minion replaced from the place of o on. */
  function Patch(at: Placement, img: Image, c: Copy, o: nat, b: seq<byte>): (r: Image)
    requires WellFormed(at, img) && at.local(o) + |b| <= at.minion
    ensures WellFormed(at, r)
  {
    var m := MinionOf(at, c, o);
    img[m := Splice(img[m], at.local(o), b)]
  }

  /** Patching part of a chunk changes the logical array at that chunk, in that copy only. */
  lemma PatchView(at: Placement, img: Image, c: Copy, o: nat, b: seq<byte>)
    requires WellFormed(at, img) && o < at.capacity && |b| <= at.room(o)
    ensures at.local(o) + |b| <= at.minion && o + |b| <= at.capacity
    ensures View(at, Patch(at, img, c, o, b), c) == Splice(View(at, img, c), o, b)
    ensures forall d | d != c :: View(at, Patch(at, img, c, o, b), d) == View(at, img, d)
  {
    var e := if c == Primary then Mirror else Primary;
    assert at.OffsetLaw(o);
    if b != [] {
      ChunkFitsWhole(at, o, |b|);
    }
    var r := Patch(at, img, c, o, b);
    forall x: nat | x < at.capacity
      ensures Byte(at, r, c, x) == Splice(View(at, img, c), o, b)[x]
      ensures Byte(at, r, e, x) == Byte(at, img, e, x)
    {
      PlaceInChunk(at, o, |b|, x);
      assert at.OffsetLaw(x) && at.OffsetLaw(o);
    }
    assert View(at, r, e) == View(at, img, e);
  }

  /** The two logical arrays determine the minions. */
  lemma ViewsDetermineImage(at: Placement, a: Image, b: Image)
    requires WellFormed(at, a) && WellFormed(at, b)
    requires forall c :: View(at, a, c) == View(at, b, c)
    ensures a == b
  {
    forall m, l | 0 <= m < |a| && 0 <= l < at.minion
      ensures a[m][l] == b[m][l]
    {
      var c := if m < at.primaries then Primary else Mirror;
      var o := at.offsetOf(if m < at.primaries then m else m - at.primaries, l);
      assert at.PlaceLaw(at.primary(o), l) && at.PlaceLaw(if m < at.primaries then m else m - at.primaries, l);
      assert at.OffsetLaw(o);
      assert Byte(at, a, c, o) == View(at, a, c)[o] == View(at, b, c)[o] == Byte(at, b, c, o);
    }
    assert forall m | 0 <= m < |a| :: a[m] == b[m];
  }

  // ---- One Write ----

  predicate Covers(o: nat, n: nat, x: nat) {
    o <= x < o + n
  }

  /** How much of a chunk one minion call stores. */
  function Stored(io: Io, n: nat): (k: nat)
    ensures k <= n
  {
    if io.Done? then n else Min(io.stored, n)
  }

  /** The first chunk of an in-range Write, as patches of the two copies. */
  lemma FirstChunk(at: Placement, img: Image, o: nat, buf: seq<byte>, io: (nat, Copy) -> Io)
    returns (n: nat, img1: Image, img2: Image)
    requires WellFormed(at, img) && buf != []
    ensures n == at.ChunkLength(o, |buf|) && n > 0
    ensures WellFormed(at, img1) && WellFormed(at, img2)
    ensures o < at.capacity <==> o + n <= at.capacity
    ensures o >= at.capacity ==> WriteChunks(at, img, o, buf, io) == (img, false)
    ensures o < at.capacity ==>
              && View(at, img1, Primary) == Splice(View(at, img, Primary), o, buf[..Stored(io(o, Primary), n)])
              && View(at, img1, Mirror) == View(at, img, Mirror)
              && View(at, img2, Primary) == View(at, img1, Primary)
              && View(at, img2, Mirror) == Splice(View(at, img, Mirror), o, buf[..Stored(io(o, Mirror), n)])
              && WriteChunks(at, img, o, buf, io) ==
                 if io(o, Primary).Fault? then (img1, false)
                 else if io(o, Mirror).Fault? then (img2, false)
                 else WriteChunks(at, img2, o + n, buf[n..], io)
  {
    n := at.ChunkLength(o, |buf|);
    assert at.OffsetLaw(o);
    ChunkFitsWhole(at, o, n);
    img1, img2 := img, img;
    if o < at.capacity {
      var k1, k2 := Stored(io(o, Primary), n), Stored(io(o, Mirror), n);
      assert buf[..n][..k1] == buf[..k1] && buf[..n][..k2] == buf[..k2];
      PatchView(at, img, Primary, o, buf[..k1]);
      img1 := Patch(at, img, Primary, o, buf[..k1]);
      PatchView(at, img1, Mirror, o, buf[..k2]);
      img2 := Patch(at, img1, Mirror, o, buf[..k2]);
    } else {
      assert img[MinionOf(at, Primary, o) := img[MinionOf(at, Primary, o)]] == img;
    }
  }

  /** now is was after a Write of buf at o: nothing changed outside the range, an old or a new
      byte at each place inside, and only new ones if the Write succeeded. */
  ghost predicate Landed(was: seq<byte>, now: seq<byte>, o: nat, buf: seq<byte>, ok: bool) {
    && |now| == |was|
    && (ok && buf != [] ==> o + |buf| <= |was|)
    && forall x: nat | x < |was| ::
         if !Covers(o, |buf|, x) then now[x] == was[x]
         else now[x] == buf[x - o] || (!ok && now[x] == was[x])
  }

  lemma LandedAfterChunk(was: seq<byte>, mid: seq<byte>, now: seq<byte>, o: nat, n: nat, buf: seq<byte>, ok: bool)
    requires n <= |buf| && o + n <= |was| && mid == Splice(was, o, buf[..n])
    requires Landed(mid, now, o + n, buf[n..], ok)
    ensures Landed(was, now, o, buf, ok)
  {
    forall x: nat | x < |was|
      ensures if !Covers(o, |buf|, x) then now[x] == was[x]
              else now[x] == buf[x - o] || (!ok && now[x] == was[x])
    {
      assert Covers(o + n, |buf| - n, x) ==> buf[n..][x - o - n] == buf[x - o];
      assert mid[x] == if o <= x < o + n then buf[x - o] else was[x];
    }
  }

  lemma LandedPartly(was: seq<byte>, o: nat, k: nat, buf: seq<byte>)
    requires k <= |buf| && o + k <= |was|
    ensures Landed(was, Splice(was, o, buf[..k]), o, buf, false)
  {
  }

  /** Under any faults a Write lands on both copies. */
  lemma {:induction false} WriteContained(at: Placement, img: Image, o: nat, buf: seq<byte>,
                                          io: (nat, Copy) -> Io, c: Copy)
    requires WellFormed(at, img)
    ensures var (r, ok) := WriteChunks(at, img, o, buf, io);
            Landed(View(at, img, c), View(at, r, c), o, buf, ok)
    decreases |buf|
  {
    hide View, WellFormed, Placement.Lawful, Splice, MinionWrite;
    if buf != [] {
      hide WriteChunks;
      var n, img1, img2 := FirstChunk(at, img, o, buf, io);
      if o < at.capacity {
        var was := View(at, img, c);
        LandedPartly(was, o, Stored(io(o, c), n), buf);
        LandedPartly(was, o, 0, buf);
        assert Splice(was, o, buf[..0]) == was;
        if io(o, Primary).Done? && io(o, Mirror).Done? {
          WriteContained(at, img2, o + n, buf[n..], io, c);
          var (r, ok) := WriteChunks(at, img2, o + n, buf[n..], io);
          LandedAfterChunk(was, View(at, img2, c), View(at, r, c), o, n, buf, ok);
        }
      }
    }
  }

  lemma OverlayByChunk(was: seq<byte>, o: nat, n: nat, buf: seq<byte>)
    requires n <= |buf| && o + n <= |was|
    ensures Overlay(Splice(was, o, buf[..n]), o + n, buf[n..]) == Overlay(was, o, buf)
  {
  }

  /** Without write faults a Write stores exactly its in-range part, on both copies, and
      succeeds exactly when that is all of it. */
  lemma {:induction false} FaultFreeWrite(at: Placement, img: Image, o: nat, buf: seq<byte>,
                                          io: (nat, Copy) -> Io, c: Copy)
    requires WellFormed(at, img)
    requires forall x: nat, d: Copy :: io(x, d) == Done
    ensures var (r, ok) := WriteChunks(at, img, o, buf, io);
            && (ok <==> buf == [] || o + |buf| <= at.capacity)
            && View(at, r, c) == Overlay(View(at, img, c), o, buf)
    decreases |buf|
  {
    hide WriteChunks, View, WellFormed, Placement.Lawful, Overlay, Splice;
    var was := View(at, img, c);
    if buf == [] {
      WriteNothing(at, img, o, io);
    } else {
      var n, img1, img2 := FirstChunk(at, img, o, buf, io);
      if o < at.capacity {
        assert View(at, img2, c) == Splice(was, o, buf[..n]);
        FaultFreeWrite(at, img2, o + n, buf[n..], io, c);
        OverlayByChunk(was, o, n, buf);
      } else {
        assert Overlay(was, o, buf) == was;
      }
    }
  }

  // ---- One Read ----

  /** A chunk at o has a copy whose read call does not fail. */
  predicate Readable(bad: (nat, Copy) -> bool, o: nat) {
    !bad(o, Primary) || !bad(o, Mirror)
  }

  /** Every chunk of the request has a readable copy. */
  predicate AllReadable(at: Placement, bad: (nat, Copy) -> bool, o: nat, remaining: nat)
    requires at.Lawful()
    decreases remaining
  {
    remaining == 0 ||
    var n := at.ChunkLength(o, remaining);
    assert at.OffsetLaw(o);
    Readable(bad, o) && AllReadable(at, bad, o + n, remaining - n)
  }

  /** Each byte of got is what one of the copies holds there. */
  ghost predicate Sourced(primary: seq<byte>, mirror: seq<byte>, o: nat, got: seq<byte>) {
    && |primary| == |mirror|
    && (got == [] || o + |got| <= |primary|)
    && forall i: nat | i < |got| :: got[i] == primary[o + i] || got[i] == mirror[o + i]
  }

  /** What a good read call on either copy returns for an in-range chunk. */
  lemma ChunkBytes(at: Placement, img: Image, o: nat, n: nat, c: Copy)
    requires WellFormed(at, img) && o < at.capacity && 0 < n <= at.room(o)
    ensures at.local(o) + n <= at.minion && o + n <= at.capacity
    ensures img[MinionOf(at, c, o)][at.local(o)..at.local(o) + n] == View(at, img, c)[o..o + n]
  {
    ChunkFitsWhole(at, o, n);
    var stored, view := img[MinionOf(at, c, o)], View(at, img, c);
    forall x: nat | o <= x < o + n
      ensures stored[at.local(o) + (x - o)] == view[x]
    {
      assert view[x] == Byte(at, img, c, x);
      assert at.ChunkLaw(o, x);
    }
    var there, here := stored[at.local(o)..at.local(o) + n], view[o..o + n];
    forall i | 0 <= i < |here|
      ensures there[i] == here[i]
    {
      assert stored[at.local(o) + (o + i - o)] == view[o + i];
    }
  }

  /** The first chunk of a Read. */
  lemma FirstReadChunk(at: Placement, img: Image, o: nat, remaining: nat, bad: (nat, Copy) -> bool) returns (n: nat)
    requires WellFormed(at, img) && remaining > 0
    ensures n == at.ChunkLength(o, remaining) && n > 0
    ensures o < at.capacity <==> o + n <= at.capacity
    ensures o >= at.capacity || !Readable(bad, o) ==> ReadChunk(at, img, o, n, bad).Threw?
    ensures o < at.capacity && Readable(bad, o) ==>
              ReadChunk(at, img, o, n, bad) == Ok(View(at, img, if bad(o, Primary) then Mirror else Primary)[o..o + n])
  {
    n := at.ChunkLength(o, remaining);
    assert at.OffsetLaw(o);
    ChunkFitsWhole(at, o, n);
    if o < at.capacity {
      ChunkBytes(at, img, o, n, Primary);
      ChunkBytes(at, img, o, n, Mirror);
    }
  }

  /** Under any read faults a Read copies out stored bytes only; it succeeds exactly when it is
      empty, or in range with a readable copy of every chunk. */
  lemma {:induction false} ReadReturnsStoredBytes(at: Placement, img: Image, o: nat, remaining: nat,
                                                  bad: (nat, Copy) -> bool)
    requires WellFormed(at, img)
    ensures var (got, ok) := ReadChunks(at, img, o, remaining, bad);
            && Sourced(View(at, img, Primary), View(at, img, Mirror), o, got)
            && (ok <==> (remaining == 0 || o + remaining <= at.capacity) && AllReadable(at, bad, o, remaining))
    decreases remaining
  {
    hide View, Placement.Lawful, WellFormed, ReadChunk, Readable;
    if remaining > 0 {
      var n := FirstReadChunk(at, img, o, remaining, bad);
      var chunk := ReadChunk(at, img, o, n, bad);
      ReadTurn(at, img, o, remaining, bad, chunk);
      hide ReadChunks;
      if o < at.capacity && Readable(bad, o) {
        ReadReturnsStoredBytes(at, img, o + n, remaining - n, bad);
        var (rest, _) := ReadChunks(at, img, o + n, remaining - n, bad);
        SourcedAfterChunk(View(at, img, Primary), View(at, img, Mirror), o, n, chunk.value, rest);
      }
    }
  }

  lemma SourcedAfterChunk(primary: seq<byte>, mirror: seq<byte>, o: nat, n: nat, chunk: seq<byte>, rest: seq<byte>)
    requires |chunk| == n && Sourced(primary, mirror, o + n, rest) && o + n <= |primary|
    requires chunk == primary[o..o + n] || chunk == mirror[o..o + n]
    ensures Sourced(primary, mirror, o, chunk + rest)
  {
    forall i: nat | i < |chunk + rest|
      ensures (chunk + rest)[i] == primary[o + i] || (chunk + rest)[i] == mirror[o + i]
    {
      if i >= n {
        assert (chunk + rest)[i] == rest[i - n];
      }
    }
  }

  lemma FlatReadByChunk(data: seq<byte>, o: nat, n: nat, remaining: nat)
    requires 0 < n <= remaining && o + n <= |data|
    ensures var rest := FlatRead(data, o + n, remaining - n);
            FlatRead(data, o, remaining) == (data[o..o + n] + rest.0, rest.1)
  {
    var end := Min(o + remaining, |data|);
    assert data[o..o + n] + data[o + n..end] == data[o..end];
  }

  /** Failover is invisible: with equal copies and no chunk bad on both, a Read returns what it
      returns without faults, and that is the logical array. */
  lemma {:induction false} FailoverRead(at: Placement, img: Image, o: nat, remaining: nat, bad: (nat, Copy) -> bool)
    requires WellFormed(at, img) && View(at, img, Primary) == View(at, img, Mirror)
    requires AllReadable(at, bad, o, remaining)
    ensures ReadChunks(at, img, o, remaining, bad) == FlatRead(View(at, img, Primary), o, remaining)
    decreases remaining
  {
    hide View, Placement.Lawful;
    if remaining > 0 {
      var n := FirstReadChunk(at, img, o, remaining, bad);
      var data := View(at, img, Primary);
      if o < at.capacity {
        FailoverRead(at, img, o + n, remaining - n, bad);
        FlatReadByChunk(data, o, n, remaining);
      }
    }
  }

  /** A Read takes the primaries while they answer, and the mirrors when the primaries are down. */
  lemma {:induction false} ReadUsesCopy(at: Placement, img: Image, o: nat, remaining: nat,
                                        bad: (nat, Copy) -> bool, c: Copy)
    requires WellFormed(at, img)
    requires forall x: nat :: !bad(x, c) && (c == Mirror ==> bad(x, Primary))
    ensures ReadChunks(at, img, o, remaining, bad) == FlatRead(View(at, img, c), o, remaining)
    decreases remaining
  {
    hide View, Placement.Lawful;
    if remaining > 0 {
      var n := FirstReadChunk(at, img, o, remaining, bad);
      assert !bad(o, c) && (c == Mirror ==> bad(o, Primary));
      if o < at.capacity {
        ReadUsesCopy(at, img, o + n, remaining - n, bad, c);
        FlatReadByChunk(View(at, img, c), o, n, remaining);
      }
    }
  }

  /** Reading a flat array: the in-range part of the request, and whether that is all of it. */
  function FlatRead(data: seq<byte>, o: nat, n: nat): (r: (seq<byte>, bool))
    ensures |r.0| <= n
  {
    if n == 0 then ([], true)
    else if o >= |data| then ([], false)
    else (data[o..Min(o + n, |data|)], o + n <= |data|)
  }
}
