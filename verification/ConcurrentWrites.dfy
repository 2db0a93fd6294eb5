// Several worker threads inside RAIDStorage::Write at once. Each minion call is atomic (the
// minion's own lock) and so is the update of the index with its save (m_offsets_lock); nothing is
// held between them, so the calls of different Writes interleave freely. Any minion call may fail.
module ConcurrentWrites {
  import opened Bytes
  import opened MetadataStores
  import opened Minions
  import opened Options
  import opened Placements
  import opened RaidRuns
  import opened RaidSpec

  /** The next thing a Write in flight does with the chunk at pos. */
  datatype Phase = ToPrimary | ToMirror | Finished(ok: bool)

  datatype Writer = Writer(offset: nat, data: seq<byte>, faults: Faults, pos: nat, phase: Phase) {
    function Chunk(at: Placement): (n: nat)
      ensures pos <= |data| ==> pos + n <= |data|
    {
      if pos <= |data| then at.ChunkLength(offset + pos, |data| - pos) else 0
    }
  }

  datatype System = System(raid: RaidState, writers: seq<Writer>)

  /** One atomic step of a writer: a minion call, or the index update. A finished writer stays put. */
  function Act(at: Placement, raid: RaidState, w: Writer): (r: (RaidState, Writer))
    requires WellFormed(at, raid.img)
    ensures WellFormed(at, r.0.img)
  {
    if w.phase.Finished? || w.pos > |w.data| then (raid, w)
    else if w.phase.ToPrimary? && w.pos == |w.data| then
      var index := raid.index[w.offset := |w.data|];
      (RaidState(raid.img, index, Saved(raid.saved, index, w.faults.save)), w.(phase := Finished(true)))
    else
      var o := w.offset + w.pos;
      var chunk := w.data[w.pos..w.pos + w.Chunk(at)];
      var c := if w.phase.ToPrimary? then Primary else Mirror;
      var m := MinionOf(at, c, o);
      var call := MinionWrite(raid.img[m], at.local(o), chunk, w.faults.write(o, c));
      (raid.(img := raid.img[m := call.data]),
       if !call.ok then w.(phase := Finished(false))
       else if w.phase.ToPrimary? then w.(phase := ToMirror)
       else w.(pos := w.pos + |chunk|, phase := ToPrimary))
  }

  function Step(at: Placement, s: System, i: nat): (r: System)
    requires WellFormed(at, s.raid.img)
    ensures WellFormed(at, r.raid.img) && |r.writers| == |s.writers|
  {
    if i >= |s.writers| then s
    else
      var (raid, w) := Act(at, s.raid, s.writers[i]);
      System(raid, s.writers[i := w])
  }

  /** The steps of a schedule, in order. */
  function Exec(at: Placement, s: System, schedule: seq<nat>): (r: System)
    requires WellFormed(at, s.raid.img)
    ensures WellFormed(at, r.raid.img) && |r.writers| == |s.writers|
  {
    if schedule == [] then s
    else Step(at, Exec(at, s, schedule[..|schedule| - 1]), schedule[|schedule| - 1])
  }

  lemma {:induction false} ExecConcat(at: Placement, s: System, a: seq<nat>, b: seq<nat>)
    requires WellFormed(at, s.raid.img)
    ensures Exec(at, s, a + b) == Exec(at, Exec(at, s, a), b)
  {
    if b == [] {
      assert a + b == a;
    } else {
      var n := |b| - 1;
      ExecConcat(at, s, a, b[..n]);
      assert (a + b)[..|a + b| - 1] == a + b[..n];
    }
  }

  lemma ExecOne(at: Placement, s: System, i: nat)
    requires WellFormed(at, s.raid.img)
    ensures Exec(at, s, [i]) == Step(at, s, i)
  {
    assert [i][..0] == [];
  }

  // ---- A writer's path does not depend on the others ----

  /** What a step makes of a writer, whatever the minions hold. */
  function Next(at: Placement, w: Writer): Writer
    requires at.Lawful()
  {
    if w.phase.Finished? || w.pos > |w.data| then w
    else if w.phase.ToPrimary? && w.pos == |w.data| then w.(phase := Finished(true))
    else
      var o, n := w.offset + w.pos, w.Chunk(at);
      var c := if w.phase.ToPrimary? then Primary else Mirror;
      if at.local(o) + n > at.minion || w.faults.write(o, c).Fault? then w.(phase := Finished(false))
      else if w.phase.ToPrimary? then w.(phase := ToMirror)
      else w.(pos := w.pos + n, phase := ToPrimary)
  }

  lemma ActIsNext(at: Placement, raid: RaidState, w: Writer)
    requires WellFormed(at, raid.img)
    ensures Act(at, raid, w).1 == Next(at, w)
  {
  }

  /** An upper bound on the steps a writer has left. */
  function StepsLeft(w: Writer): nat {
    if w.phase.Finished? || w.pos > |w.data| then 0
    else 2 * (|w.data| - w.pos) + if w.phase.ToPrimary? then 2 else 1
  }

  /** A writer on the way through its loop. */
  ghost predicate Sound(at: Placement, w: Writer)
    requires at.Lawful()
  {
    && w.pos <= |w.data|
    && (w.pos > 0 ==> w.offset + w.pos <= at.capacity)
    && var o := w.offset + w.pos;
       match w.phase
       case ToPrimary => true
       case ToMirror => w.pos < |w.data| && o < at.capacity && w.faults.write(o, Primary).Done?
       case Finished(ok) =>
         if ok then w.pos == |w.data|
         else w.pos < |w.data| &&
              (o >= at.capacity || w.faults.write(o, Primary).Fault? || w.faults.write(o, Mirror).Fault?)
  }

  lemma NextKeepsSound(at: Placement, w: Writer)
    requires at.Lawful() && Sound(at, w)
    ensures Sound(at, Next(at, w))
    ensures !w.phase.Finished? ==> StepsLeft(Next(at, w)) < StepsLeft(w)
  {
    var o := w.offset + w.pos;
    assert at.OffsetLaw(o);
    hide Placement.Lawful;
    if w.pos < |w.data| {
      ChunkFitsWhole(at, o, w.Chunk(at));
    }
  }

  /** The writer when it has finished. */
  function Final(at: Placement, w: Writer): (r: Writer)
    requires at.Lawful() && Sound(at, w)
    ensures r.phase.Finished? && Sound(at, r)
    ensures r.offset == w.offset && r.data == w.data && r.faults == w.faults
    decreases StepsLeft(w)
  {
    if w.phase.Finished? then w
    else
      NextKeepsSound(at, w);
      Final(at, Next(at, w))
  }

  /** How many bytes of the writer copy c holds; a failed call leaves part of its chunk. */
  function Reach(at: Placement, c: Copy, w: Writer): nat {
    var o, n := w.offset + w.pos, w.Chunk(at);
    match w.phase
    case ToPrimary => w.pos
    case ToMirror => w.pos + if c == Primary then n else 0
    case Finished(ok) =>
      if ok || o >= at.capacity then w.pos
      else if w.faults.write(o, Primary).Fault? then
        w.pos + if c == Primary then Stored(w.faults.write(o, Primary), n) else 0
      else
        w.pos + if c == Primary then n else Stored(w.faults.write(o, Mirror), n)
  }

  lemma ReachInRange(at: Placement, c: Copy, w: Writer)
    requires at.Lawful() && Sound(at, w)
    ensures Reach(at, c, w) <= |w.data|
    ensures Reach(at, c, w) > 0 ==> w.offset + Reach(at, c, w) <= at.capacity
  {
    var o := w.offset + w.pos;
    assert at.OffsetLaw(o);
    hide Placement.Lawful;
    if w.pos < |w.data| {
      ChunkFitsWhole(at, o, w.Chunk(at));
    }
  }

  lemma NextReaches(at: Placement, c: Copy, w: Writer)
    requires at.Lawful() && Sound(at, w)
    ensures Reach(at, c, w) <= Reach(at, c, Next(at, w))
  {
    var o := w.offset + w.pos;
    assert at.OffsetLaw(o);
    hide Placement.Lawful;
    if w.pos < |w.data| {
      ChunkFitsWhole(at, o, w.Chunk(at));
    }
  }

  lemma {:induction false} ReachGrows(at: Placement, c: Copy, w: Writer)
    requires at.Lawful() && Sound(at, w)
    ensures Reach(at, c, w) <= Reach(at, c, Final(at, w))
    decreases StepsLeft(w)
  {
    hide Placement.Lawful, Reach, Next, Sound;
    if !w.phase.Finished? {
      NextKeepsSound(at, w);
      NextReaches(at, c, w);
      ReachGrows(at, c, Next(at, w));
    }
  }

  // ---- What a step does to the copies and to the index ----

  ghost predicate Succeeded(w: Writer) {
    w.phase == Finished(true)
  }

  function CalledCopy(w: Writer): Copy {
    if w.phase.ToPrimary? then Primary else Mirror
  }

  /** How much of its next chunk a writer's minion call stores. */
  function CallStored(at: Placement, w: Writer): nat {
    var o := w.offset + w.pos;
    if o < at.capacity then Stored(w.faults.write(o, CalledCopy(w)), w.Chunk(at)) else 0
  }

  /** The bytes a copy gains as a writer moves from w to w1. */
  function Gain(at: Placement, c: Copy, w: Writer, w1: Writer): seq<byte> {
    if Reach(at, c, w) <= Reach(at, c, w1) <= |w.data| then w.data[Reach(at, c, w)..Reach(at, c, w1)] else []
  }

  lemma NothingLaid(v: seq<byte>, o: nat)
    ensures Overlay(v, o, []) == v
  {
  }

  lemma SpliceIsOverlay(v: seq<byte>, o: nat, b: seq<byte>)
    requires o + |b| <= |v|
    ensures Splice(v, o, b) == Overlay(v, o, b)
  {
  }

  lemma CallReaches(at: Placement, w: Writer, c: Copy)
    requires at.Lawful() && Sound(at, w) && !w.phase.Finished? && w.pos < |w.data|
    ensures var k := CallStored(at, w);
            && w.pos + k <= |w.data| && k <= at.room(w.offset + w.pos)
            && (w.offset + w.pos >= at.capacity ==> Gain(at, c, w, Next(at, w)) == [])
            && if c == CalledCopy(w) then
                 && Reach(at, c, w) == w.pos && Reach(at, c, Next(at, w)) == w.pos + k
                 && Gain(at, c, w, Next(at, w)) == w.data[w.pos..w.pos + k]
               else
                 Gain(at, c, w, Next(at, w)) == []
  {
    var o := w.offset + w.pos;
    assert at.OffsetLaw(o);
    ChunkFitsWhole(at, o, w.Chunk(at));
    hide Placement.Lawful;
  }

  lemma CallPatches(at: Placement, raid: RaidState, w: Writer)
    requires WellFormed(at, raid.img) && Sound(at, w) && !w.phase.Finished? && w.pos < |w.data|
    ensures var o, k := w.offset + w.pos, CallStored(at, w);
            && w.pos + k <= |w.data|
            && var raid1 := Act(at, raid, w).0;
               && raid1.index == raid.index && raid1.saved == raid.saved
               && if o < at.capacity then
                    && at.local(o) + k <= at.minion
                    && raid1.img == Patch(at, raid.img, CalledCopy(w), o, w.data[w.pos..w.pos + k])
                  else raid1.img == raid.img
  {
    var o, n := w.offset + w.pos, w.Chunk(at);
    assert at.OffsetLaw(o);
    ChunkFitsWhole(at, o, n);
    var c := CalledCopy(w);
    var m := MinionOf(at, c, o);
    hide Placement.Lawful;
    if o < at.capacity {
      var k := Stored(w.faults.write(o, c), n);
      assert w.data[w.pos..w.pos + n][..k] == w.data[w.pos..w.pos + k];
    } else {
      assert raid.img[m := raid.img[m]] == raid.img;
    }
  }

  /** A minion call lays the next bytes of the writer over one copy. */
  lemma CallStores(at: Placement, raid: RaidState, w: Writer, c: Copy)
    requires at.Lawful() && WellFormed(at, raid.img) && Sound(at, w) && !w.phase.Finished? && w.pos < |w.data|
    ensures View(at, Act(at, raid, w).0.img, c) ==
            Overlay(View(at, raid.img, c), w.offset + Reach(at, c, w), Gain(at, c, w, Next(at, w)))
  {
    hide *;
    CallReaches(at, w, c);
    CallPatches(at, raid, w);
    var o, b := w.offset + w.pos, w.data[w.pos..w.pos + CallStored(at, w)];
    LaidBy(at, raid.img, Act(at, raid, w).0.img, CalledCopy(w), o, b, c, w.offset + Reach(at, c, w),
           Gain(at, c, w, Next(at, w)));
  }

  /** img1 is img with b stored at o of one copy, if o is in range: what any copy gains. */
  lemma LaidBy(at: Placement, img: Image, img1: Image, called: Copy, o: nat, b: seq<byte>,
               c: Copy, from: nat, gain: seq<byte>)
    requires WellFormed(at, img) && WellFormed(at, img1) && |b| <= at.room(o)
    requires if o < at.capacity then at.local(o) + |b| <= at.minion && img1 == Patch(at, img, called, o, b)
             else img1 == img
    requires if c == called && o < at.capacity then from == o && gain == b else gain == []
    ensures View(at, img1, c) == Overlay(View(at, img, c), from, gain)
  {
    hide *;
    NothingLaid(View(at, img, c), from);
    if o < at.capacity {
      PatchOverlays(at, img, called, o, b, c);
    }
  }

  lemma PatchOverlays(at: Placement, img: Image, c: Copy, o: nat, b: seq<byte>, d: Copy)
    requires WellFormed(at, img) && o < at.capacity && |b| <= at.room(o)
    ensures at.local(o) + |b| <= at.minion
    ensures View(at, Patch(at, img, c, o, b), d) == if d == c then Overlay(View(at, img, c), o, b) else View(at, img, d)
  {
    hide View, Patch, Splice, Overlay, WellFormed, Placement.Lawful;
    PatchView(at, img, c, o, b);
    SpliceIsOverlay(View(at, img, c), o, b);
  }

  lemma CopyEffect(at: Placement, raid: RaidState, w: Writer, c: Copy)
    requires WellFormed(at, raid.img) && Sound(at, w)
    ensures Reach(at, c, w) <= Reach(at, c, Next(at, w)) <= |w.data|
    ensures View(at, Act(at, raid, w).0.img, c) ==
            Overlay(View(at, raid.img, c), w.offset + Reach(at, c, w), Gain(at, c, w, Next(at, w)))
  {
    NextReaches(at, c, w);
    NextKeepsSound(at, w);
    ReachInRange(at, c, Next(at, w));
    NothingLaid(View(at, raid.img, c), w.offset + Reach(at, c, w));
    if !w.phase.Finished? && w.pos < |w.data| {
      hide *;
      CallStores(at, raid, w, c);
    } else {
      hide View, Placement.Lawful, Overlay;
    }
  }

  /** Any step: each copy gains the bytes the writer reaches, and the index its entry if it succeeds. */
  lemma StepEffects(at: Placement, raid: RaidState, w: Writer)
    requires WellFormed(at, raid.img) && Sound(at, w)
    ensures var (raid1, w1) := Act(at, raid, w);
            && w1 == Next(at, w) && Sound(at, w1)
            && (forall c :: Reach(at, c, w) <= Reach(at, c, w1) <= |w.data| &&
                  View(at, raid1.img, c) ==
                  Overlay(View(at, raid.img, c), w.offset + Reach(at, c, w), Gain(at, c, w, w1)))
            && if !Succeeded(w) && Succeeded(w1) then
                 && raid1.index == raid.index[w.offset := |w.data|]
                 && raid1.saved == Saved(raid.saved, raid1.index, w.faults.save)
               else
                 raid1.index == raid.index && raid1.saved == raid.saved
  {
    ActIsNext(at, raid, w);
    NextKeepsSound(at, w);
    var w1 := Next(at, w);
    forall c
      ensures Reach(at, c, w) <= Reach(at, c, w1) <= |w.data|
      ensures View(at, Act(at, raid, w).0.img, c) ==
              Overlay(View(at, raid.img, c), w.offset + Reach(at, c, w), Gain(at, c, w, w1))
    {
      CopyEffect(at, raid, w, c);
    }
    if !w.phase.Finished? && w.pos < |w.data| {
      CallPatches(at, raid, w);
    }
    hide View, Placement.Lawful, Overlay, Gain, Reach, Sound, WellFormed;
  }

  // ---- What every interleaving keeps ----

  predicate NotStarted(w: Writer) {
    w.pos == 0 && w.phase == ToPrimary
  }

  ghost predicate Fresh(ws: seq<Writer>) {
    forall i | 0 <= i < |ws| :: NotStarted(ws[i])
  }

  /** No two writers store different bytes at one place of one copy. */
  ghost predicate Compatible(at: Placement, ws: seq<Writer>)
    requires at.Lawful() && Fresh(ws)
  {
    forall c, i, j, x | 0 <= i < |ws| && 0 <= j < |ws| && Stores(at, c, ws[i], x) && Stores(at, c, ws[j], x) ::
      ws[i].data[x - ws[i].offset] == ws[j].data[x - ws[j].offset]
  }

  /** The writer stores a byte at x of copy c. */
  predicate Stores(at: Placement, c: Copy, w: Writer, x: int)
    requires at.Lawful() && Sound(at, w)
    ensures Stores(at, c, w, x) ==> w.offset <= x < w.offset + |w.data| && x < at.capacity
  {
    ReachInRange(at, c, Final(at, w));
    w.offset <= x < w.offset + Reach(at, c, Final(at, w))
  }

  /** Writers that succeed at one offset agree on the size. */
  ghost predicate SizesAgree(at: Placement, ws: seq<Writer>)
    requires at.Lawful() && Fresh(ws)
  {
    forall i, j | 0 <= i < |ws| && 0 <= j < |ws| && ws[i].offset == ws[j].offset
      && Succeeded(Final(at, ws[i])) && Succeeded(Final(at, ws[j])) :: |ws[i].data| == |ws[j].data|
  }

  /** w is where w0 can be. */
  ghost predicate OnPath(at: Placement, w0: Writer, w: Writer)
    requires at.Lawful()
  {
    && w.offset == w0.offset && w.data == w0.data && w.faults == w0.faults
    && Sound(at, w0) && Sound(at, w) && Final(at, w) == Final(at, w0)
  }

  /** view holds the first reach[i] bytes of each writer, and what base holds elsewhere. */
  ghost predicate Shows(base: seq<byte>, view: seq<byte>, ws: seq<Writer>, reach: seq<nat>) {
    && |reach| == |ws| && |view| == |base|
    && (forall i | 0 <= i < |ws| :: reach[i] <= |ws[i].data|)
    && (forall i, x | 0 <= i < |ws| && 0 <= x < |view| && Covers(ws[i].offset, reach[i], x) ::
          view[x] == ws[i].data[x - ws[i].offset])
    && (forall x | 0 <= x < |view| && (forall i | 0 <= i < |ws| :: !Covers(ws[i].offset, reach[i], x)) ::
          view[x] == base[x])
  }

  /** Laying the bytes of writer i up to `to` over the copy extends what is shown of it, and spoils
      no other writer, if those bytes agree with what is shown of the others. */
  lemma ShowsMore(base: seq<byte>, view: seq<byte>, ws: seq<Writer>, reach: seq<nat>, i: nat, to: nat)
    requires Shows(base, view, ws, reach) && i < |ws| && reach[i] <= to <= |ws[i].data|
    requires forall j, x | 0 <= j < |ws| && 0 <= x < |view|
               && Covers(ws[i].offset, to, x) && Covers(ws[j].offset, reach[j], x) ::
               ws[i].data[x - ws[i].offset] == ws[j].data[x - ws[j].offset]
    ensures Shows(base, Overlay(view, ws[i].offset + reach[i], ws[i].data[reach[i]..to]), ws, reach[i := to])
  {
    var view1 := Overlay(view, ws[i].offset + reach[i], ws[i].data[reach[i]..to]);
    var reach1 := reach[i := to];
    forall j, x | 0 <= j < |ws| && 0 <= x < |view1| && Covers(ws[j].offset, reach1[j], x)
      ensures view1[x] == ws[j].data[x - ws[j].offset]
    {
      MoreAt(base, view, ws, reach, i, to, j, x);
    }
    forall x | 0 <= x < |view1| && (forall j | 0 <= j < |ws| :: !Covers(ws[j].offset, reach1[j], x))
      ensures view1[x] == base[x]
    {
      UncoveredBefore(ws, reach, i, to, x);
      assert !Covers(ws[i].offset, reach1[i], x);
    }
  }

  lemma MoreAt(base: seq<byte>, view: seq<byte>, ws: seq<Writer>, reach: seq<nat>, i: nat, to: nat, j: nat, x: nat)
    requires Shows(base, view, ws, reach) && i < |ws| && reach[i] <= to <= |ws[i].data| && j < |ws| && x < |view|
    requires Covers(ws[i].offset, to, x) && Covers(ws[j].offset, reach[j], x) ==>
               ws[i].data[x - ws[i].offset] == ws[j].data[x - ws[j].offset]
    requires Covers(ws[j].offset, reach[i := to][j], x)
    ensures Overlay(view, ws[i].offset + reach[i], ws[i].data[reach[i]..to])[x] == ws[j].data[x - ws[j].offset]
  {
    var from := ws[i].offset + reach[i];
    if Covers(ws[i].offset, to, x) && from <= x {
      assert ws[i].data[reach[i]..to][x - from] == ws[i].data[x - ws[i].offset];
    } else {
      assert Covers(ws[j].offset, reach[j], x);
    }
  }

  lemma UncoveredBefore(ws: seq<Writer>, reach: seq<nat>, i: nat, to: nat, x: nat)
    requires |reach| == |ws| && i < |ws| && reach[i] <= to
    requires forall j | 0 <= j < |ws| :: !Covers(ws[j].offset, reach[i := to][j], x)
    ensures forall j | 0 <= j < |ws| :: !Covers(ws[j].offset, reach[j], x)
  {
    forall j | 0 <= j < |ws|
      ensures !Covers(ws[j].offset, reach[j], x)
    {
      assert !Covers(ws[j].offset, reach[i := to][j], x);
    }
  }

  function Reaches(at: Placement, c: Copy, ws: seq<Writer>): (r: seq<nat>)
    ensures |r| == |ws| && forall i | 0 <= i < |ws| :: r[i] == Reach(at, c, ws[i])
  {
    seq(|ws|, i requires 0 <= i < |ws| => Reach(at, c, ws[i]))
  }

  /** Each writer is on its path, and each copy shows what the writers have stored. */
  ghost predicate Inv(at: Placement, base: RaidState, ws: seq<Writer>, s: System) {
    && WellFormed(at, base.img) && WellFormed(at, s.raid.img) && |s.writers| == |ws|
    && (forall i | 0 <= i < |ws| :: OnPath(at, ws[i], s.writers[i]))
    && (forall c :: Shows(View(at, base.img, c), View(at, s.raid.img, c), ws, Reaches(at, c, s.writers)))
  }

  lemma InvInitially(at: Placement, base: RaidState, ws: seq<Writer>)
    requires WellFormed(at, base.img) && Fresh(ws)
    ensures Inv(at, base, ws, System(base, ws))
  {
    forall c
      ensures Shows(View(at, base.img, c), View(at, base.img, c), ws, Reaches(at, c, ws))
    {
    }
  }

  /** What two writers have stored agrees where it overlaps. */
  lemma StoredAgrees(at: Placement, ws: seq<Writer>, us: seq<Writer>, c: Copy, i: nat, u: Writer, j: nat, x: nat)
    requires at.Lawful() && Fresh(ws) && Compatible(at, ws) && |us| == |ws| && i < |ws| && j < |ws|
    requires OnPath(at, ws[i], u) && OnPath(at, ws[j], us[j])
    requires Covers(ws[i].offset, Reach(at, c, u), x) && Covers(ws[j].offset, Reach(at, c, us[j]), x)
    ensures x - ws[i].offset < |ws[i].data| && x - ws[j].offset < |ws[j].data|
    ensures ws[i].data[x - ws[i].offset] == ws[j].data[x - ws[j].offset]
  {
    hide Reach, Placement.Lawful;
    ReachGrows(at, c, u);
    ReachGrows(at, c, us[j]);
    assert Stores(at, c, ws[i], x) && Stores(at, c, ws[j], x);
  }

  lemma StepKeepsInv(at: Placement, base: RaidState, ws: seq<Writer>, s: System, i: nat)
    requires Inv(at, base, ws, s) && Fresh(ws) && Compatible(at, ws)
    ensures Inv(at, base, ws, Step(at, s, i))
  {
    hide View, Shows, Reaches, OnPath, WellFormed, Placement.Lawful, Compatible, Fresh, Act;
    if i < |ws| {
      StepKeepsPaths(at, ws, s, i);
      forall c
        ensures Shows(View(at, base.img, c), View(at, Step(at, s, i).raid.img, c), ws,
                      Reaches(at, c, Step(at, s, i).writers))
      {
        CopyAfterStep(at, View(at, base.img, c), ws, s, i, c);
      }
    }
  }

  lemma CopyAfterStep(at: Placement, base: seq<byte>, ws: seq<Writer>, s: System, i: nat, c: Copy)
    requires WellFormed(at, s.raid.img) && |s.writers| == |ws| && i < |ws| && Fresh(ws) && Compatible(at, ws)
    requires forall k | 0 <= k < |ws| :: OnPath(at, ws[k], s.writers[k])
    requires Shows(base, View(at, s.raid.img, c), ws, Reaches(at, c, s.writers))
    ensures Shows(base, View(at, Step(at, s, i).raid.img, c), ws, Reaches(at, c, Step(at, s, i).writers))
  {
    hide View, Shows, Reach, Reaches, Gain, Overlay, Placement.Lawful, Compatible, Next, Act;
    hide Step, Sound, Final, Fresh, Moved;
    var w, r := s.writers[i], Step(at, s, i);
    var w1 := Next(at, w);
    assert OnPath(at, ws[i], w);
    StepKeepsPaths(at, ws, s, i);
    StepMoves(at, s, i);
    MovedReach(at, s, i, w, w1, r, c);
    MovedView(at, s, i, w, w1, r, c);
    CopyKeepsShowing(at, base, View(at, s.raid.img, c), ws, s.writers, c, i, w1);
  }

  lemma StepKeepsPaths(at: Placement, ws: seq<Writer>, s: System, i: nat)
    requires WellFormed(at, s.raid.img) && |s.writers| == |ws| && i < |ws|
    requires forall k | 0 <= k < |ws| :: OnPath(at, ws[k], s.writers[k])
    ensures OnPath(at, ws[i], Next(at, s.writers[i]))
    ensures Step(at, s, i).writers == s.writers[i := Next(at, s.writers[i])]
    ensures forall k | 0 <= k < |ws| :: OnPath(at, ws[k], Step(at, s, i).writers[k])
  {
    var w := s.writers[i];
    assert OnPath(at, ws[i], w);
    ActIsNext(at, s.raid, w);
    NextKeepsSound(at, w);
    assert OnPath(at, ws[i], Next(at, w));
    hide OnPath, Act, Next, Sound, WellFormed;
  }

  lemma CopyKeepsShowing(at: Placement, base: seq<byte>, view: seq<byte>, ws: seq<Writer>, us: seq<Writer>,
                         c: Copy, i: nat, w1: Writer)
    requires at.Lawful() && Fresh(ws) && Compatible(at, ws) && |us| == |ws| && i < |ws|
    requires forall k | 0 <= k < |ws| :: OnPath(at, ws[k], us[k])
    requires OnPath(at, ws[i], w1) && Reach(at, c, us[i]) <= Reach(at, c, w1) <= |w1.data|
    requires Shows(base, view, ws, Reaches(at, c, us))
    ensures var o := ws[i].offset + Reach(at, c, us[i]);
            Shows(base, Overlay(view, o, Gain(at, c, us[i], w1)), ws, Reaches(at, c, us[i := w1]))
  {
    hide Reach, Overlay, Placement.Lawful;
    var reach, to := Reaches(at, c, us), Reach(at, c, w1);
    assert OnPath(at, ws[i], us[i]);
    forall j, x | 0 <= j < |ws| && 0 <= x < |view| && Covers(ws[i].offset, to, x) && Covers(ws[j].offset, reach[j], x)
      ensures ws[i].data[x - ws[i].offset] == ws[j].data[x - ws[j].offset]
    {
      StoredAgrees(at, ws, us, c, i, w1, j, x);
    }
    ShowsMore(base, view, ws, reach, i, to);
    assert Reaches(at, c, us[i := w1]) == reach[i := to];
  }

  lemma {:induction false} ExecKeepsInv(at: Placement, base: RaidState, ws: seq<Writer>, schedule: seq<nat>)
    requires WellFormed(at, base.img) && Fresh(ws) && Compatible(at, ws)
    ensures Inv(at, base, ws, Exec(at, System(base, ws), schedule))
  {
    hide Inv, Compatible, Fresh;
    if schedule == [] {
      InvInitially(at, base, ws);
    } else {
      ExecKeepsInv(at, base, ws, schedule[..|schedule| - 1]);
      StepKeepsInv(at, base, ws, Exec(at, System(base, ws), schedule[..|schedule| - 1]), schedule[|schedule| - 1]);
    }
  }

  /** The index holds the entries of the finished writers and otherwise those of base. */
  ghost predicate Indexed(base: RaidState, ws: seq<Writer>, s: System)
    requires |s.writers| == |ws|
  {
    && (forall i | 0 <= i < |ws| && Succeeded(s.writers[i]) ::
          Recorded(s.raid.index, ws[i].offset) == Some(|ws[i].data|))
    && (forall k | forall i | 0 <= i < |ws| && Succeeded(s.writers[i]) :: ws[i].offset != k ::
          Recorded(s.raid.index, k) == Recorded(base.index, k))
  }

  lemma SuccessIsFinal(at: Placement, w0: Writer, w: Writer)
    requires at.Lawful() && OnPath(at, w0, w) && Succeeded(w)
    ensures Succeeded(Final(at, w0))
  {
  }

  /** A writer that succeeds enters its size. */
  lemma SuccessKeepsIndexed(at: Placement, base: RaidState, ws: seq<Writer>, s: System, i: nat, r: System)
    requires at.Lawful() && Fresh(ws) && SizesAgree(at, ws) && |s.writers| == |ws| && i < |ws|
    requires forall k | 0 <= k < |ws| :: OnPath(at, ws[k], s.writers[k])
    requires |r.writers| == |ws| && OnPath(at, ws[i], r.writers[i]) && r.writers == s.writers[i := r.writers[i]]
    requires Indexed(base, ws, s) && !Succeeded(s.writers[i]) && Succeeded(r.writers[i])
    requires r.raid.index == s.raid.index[ws[i].offset := |ws[i].data|]
    ensures Indexed(base, ws, r)
  {
    SuccessIsFinal(at, ws[i], r.writers[i]);
    forall j | 0 <= j < |ws| && Succeeded(r.writers[j])
      ensures Recorded(r.raid.index, ws[j].offset) == Some(|ws[j].data|)
    {
      if j != i {
        assert OnPath(at, ws[j], s.writers[j]) && Succeeded(s.writers[j]);
        SuccessIsFinal(at, ws[j], s.writers[j]);
        assert ws[j].offset == ws[i].offset ==> |ws[j].data| == |ws[i].data|;
        assert Recorded(s.raid.index, ws[j].offset) == Some(|ws[j].data|);
      }
    }
    forall k | forall j | 0 <= j < |ws| && Succeeded(r.writers[j]) :: ws[j].offset != k
      ensures Recorded(r.raid.index, k) == Recorded(base.index, k)
    {
      assert ws[i].offset != k;
      forall j | 0 <= j < |ws| && Succeeded(s.writers[j])
        ensures ws[j].offset != k
      {
        assert Succeeded(r.writers[j]);
      }
    }
  }

  lemma StepKeepsIndexed(at: Placement, base: RaidState, ws: seq<Writer>, s: System, i: nat)
    requires Inv(at, base, ws, s) && Fresh(ws) && Compatible(at, ws) && SizesAgree(at, ws)
    requires Indexed(base, ws, s)
    ensures Indexed(base, ws, Step(at, s, i))
  {
    hide SizesAgree, Compatible, View, Shows;
    if i < |ws| {
      var w, r := s.writers[i], Step(at, s, i);
      assert OnPath(at, ws[i], w);
      StepEffects(at, s.raid, w);
      StepKeepsInv(at, base, ws, s, i);
      assert OnPath(at, ws[i], r.writers[i]);
      if !Succeeded(w) && Succeeded(r.writers[i]) {
        SuccessKeepsIndexed(at, base, ws, s, i, r);
      } else {
        SameSuccess(at, base, ws, s, r, i);
      }
    }
  }

  lemma SameSuccess(at: Placement, base: RaidState, ws: seq<Writer>, s: System, r: System, i: nat)
    requires at.Lawful() && Fresh(ws) && |s.writers| == |ws| == |r.writers| && i < |ws|
    requires r.writers == s.writers[i := r.writers[i]] && (Succeeded(r.writers[i]) <==> Succeeded(s.writers[i]))
    requires r.raid.index == s.raid.index
    requires Indexed(base, ws, s)
    ensures Indexed(base, ws, r)
  {
    assert forall j | 0 <= j < |ws| :: Succeeded(r.writers[j]) <==> Succeeded(s.writers[j]);
  }

  lemma {:induction false} ExecKeepsIndexed(at: Placement, base: RaidState, ws: seq<Writer>, schedule: seq<nat>)
    requires WellFormed(at, base.img) && Fresh(ws) && Compatible(at, ws) && SizesAgree(at, ws)
    ensures var s := Exec(at, System(base, ws), schedule); Indexed(base, ws, s)
  {
    hide Inv, Compatible, SizesAgree;
    if schedule == [] {
      assert forall i | 0 <= i < |ws| :: !Succeeded(ws[i]);
    } else {
      hide Indexed, Fresh;
      var earlier := schedule[..|schedule| - 1];
      ExecKeepsIndexed(at, base, ws, earlier);
      ExecKeepsInv(at, base, ws, earlier);
      StepKeepsIndexed(at, base, ws, Exec(at, System(base, ws), earlier), schedule[|schedule| - 1]);
    }
  }

  // ---- All complete interleavings end alike ----

  ghost predicate AllFinished(s: System) {
    forall i | 0 <= i < |s.writers| :: s.writers[i].phase.Finished?
  }

  lemma ShowsUnique(base: seq<byte>, a: seq<byte>, b: seq<byte>, ws: seq<Writer>, reach: seq<nat>)
    requires Shows(base, a, ws, reach) && Shows(base, b, ws, reach)
    ensures a == b
  {
    forall x | 0 <= x < |a|
      ensures a[x] == b[x]
    {
      if i :| 0 <= i < |ws| && Covers(ws[i].offset, reach[i], x) {
        assert a[x] == ws[i].data[x - ws[i].offset];
      }
    }
  }

  lemma FinishedIsFinal(at: Placement, base: RaidState, ws: seq<Writer>, s: System, i: nat)
    requires Inv(at, base, ws, s) && i < |ws| && s.writers[i].phase.Finished?
    ensures Sound(at, ws[i]) && s.writers[i] == Final(at, ws[i])
  {
    assert OnPath(at, ws[i], s.writers[i]);
  }

  /** Two complete executions leave the same minions, mirrors, index and writers. */
  lemma OutcomeIsUnique(at: Placement, base: RaidState, ws: seq<Writer>, a: System, b: System)
    requires Fresh(ws) && Inv(at, base, ws, a) && AllFinished(a) && Inv(at, base, ws, b) && AllFinished(b)
    ensures a.writers == b.writers && a.raid.img == b.raid.img
    ensures Indexed(base, ws, a) && Indexed(base, ws, b) ==> a.raid.index == b.raid.index
  {
    hide View, Shows, Placement.Lawful;
    forall i | 0 <= i < |ws|
      ensures a.writers[i] == b.writers[i]
    {
      FinishedIsFinal(at, base, ws, a, i);
      FinishedIsFinal(at, base, ws, b, i);
    }
    assert a.writers == b.writers;
    forall c
      ensures View(at, a.raid.img, c) == View(at, b.raid.img, c)
    {
      ShowsUnique(View(at, base.img, c), View(at, a.raid.img, c), View(at, b.raid.img, c), ws,
                  Reaches(at, c, a.writers));
    }
    ViewsDetermineImage(at, a.raid.img, b.raid.img);
    if Indexed(base, ws, a) && Indexed(base, ws, b) {
      IndexUnique(base, ws, a, b);
    }
  }

  lemma IndexUnique(base: RaidState, ws: seq<Writer>, a: System, b: System)
    requires |a.writers| == |ws| && a.writers == b.writers
    requires Indexed(base, ws, a) && Indexed(base, ws, b)
    ensures a.raid.index == b.raid.index
  {
    forall k
      ensures Recorded(a.raid.index, k) == Recorded(b.raid.index, k)
    {
      if i :| 0 <= i < |ws| && Succeeded(a.writers[i]) && ws[i].offset == k {
      } else {
        assert forall i | 0 <= i < |ws| && Succeeded(a.writers[i]) :: ws[i].offset != k;
      }
    }
    SameRecords(a.raid.index, b.raid.index);
  }

  // ---- Run alone, a writer is RAIDStorage::Write ----

  /** A writer at a chunk boundary. */
  predicate AtChunk(w: Writer) {
    w.phase.ToPrimary? && w.pos <= |w.data|
  }

  /** What RAIDStorage::Write does from the chunk w has reached on. */
  function WriteFrom(at: Placement, raid: RaidState, w: Writer): (RaidState, bool)
    requires WellFormed(at, raid.img) && w.pos <= |w.data|
  {
    var (img, ok) := WriteChunks(at, raid.img, w.offset + w.pos, w.data[w.pos..], w.faults.write);
    var index := raid.index[w.offset := |w.data|];
    if ok then (RaidState(img, index, Saved(raid.saved, index, w.faults.save)), true)
    else (raid.(img := img), false)
  }

  /** The minion call of a step. */
  lemma ActCalls(at: Placement, raid: RaidState, w: Writer) returns (call: WriteOutcome)
    requires WellFormed(at, raid.img) && !w.phase.Finished? && w.pos < |w.data|
    ensures var o, m := w.offset + w.pos, MinionOf(at, CalledCopy(w), w.offset + w.pos);
            var chunk := w.data[w.pos..w.pos + w.Chunk(at)];
            && call == MinionWrite(raid.img[m], at.local(o), chunk, w.faults.write(o, CalledCopy(w)))
            && Act(at, raid, w) ==
               (raid.(img := raid.img[m := call.data]),
                if !call.ok then w.(phase := Finished(false))
                else if w.phase.ToPrimary? then w.(phase := ToMirror)
                else w.(pos := w.pos + w.Chunk(at), phase := ToPrimary))
  {
    hide MinionWrite;
    var o, m := w.offset + w.pos, MinionOf(at, CalledCopy(w), w.offset + w.pos);
    call := MinionWrite(raid.img[m], at.local(o), w.data[w.pos..w.pos + w.Chunk(at)], w.faults.write(o, CalledCopy(w)));
  }

  /** A throwing call to the primary ends the Write. */
  lemma SoloPrimaryFails(at: Placement, raid: RaidState, w: Writer)
    requires WellFormed(at, raid.img) && AtChunk(w) && w.pos < |w.data| && Act(at, raid, w).1.phase.Finished?
    ensures var (raid1, w1) := Act(at, raid, w);
            w1.phase == Finished(false) && WriteFrom(at, raid, w) == (raid1, false)
  {
    var o, rest := w.offset + w.pos, w.data[w.pos..];
    assert w.data[w.pos..w.pos + w.Chunk(at)] == rest[..w.Chunk(at)];
    hide Act, WriteChunks, WellFormed, MinionWrite, MinionOf, Placement.Lawful, WriteFrom;
    var first := ActCalls(at, raid, w);
    WriteTurn(at, raid.img, o, rest, w.faults.write, first, first);
    WriteFromFails(at, raid, w, Act(at, raid, w).0.img);
  }

  lemma ChunkOfRest(at: Placement, w: Writer)
    requires w.pos <= |w.data|
    ensures var rest := w.data[w.pos..];
            && w.Chunk(at) == at.ChunkLength(w.offset + w.pos, |rest|) <= |rest|
            && w.data[w.pos..w.pos + w.Chunk(at)] == rest[..w.Chunk(at)]
  {
  }

  lemma MinionsOfChunk(at: Placement, img: Image, o: nat)
    requires WellFormed(at, img)
    ensures at.Lawful() && MinionOf(at, Primary, o) < |img| && MinionOf(at, Mirror, o) < |img|
  {
    assert at.OffsetLaw(o);
  }

  /** One turn of the loop of WriteChunks, by the outcomes of its two minion calls. */
  lemma WriteFromTurn(at: Placement, raid: RaidState, w: Writer, first: WriteOutcome, second: WriteOutcome)
    requires WellFormed(at, raid.img) && w.pos < |w.data|
    requires var o, chunk := w.offset + w.pos, w.data[w.pos..w.pos + w.Chunk(at)];
             var img1 := raid.img[MinionOf(at, Primary, o) := first.data];
             && first.ok
             && first == MinionWrite(raid.img[MinionOf(at, Primary, o)], at.local(o), chunk, w.faults.write(o, Primary))
             && second == MinionWrite(img1[MinionOf(at, Mirror, o)], at.local(o), chunk, w.faults.write(o, Mirror))
    ensures var o := w.offset + w.pos;
            var img2 := raid.img[MinionOf(at, Primary, o) := first.data][MinionOf(at, Mirror, o) := second.data];
            if second.ok then
              && WellFormed(at, img2)
              && WriteFrom(at, raid, w) == WriteFrom(at, raid.(img := img2), w.(pos := w.pos + w.Chunk(at)))
            else WriteFrom(at, raid, w) == (raid.(img := img2), false)
  {
    hide *;
    MinionsOfChunk(at, raid.img, w.offset + w.pos);
    ChunkOfRest(at, w);
    var o, n, rest := w.offset + w.pos, w.Chunk(at), w.data[w.pos..];
    var img2 := raid.img[MinionOf(at, Primary, o) := first.data][MinionOf(at, Mirror, o) := second.data];
    WriteTurn(at, raid.img, o, rest, w.faults.write, first, second);
    if second.ok {
      WriteFromContinues(at, raid, w, img2, n);
    } else {
      WriteFromFails(at, raid, w, img2);
    }
  }

  /** After one that does not, the mirror's call decides. */
  lemma SoloMirror(at: Placement, raid: RaidState, w: Writer)
    requires WellFormed(at, raid.img) && AtChunk(w) && w.pos < |w.data| && !Act(at, raid, w).1.phase.Finished?
    ensures var (raid1, w1) := Act(at, raid, w);
            var (raid2, w2) := Act(at, raid1, w1);
            if w2.phase.Finished? then w2.phase == Finished(false) && WriteFrom(at, raid, w) == (raid2, false)
            else w2 == w.(pos := w.pos + w.Chunk(at)) && WriteFrom(at, raid, w) == WriteFrom(at, raid2, w2)
  {
    hide Act, WriteChunks, WellFormed, MinionWrite, MinionOf, Placement.Lawful, WriteFrom;
    var first := ActCalls(at, raid, w);
    var raid1, w1 := Act(at, raid, w).0, Act(at, raid, w).1;
    assert w1 == w.(phase := ToMirror) && w1.Chunk(at) == w.Chunk(at);
    var second := ActCalls(at, raid1, w1);
    WriteFromTurn(at, raid, w, first, second);
  }

  /** Two steps of a writer alone are one turn of the loop of WriteChunks; a call that throws ends it. */
  lemma SoloChunk(at: Placement, raid: RaidState, w: Writer)
    requires WellFormed(at, raid.img) && AtChunk(w) && w.pos < |w.data|
    ensures var (raid1, w1) := Act(at, raid, w);
            var (raid2, w2) := Act(at, raid1, w1);
            && w.Chunk(at) > 0
            && if w1.phase.Finished? then
                 w1.phase == Finished(false) && WriteFrom(at, raid, w) == (raid1, false)
               else if w2.phase.Finished? then
                 w2.phase == Finished(false) && WriteFrom(at, raid, w) == (raid2, false)
               else
                 w2 == w.(pos := w.pos + w.Chunk(at)) && WriteFrom(at, raid, w) == WriteFrom(at, raid2, w2)
  {
    assert at.OffsetLaw(w.offset + w.pos);
    hide Act, WellFormed, Placement.Lawful, WriteFrom;
    if Act(at, raid, w).1.phase.Finished? {
      SoloPrimaryFails(at, raid, w);
    } else {
      SoloMirror(at, raid, w);
    }
  }

  lemma WriteFromFails(at: Placement, raid: RaidState, w: Writer, img: Image)
    requires WellFormed(at, raid.img) && w.pos <= |w.data|
    requires WriteChunks(at, raid.img, w.offset + w.pos, w.data[w.pos..], w.faults.write) == (img, false)
    ensures WriteFrom(at, raid, w) == (raid.(img := img), false)
  {
    hide WriteChunks, WellFormed, Placement.Lawful;
  }

  lemma WriteFromContinues(at: Placement, raid: RaidState, w: Writer, img: Image, n: nat)
    requires WellFormed(at, raid.img) && WellFormed(at, img) && w.pos + n <= |w.data|
    requires WriteChunks(at, raid.img, w.offset + w.pos, w.data[w.pos..], w.faults.write) ==
             WriteChunks(at, img, w.offset + w.pos + n, w.data[w.pos..][n..], w.faults.write)
    ensures WriteFrom(at, raid, w) == WriteFrom(at, raid.(img := img), w.(pos := w.pos + n))
  {
    hide WriteChunks, WellFormed, Placement.Lawful;
    assert w.data[w.pos..][n..] == w.data[w.pos + n..];
  }

  /** So the steps of one writer with no other in between do what RAIDStorage::Write does. */
  lemma {:induction false} SoloIsWrite(at: Placement, s: System, i: nat) returns (schedule: seq<nat>, r: System)
    requires WellFormed(at, s.raid.img) && i < |s.writers| && AtChunk(s.writers[i])
    ensures r == Exec(at, s, schedule) && |r.writers| == |s.writers|
    ensures (r.raid, r.writers[i].phase == Finished(true)) == WriteFrom(at, s.raid, s.writers[i])
    ensures r.writers[i].phase.Finished? && r.writers == s.writers[i := r.writers[i]]
    decreases |s.writers[i].data| - s.writers[i].pos
  {
    hide WriteFrom, WellFormed;
    var w := s.writers[i];
    var s1 := Step(at, s, i);
    var s2 := Step(at, s1, i);
    ExecOne(at, s, i);
    ExecOne(at, s1, i);
    ExecConcat(at, s, [i], [i]);
    if w.pos == |w.data| {
      schedule, r := [i], s1;
      LastStep(at, s.raid, w);
    } else {
      SoloChunk(at, s.raid, w);
      hide Act;
      if s1.writers[i].phase.Finished? {
        schedule, r := [i], s1;
      } else if s2.writers[i].phase.Finished? {
        schedule, r := [i] + [i], s2;
      } else {
        var rest, end := SoloIsWrite(at, s2, i);
        ExecConcat(at, s, [i] + [i], rest);
        schedule, r := [i] + [i] + rest, end;
      }
    }
  }

  lemma LastStep(at: Placement, raid: RaidState, w: Writer)
    requires WellFormed(at, raid.img) && w.phase.ToPrimary? && w.pos == |w.data|
    ensures Act(at, raid, w) == (WriteFrom(at, raid, w).0, w.(phase := Finished(true))) && WriteFrom(at, raid, w).1
  {
    assert w.data[w.pos..] == [];
    WriteNothing(at, raid.img, w.offset + w.pos, w.faults.write);
  }

  // ---- One Write after another ----

  /** The calls that serve the writers one after another. */
  function Serially(ws: seq<Writer>, order: seq<nat>): (r: seq<Call>)
    requires forall j | 0 <= j < |order| :: order[j] < |ws|
    ensures |r| == |order|
  {
    seq(|order|, j requires 0 <= j < |order| =>
          Call(Write(ws[order[j]].offset, ws[order[j]].data), ws[order[j]].faults))
  }

  ghost predicate Distinct(order: seq<nat>, n: nat) {
    && (forall j | 0 <= j < |order| :: order[j] < n)
    && (forall j, k | 0 <= j < k < |order| :: order[j] != order[k])
  }

  /** r is where serving the writers of order one after another leads. */
  ghost predicate SerialOutcome(at: Placement, base: RaidState, ws: seq<Writer>, order: seq<nat>, r: System)
    requires WellFormed(at, base.img)
    requires forall j | 0 <= j < |order| :: order[j] < |ws|
  {
    var (raid, rs) := Run(at, base, Serially(ws, order));
    && |r.writers| == |ws| && r.raid == raid
    && forall j | 0 <= j < |order| :: r.writers[order[j]].phase == Finished(rs[j] == Status(true))
  }

  /** Serving one more writer extends the serial run by its Write. */
  lemma SerialStep(at: Placement, base: RaidState, ws: seq<Writer>, order: seq<nat>, mid: System, end: System)
    requires WellFormed(at, base.img) && Fresh(ws) && Distinct(order, |ws|) && order != []
    requires SerialOutcome(at, base, ws, order[..|order| - 1], mid) && WellFormed(at, mid.raid.img)
    requires var i := order[|order| - 1];
             && mid.writers[i] == ws[i] && |end.writers| == |ws|
             && end.writers == mid.writers[i := end.writers[i]] && end.writers[i].phase.Finished?
             && (end.raid, end.writers[i].phase == Finished(true)) == WriteFrom(at, mid.raid, ws[i])
    ensures SerialOutcome(at, base, ws, order, end)
  {
    var n := |order| - 1;
    var w := ws[order[n]];
    var calls := Serially(ws, order);
    assert w.data[0..] == w.data;
    assert calls[..n] == Serially(ws, order[..n]);
    assert calls[n] == Call(Write(w.offset, w.data), w.faults);
    hide WriteChunks, WellFormed;
    var rs := Run(at, base, calls[..n]).1;
    forall j | 0 <= j < n
      ensures end.writers[order[j]].phase == Finished(rs[j] == Status(true))
    {
      assert order[..n][j] == order[j] && order[j] != order[n];
    }
  }

  lemma {:induction false} SerialIsSchedule(at: Placement, base: RaidState, ws: seq<Writer>, order: seq<nat>)
    returns (schedule: seq<nat>, r: System)
    requires WellFormed(at, base.img) && Fresh(ws) && Distinct(order, |ws|)
    ensures r == Exec(at, System(base, ws), schedule) && SerialOutcome(at, base, ws, order, r)
    ensures forall i | 0 <= i < |ws| && i !in order :: r.writers[i] == ws[i]
  {
    hide WellFormed, WriteFrom;
    if order == [] {
      schedule, r := [], System(base, ws);
    } else {
      var n := |order| - 1;
      var i := order[n];
      assert i !in order[..n];
      var first, mid := SerialIsSchedule(at, base, ws, order[..n]);
      var solo, end := SoloIsWrite(at, mid, i);
      ExecConcat(at, System(base, ws), first, solo);
      SerialStep(at, base, ws, order, mid, end);
      schedule, r := first + solo, end;
      assert order == order[..n] + [i];
    }
  }

  lemma SerialFinishesAll(at: Placement, base: RaidState, ws: seq<Writer>, order: seq<nat>, r: System)
    requires WellFormed(at, base.img) && Distinct(order, |ws|) && forall i: nat | i < |ws| :: i in order
    requires SerialOutcome(at, base, ws, order, r)
    ensures AllFinished(r)
  {
    forall i: nat | i < |ws|
      ensures r.writers[i].phase.Finished?
    {
      assert i in order;
      var j :| 0 <= j < |order| && order[j] == i;
      assert r.writers[order[j]].phase.Finished?;
    }
  }

  /** Concurrent Writes that are compatible serialise, under any faults: every interleaving that
      completes leaves the minions, the mirrors, the index and the statuses that serving the Writes
      one after another leaves, in any order. */
  lemma ConcurrentWritesSerialise(at: Placement, base: RaidState, ws: seq<Writer>, schedule: seq<nat>, order: seq<nat>)
    requires WellFormed(at, base.img) && Fresh(ws) && Compatible(at, ws) && SizesAgree(at, ws)
    requires AllFinished(Exec(at, System(base, ws), schedule))
    requires Distinct(order, |ws|) && forall i: nat | i < |ws| :: i in order
    ensures var (raid, rs) := Run(at, base, Serially(ws, order));
            var end := Exec(at, System(base, ws), schedule);
            && end.raid.img == raid.img && end.raid.index == raid.index
            && forall j | 0 <= j < |order| :: end.writers[order[j]].phase == Finished(rs[j] == Status(true))
  {
    hide Inv, Indexed, Compatible, SizesAgree;
    var serial, r := SerialIsSchedule(at, base, ws, order);
    ExecKeepsInv(at, base, ws, schedule);
    ExecKeepsInv(at, base, ws, serial);
    ExecKeepsIndexed(at, base, ws, schedule);
    ExecKeepsIndexed(at, base, ws, serial);
    SerialFinishesAll(at, base, ws, order, r);
    OutcomeIsUnique(at, base, ws, Exec(at, System(base, ws), schedule), r);
  }

  // ---- And only compatible ones do ----

  lemma OverlayTwice(v: seq<byte>, o: nat, a: seq<byte>, b: seq<byte>)
    ensures Overlay(Overlay(v, o, a), o + |a|, b) == Overlay(v, o, a + b)
  {
  }

  lemma GainsAdd(at: Placement, c: Copy, w: Writer, w1: Writer, w2: Writer)
    requires Reach(at, c, w) <= Reach(at, c, w1) <= Reach(at, c, w2) <= |w.data| && w1.data == w.data == w2.data
    ensures Gain(at, c, w, w1) + Gain(at, c, w1, w2) == Gain(at, c, w, w2)
  {
    hide Reach;
  }

  /** r is s with the steps of writer i from w to w1 done. */
  ghost predicate Moved(at: Placement, s: System, i: nat, w: Writer, w1: Writer, r: System)
    requires WellFormed(at, s.raid.img)
  {
    && WellFormed(at, r.raid.img) && i < |s.writers| && s.writers[i] == w && r.writers == s.writers[i := w1]
    && (forall c :: Reach(at, c, w) <= Reach(at, c, w1) <= |w.data| &&
          View(at, r.raid.img, c) ==
          Overlay(View(at, s.raid.img, c), w.offset + Reach(at, c, w), Gain(at, c, w, w1)))
    && (if !Succeeded(w) && Succeeded(w1) then
          && r.raid.index == s.raid.index[w.offset := |w.data|]
          && r.raid.saved == Saved(s.raid.saved, r.raid.index, w.faults.save)
        else
          r.raid.index == s.raid.index && r.raid.saved == s.raid.saved)
  }

  lemma StepMoves(at: Placement, s: System, i: nat)
    requires WellFormed(at, s.raid.img) && i < |s.writers| && Sound(at, s.writers[i])
    ensures Moved(at, s, i, s.writers[i], Next(at, s.writers[i]), Step(at, s, i))
  {
    hide Act, Next, Reach, Gain, View, Overlay, Placement.Lawful, Sound;
    StepEffects(at, s.raid, s.writers[i]);
  }

  lemma MovedTwice(at: Placement, s: System, i: nat, w: Writer, w1: Writer, w2: Writer, mid: System, r: System)
    requires WellFormed(at, s.raid.img) && Moved(at, s, i, w, w1, mid) && Moved(at, mid, i, w1, w2, r)
    requires w1.offset == w.offset && w1.data == w.data == w2.data && w2.offset == w.offset && w1.faults == w.faults
    requires Succeeded(w) ==> Succeeded(w1)
    requires Succeeded(w1) ==> Succeeded(w2)
    ensures Moved(at, s, i, w, w2, r)
  {
    hide Reach, Gain, View, Overlay, WellFormed, Placement.Lawful, Saved;
    forall c
      ensures Reach(at, c, w) <= Reach(at, c, w2) <= |w.data| &&
              View(at, r.raid.img, c) ==
              Overlay(View(at, s.raid.img, c), w.offset + Reach(at, c, w), Gain(at, c, w, w2))
    {
      assert Reach(at, c, w1) <= Reach(at, c, w2);
      assert Reach(at, c, w) <= Reach(at, c, w1);
      GainsLaid(at, c, w, w1, w2, View(at, s.raid.img, c));
    }
  }

  lemma GainsLaid(at: Placement, c: Copy, w: Writer, w1: Writer, w2: Writer, view: seq<byte>)
    requires Reach(at, c, w) <= Reach(at, c, w1) <= Reach(at, c, w2) <= |w.data|
    requires w1.offset == w.offset && w1.data == w.data == w2.data
    ensures Overlay(Overlay(view, w.offset + Reach(at, c, w), Gain(at, c, w, w1)),
                    w.offset + Reach(at, c, w1), Gain(at, c, w1, w2)) ==
            Overlay(view, w.offset + Reach(at, c, w), Gain(at, c, w, w2))
  {
    hide *;
    GainLength(at, c, w, w1);
    GainsAdd(at, c, w, w1, w2);
    OverlayTwice(view, w.offset + Reach(at, c, w), Gain(at, c, w, w1), Gain(at, c, w1, w2));
  }

  lemma GainLength(at: Placement, c: Copy, w: Writer, w1: Writer)
    requires Reach(at, c, w) <= Reach(at, c, w1) <= |w.data|
    ensures |Gain(at, c, w, w1)| == Reach(at, c, w1) - Reach(at, c, w)
  {
  }

  /** A writer can always be run to its end. */
  lemma {:induction false} RunToEnd(at: Placement, s: System, i: nat) returns (schedule: seq<nat>)
    requires WellFormed(at, s.raid.img) && i < |s.writers| && Sound(at, s.writers[i])
    ensures Moved(at, s, i, s.writers[i], Final(at, s.writers[i]), Exec(at, s, schedule))
    decreases StepsLeft(s.writers[i])
  {
    assert at.Lawful();
    hide Act, Next, Reach, View, Sound, WellFormed, Moved;
    var w := s.writers[i];
    var s1 := Step(at, s, i);
    StepMoves(at, s, i);
    NextKeepsSound(at, w);
    assert s1.writers == s.writers[i := Next(at, w)] by {
      ActIsNext(at, s.raid, w);
    }
    ExecOne(at, s, i);
    if w.phase.Finished? {
      schedule := [i];
      FinishedStays(at, w);
    } else {
      var rest := RunToEnd(at, s1, i);
      ExecConcat(at, s, [i], rest);
      schedule := [i] + rest;
      NextIsNear(at, w);
      MovedTwice(at, s, i, w, Next(at, w), Final(at, w), s1, Exec(at, s, schedule));
    }
  }

  lemma FinishedStays(at: Placement, w: Writer)
    requires at.Lawful() && Sound(at, w) && w.phase.Finished?
    ensures Next(at, w) == w == Final(at, w)
  {
  }

  lemma NextIsNear(at: Placement, w: Writer)
    requires at.Lawful() && Sound(at, w) && !w.phase.Finished?
    ensures var n := Next(at, w);
            && n.offset == w.offset && n.data == w.data && n.faults == w.faults
            && Sound(at, n) && Final(at, n) == Final(at, w)
            && (Succeeded(n) ==> Succeeded(Final(at, w)))
  {
    NextKeepsSound(at, w);
  }

  function AllBut(n: nat, skip: set<nat>): (r: set<nat>)
    ensures forall k: nat :: k in r <==> k < n && k !in skip
  {
    if n == 0 then {} else AllBut(n - 1, skip) + if n - 1 in skip then {} else {n - 1}
  }

  /** The writer succeeds and its save reaches the store. */
  ghost predicate Saves(at: Placement, saved: Snapshot, w: Writer)
    requires at.Lawful() && Sound(at, w)
  {
    Succeeded(Final(at, w)) && Takes(saved, w.faults.save)
  }

  ghost predicate NoneSaves(at: Placement, saved: Snapshot, ws: seq<Writer>, todo: set<nat>, m: nat)
    requires at.Lawful() && Fresh(ws) && m <= |ws|
  {
    forall k: nat | k < m && k in todo :: !Saves(at, saved, ws[k])
  }

  lemma NoneOfLess(at: Placement, saved: Snapshot, ws: seq<Writer>, todo: set<nat>, m: nat)
    requires at.Lawful() && Fresh(ws) && 0 < m <= |ws|
    ensures NoneSaves(at, saved, ws, todo, m) ==>
              NoneSaves(at, saved, ws, todo, m - 1) && (m - 1 in todo ==> !Saves(at, saved, ws[m - 1]))
  {
  }

  lemma NoneRunYet(at: Placement, s: System, ws: seq<Writer>, todo: set<nat>)
    requires WellFormed(at, s.raid.img) && Fresh(ws) && |s.writers| == |ws|
    ensures Exec(at, s, []) == s && HaveRun(at, ws, todo, 0, s.writers, s.writers)
  {
    hide Final;
  }

  lemma FreshIsSound(at: Placement, img: Image, ws: seq<Writer>, i: nat)
    requires WellFormed(at, img) && Fresh(ws) && i < |ws|
    ensures at.Lawful() && Sound(at, ws[i]) && NotStarted(ws[i])
  {
  }

  /** A set of writers can be run to their ends, one after another, before any other takes a step. */
  lemma {:induction false} RunSet(at: Placement, s: System, ws: seq<Writer>, todo: set<nat>, m: nat)
    returns (schedule: seq<nat>, r: System)
    requires WellFormed(at, s.raid.img) && Fresh(ws) && |s.writers| == |ws| && m <= |ws|
    requires forall k: nat | k < m && k in todo :: s.writers[k] == ws[k]
    ensures r == Exec(at, s, schedule) && HaveRun(at, ws, todo, m, s.writers, r.writers)
    ensures NoneSaves(at, s.raid.saved, ws, todo, m) ==> r.raid.saved == s.raid.saved
    decreases m
  {
    hide *;
    if m == 0 {
      schedule, r := [], s;
      NoneRunYet(at, s, ws, todo);
    } else {
      var w := ws[m - 1];
      FreshIsSound(at, s.raid.img, ws, m - 1);
      NoneOfLess(at, s.raid.saved, ws, todo, m);
      schedule, r := RunSet(at, s, ws, todo, m - 1);
      if m - 1 in todo {
        var mid := r;
        NotYetRun(at, ws, todo, m, s.writers, mid.writers);
        var more;
        more, r := RunOut(at, mid, m - 1);
        OneMoreRun(at, ws, todo, m, s.writers, mid.writers, r.writers);
        MovedUnsaved(at, mid, m - 1, w, r);
        ExecConcat(at, s, schedule, more);
        schedule := schedule + more;
      } else {
        NotYetRun(at, ws, todo, m, s.writers, r.writers);
      }
    }
  }

  /** us, after those of the first m writers that are in todo have run to their ends. */
  ghost predicate HaveRun(at: Placement, ws: seq<Writer>, todo: set<nat>, m: nat, us: seq<Writer>, rs: seq<Writer>)
    requires at.Lawful() && Fresh(ws) && |us| == |ws|
  {
    |rs| == |ws| && forall k: nat | k < |ws| :: rs[k] == if k < m && k in todo then Final(at, ws[k]) else us[k]
  }

  lemma NotYetRun(at: Placement, ws: seq<Writer>, todo: set<nat>, m: nat, us: seq<Writer>, vs: seq<Writer>)
    requires at.Lawful() && Fresh(ws) && |us| == |ws| && 0 < m <= |ws| && HaveRun(at, ws, todo, m - 1, us, vs)
    ensures |vs| == |ws| && vs[m - 1] == us[m - 1]
    ensures m - 1 !in todo ==> HaveRun(at, ws, todo, m, us, vs)
  {
    hide Final, Placement.Lawful;
  }

  lemma OneMoreRun(at: Placement, ws: seq<Writer>, todo: set<nat>, m: nat,
                   us: seq<Writer>, vs: seq<Writer>, rs: seq<Writer>)
    requires at.Lawful() && Fresh(ws) && |us| == |ws| && 0 < m <= |ws| && m - 1 in todo
    requires HaveRun(at, ws, todo, m - 1, us, vs) && rs == vs[m - 1 := Final(at, ws[m - 1])]
    ensures HaveRun(at, ws, todo, m, us, rs)
  {
    hide Final, Placement.Lawful;
  }

  lemma MovedUnsaved(at: Placement, s: System, i: nat, w: Writer, r: System)
    requires WellFormed(at, s.raid.img) && Sound(at, w) && NotStarted(w) && Moved(at, s, i, w, Final(at, w), r)
    ensures !Saves(at, s.raid.saved, w) ==> r.raid.saved == s.raid.saved
  {
    hide View, Overlay, Gain, Reach, Final, Placement.Lawful;
  }

  /** Two writers, the second run after the first and everything else: the copies hold its bytes, and
      the index its size if it succeeds. */
  lemma LastOneWins(at: Placement, base: RaidState, ws: seq<Writer>, i: nat, j: nat) returns (schedule: seq<nat>)
    requires WellFormed(at, base.img) && Fresh(ws) && i < |ws| && j < |ws| && i != j
    ensures var s := Exec(at, System(base, ws), schedule); AllFinished(s) && HoldsLast(at, ws[j], s.raid)
  {
    assert at.Lawful() && NotStarted(ws[j]) && Sound(at, ws[i]) && Sound(at, ws[j]);
    hide *;
    var others, s0 := RunAllBut(at, base, ws, i, j);
    var first, s1 := RunOut(at, s0, i);
    assert s1.writers[j] == ws[j];
    var second, s2 := RunOut(at, s1, j);
    ExecConcat(at, System(base, ws), others, first);
    ExecConcat(at, System(base, ws), others + first, second);
    schedule := others + first + second;
    TwoUpdates(s0.writers, i, j, Final(at, ws[i]), Final(at, ws[j]), s1.writers, s2.writers);
    NowAllFinished(at, ws, s0, i, j, s2);
    MovedWriters(at, s1, j, ws[j], Final(at, ws[j]), s2);
    MovedHolds(at, s1, j, ws[j], s2);
  }

  lemma TwoUpdates(ws: seq<Writer>, i: nat, j: nat, w: Writer, u: Writer, ws1: seq<Writer>, ws2: seq<Writer>)
    requires i < |ws| && j < |ws| && i != j && ws1 == ws[i := w] && ws2 == ws1[j := u]
    ensures |ws2| == |ws| && ws2[i] == w && ws2[j] == u
    ensures forall k | 0 <= k < |ws| && k != i && k != j :: ws2[k] == ws[k]
  {
  }

  /** The copies hold what the writer stores, and the index its size if it succeeds. */
  ghost predicate HoldsLast(at: Placement, w: Writer, raid: RaidState)
    requires WellFormed(at, raid.img) && Sound(at, w)
  {
    && (forall c, x: nat | Stores(at, c, w, x) :: View(at, raid.img, c)[x] == w.data[x - w.offset])
    && (Succeeded(Final(at, w)) ==> Recorded(raid.index, w.offset) == Some(|w.data|))
  }

  lemma MovedWriters(at: Placement, s: System, i: nat, w: Writer, w1: Writer, r: System)
    requires WellFormed(at, s.raid.img) && Moved(at, s, i, w, w1, r)
    ensures WellFormed(at, r.raid.img) && r.writers == s.writers[i := w1]
  {
  }

  lemma MovedHolds(at: Placement, s: System, i: nat, w: Writer, r: System)
    requires WellFormed(at, s.raid.img) && WellFormed(at, r.raid.img) && Sound(at, w)
    requires NotStarted(w) && Moved(at, s, i, w, Final(at, w), r)
    ensures HoldsLast(at, w, r.raid)
  {
    hide View, Overlay, Gain, Reach, Moved, Stores, Placement.Lawful, NotStarted, Succeeded, Final, Sound;
    forall c, x: nat | Stores(at, c, w, x)
      ensures View(at, r.raid.img, c)[x] == w.data[x - w.offset]
    {
      MovedView(at, s, i, w, Final(at, w), r, c);
      StoredByteMoved(at, View(at, s.raid.img, c), c, w, x);
    }
    MovedIndex(at, s, i, w, Final(at, w), r);
  }

  lemma MovedView(at: Placement, s: System, i: nat, w: Writer, w1: Writer, r: System, c: Copy)
    requires WellFormed(at, s.raid.img) && WellFormed(at, r.raid.img) && Moved(at, s, i, w, w1, r)
    ensures View(at, r.raid.img, c) ==
            Overlay(View(at, s.raid.img, c), w.offset + Reach(at, c, w), Gain(at, c, w, w1))
  {
  }

  lemma MovedIndex(at: Placement, s: System, i: nat, w: Writer, w1: Writer, r: System)
    requires WellFormed(at, s.raid.img) && NotStarted(w) && Moved(at, s, i, w, w1, r)
    ensures Succeeded(w1) ==> Recorded(r.raid.index, w.offset) == Some(|w.data|)
  {
  }

  lemma StoredByteMoved(at: Placement, view: seq<byte>, c: Copy, w: Writer, x: nat)
    requires at.Lawful() && Sound(at, w) && NotStarted(w) && |view| == at.capacity && Stores(at, c, w, x)
    ensures Overlay(view, w.offset + Reach(at, c, w), Gain(at, c, w, Final(at, w)))[x] == w.data[x - w.offset]
  {
    hide Overlay, Gain, Placement.Lawful;
    GainedByte(at, view, c, w, Final(at, w), x);
  }

  /** The bytes a copy gains, one by one. */
  lemma GainedByte(at: Placement, view: seq<byte>, c: Copy, w: Writer, w1: Writer, x: nat)
    requires Reach(at, c, w) <= Reach(at, c, w1) <= |w.data| && x < |view|
    ensures Overlay(view, w.offset + Reach(at, c, w), Gain(at, c, w, w1))[x] ==
            if w.offset + Reach(at, c, w) <= x < w.offset + Reach(at, c, w1) then w.data[x - w.offset] else view[x]
  {
    hide Reach;
  }

  ghost predicate Complete(at: Placement, base: RaidState, ws: seq<Writer>, schedule: seq<nat>)
    requires WellFormed(at, base.img)
  {
    AllFinished(Exec(at, System(base, ws), schedule))
  }

  /** Both schedules leave the same minions and the same index. */
  ghost predicate SameEnd(at: Placement, base: RaidState, ws: seq<Writer>, a: seq<nat>, b: seq<nat>)
    requires WellFormed(at, base.img)
  {
    var r, s := Exec(at, System(base, ws), a).raid, Exec(at, System(base, ws), b).raid;
    r.img == s.img && r.index == s.index
  }

  /** Under any faults: all complete interleavings leave the same minions and index if and only if no
      two writers store different bytes at one place, and none that succeed at one offset differ in
      size. */
  lemma InterleavingsAgreeIff(at: Placement, base: RaidState, ws: seq<Writer>)
    requires WellFormed(at, base.img) && Fresh(ws)
    ensures (forall a: seq<nat>, b: seq<nat> | Complete(at, base, ws, a) && Complete(at, base, ws, b) ::
               SameEnd(at, base, ws, a, b))
            <==> Compatible(at, ws) && SizesAgree(at, ws)
  {
    if Compatible(at, ws) && SizesAgree(at, ws) {
      forall a: seq<nat>, b: seq<nat> | Complete(at, base, ws, a) && Complete(at, base, ws, b)
        ensures SameEnd(at, base, ws, a, b)
      {
        CompatibleWritesAgree(at, base, ws, a, b);
      }
    } else {
      var a, b := TwoEnds(at, base, ws);
    }
  }

  lemma CompatibleWritesAgree(at: Placement, base: RaidState, ws: seq<Writer>, a: seq<nat>, b: seq<nat>)
    requires WellFormed(at, base.img) && Fresh(ws) && Compatible(at, ws) && SizesAgree(at, ws)
    requires Complete(at, base, ws, a) && Complete(at, base, ws, b)
    ensures SameEnd(at, base, ws, a, b)
  {
    hide Inv, Indexed, Compatible, SizesAgree;
    ExecKeepsInv(at, base, ws, a);
    ExecKeepsInv(at, base, ws, b);
    ExecKeepsIndexed(at, base, ws, a);
    ExecKeepsIndexed(at, base, ws, b);
    OutcomeIsUnique(at, base, ws, Exec(at, System(base, ws), a), Exec(at, System(base, ws), b));
  }

  lemma TwoEnds(at: Placement, base: RaidState, ws: seq<Writer>) returns (a: seq<nat>, b: seq<nat>)
    requires WellFormed(at, base.img) && Fresh(ws) && !(Compatible(at, ws) && SizesAgree(at, ws))
    ensures Complete(at, base, ws, a) && Complete(at, base, ws, b) && !SameEnd(at, base, ws, a, b)
  {
    hide *;
    var i, j := Clashing(at, base.img, ws);
    a := LastOneWins(at, base, ws, i, j);
    b := LastOneWins(at, base, ws, j, i);
    CannotHoldBoth(at, ws[i], ws[j], Exec(at, System(base, ws), a).raid, Exec(at, System(base, ws), b).raid);
    SameEndMeans(at, base, ws, a, b);
    AllFinishedIsComplete(at, base, ws, a);
    AllFinishedIsComplete(at, base, ws, b);
  }

  lemma SameEndMeans(at: Placement, base: RaidState, ws: seq<Writer>, a: seq<nat>, b: seq<nat>)
    requires WellFormed(at, base.img)
    ensures var r, s := Exec(at, System(base, ws), a).raid, Exec(at, System(base, ws), b).raid;
            SameEnd(at, base, ws, a, b) <==> r.img == s.img && r.index == s.index
  {
  }

  lemma Clashing(at: Placement, img: Image, ws: seq<Writer>) returns (i: nat, j: nat)
    requires WellFormed(at, img) && Fresh(ws) && !(Compatible(at, ws) && SizesAgree(at, ws))
    ensures at.Lawful() && i < |ws| && j < |ws| && i != j && Sound(at, ws[i]) && Sound(at, ws[j])
    ensures Clash(at, ws[i], ws[j]) && Clash(at, ws[j], ws[i])
  {
    hide Stores, Final, Placement.Lawful, Succeeded;
    i, j := 0, 0;
    if !Compatible(at, ws) {
      var c, x;
      c, i, j, x :| 0 <= i < |ws| && 0 <= j < |ws| && Stores(at, c, ws[i], x) && Stores(at, c, ws[j], x)
        && ws[i].data[x - ws[i].offset] != ws[j].data[x - ws[j].offset];
      assert BytesDiffer(at, ws[i], ws[j], c, x) && BytesDiffer(at, ws[j], ws[i], c, x);
    } else {
      i, j :| 0 <= i < |ws| && 0 <= j < |ws| && ws[i].offset == ws[j].offset
        && Succeeded(Final(at, ws[i])) && Succeeded(Final(at, ws[j])) && |ws[i].data| != |ws[j].data|;
    }
  }

  /** Two writers that store different bytes at one place, or succeed at one offset with different sizes. */
  ghost predicate Clash(at: Placement, w: Writer, u: Writer)
    requires at.Lawful() && Sound(at, w) && Sound(at, u)
  {
    || (exists c, x :: BytesDiffer(at, w, u, c, x))
    || (w.offset == u.offset && Succeeded(Final(at, w)) && Succeeded(Final(at, u)) && |w.data| != |u.data|)
  }

  ghost predicate BytesDiffer(at: Placement, w: Writer, u: Writer, c: Copy, x: int)
    requires at.Lawful() && Sound(at, w) && Sound(at, u)
  {
    Stores(at, c, w, x) && Stores(at, c, u, x) && w.data[x - w.offset] != u.data[x - u.offset]
  }

  lemma AllFinishedIsComplete(at: Placement, base: RaidState, ws: seq<Writer>, schedule: seq<nat>)
    requires WellFormed(at, base.img) && AllFinished(Exec(at, System(base, ws), schedule))
    ensures Complete(at, base, ws, schedule)
  {
  }

  /** Storages that hold what incompatible writers leave differ. */
  lemma CannotHoldBoth(at: Placement, w: Writer, u: Writer, r: RaidState, s: RaidState)
    requires WellFormed(at, r.img) && WellFormed(at, s.img) && Sound(at, w) && Sound(at, u)
    requires HoldsLast(at, u, r) && HoldsLast(at, w, s)
    requires Clash(at, w, u)
    ensures r.img != s.img || r.index != s.index
  {
    hide BytesDiffer, HoldsLast, Final, Placement.Lawful;
    if c, x :| BytesDiffer(at, w, u, c, x) {
      ByteShowsWhoWasLast(at, w, u, r, s, c, x);
    } else {
      SizeShowsWhoWasLast(at, w, u, r, s);
    }
  }

  lemma ByteShowsWhoWasLast(at: Placement, w: Writer, u: Writer, r: RaidState, s: RaidState, c: Copy, x: int)
    requires WellFormed(at, r.img) && WellFormed(at, s.img) && Sound(at, w) && Sound(at, u)
    requires HoldsLast(at, u, r) && HoldsLast(at, w, s) && BytesDiffer(at, w, u, c, x)
    ensures r.img != s.img
  {
    assert 0 <= x;
    hide View, Stores, Final, Placement.Lawful;
    assert View(at, r.img, c)[x] == u.data[x - u.offset] && View(at, s.img, c)[x] == w.data[x - w.offset];
  }

  lemma SizeShowsWhoWasLast(at: Placement, w: Writer, u: Writer, r: RaidState, s: RaidState)
    requires WellFormed(at, r.img) && WellFormed(at, s.img) && Sound(at, w) && Sound(at, u)
    requires HoldsLast(at, u, r) && HoldsLast(at, w, s)
    requires w.offset == u.offset && Succeeded(Final(at, w)) && Succeeded(Final(at, u)) && |w.data| != |u.data|
    ensures r.index != s.index
  {
    hide View, Stores, Final, Placement.Lawful;
  }

  // ---- Writers without faults ----

  /** No two writers carry different bytes to one offset the minions hold. */
  ghost predicate SameBytes(at: Placement, ws: seq<Writer>) {
    forall i, j, x: nat | 0 <= i < |ws| && 0 <= j < |ws| && x < at.capacity
      && Covers(ws[i].offset, |ws[i].data|, x) && Covers(ws[j].offset, |ws[j].data|, x) ::
      ws[i].data[x - ws[i].offset] == ws[j].data[x - ws[j].offset]
  }

  ghost predicate FaultFree(ws: seq<Writer>) {
    forall i | 0 <= i < |ws| :: WritesDone(ws[i].faults)
  }

  lemma FaultFreeStores(at: Placement, w: Writer, c: Copy, x: nat)
    requires at.Lawful() && NotStarted(w) && WritesDone(w.faults)
    ensures Stores(at, c, w, x) <==> Covers(w.offset, |w.data|, x) && x < at.capacity
  {
    hide Placement.Lawful;
    var f := Final(at, w);
    assert f.faults.write(f.offset + f.pos, Primary) == Done && f.faults.write(f.offset + f.pos, Mirror) == Done;
  }

  /** Writers that carry the same bytes are compatible, whatever fails; without faults only those are. */
  lemma SameBytesAreCompatible(at: Placement, ws: seq<Writer>)
    requires at.Lawful() && Fresh(ws)
    ensures SameBytes(at, ws) ==> Compatible(at, ws)
    ensures FaultFree(ws) ==> (SameBytes(at, ws) <==> Compatible(at, ws))
  {
    if SameBytes(at, ws) {
      forall c, i, j, x | 0 <= i < |ws| && 0 <= j < |ws| && Stores(at, c, ws[i], x) && Stores(at, c, ws[j], x)
        ensures ws[i].data[x - ws[i].offset] == ws[j].data[x - ws[j].offset]
      {
        assert Covers(ws[i].offset, |ws[i].data|, x) && Covers(ws[j].offset, |ws[j].data|, x);
      }
    }
    if FaultFree(ws) && Compatible(at, ws) {
      forall i, j, x: nat | 0 <= i < |ws| && 0 <= j < |ws| && x < at.capacity
        && Covers(ws[i].offset, |ws[i].data|, x) && Covers(ws[j].offset, |ws[j].data|, x)
        ensures ws[i].data[x - ws[i].offset] == ws[j].data[x - ws[j].offset]
      {
        FaultFreeStores(at, ws[i], Primary, x);
        FaultFreeStores(at, ws[j], Primary, x);
      }
    }
  }

  predicate Fits(at: Placement, w: Writer) {
    w.data == [] || w.offset + |w.data| <= at.capacity
  }

  /** Writers in range of one offset carry the same number of bytes. */
  ghost predicate SameSizes(at: Placement, ws: seq<Writer>) {
    forall i, j | 0 <= i < |ws| && 0 <= j < |ws| && ws[i].offset == ws[j].offset
      && Fits(at, ws[i]) && Fits(at, ws[j]) ::
      |ws[i].data| == |ws[j].data|
  }

  lemma FaultFreeSucceeds(at: Placement, w: Writer)
    requires at.Lawful() && NotStarted(w) && WritesDone(w.faults)
    ensures Succeeded(Final(at, w)) <==> Fits(at, w)
  {
    hide Placement.Lawful;
    var f := Final(at, w);
    assert f.faults.write(f.offset + f.pos, Primary) == Done && f.faults.write(f.offset + f.pos, Mirror) == Done;
  }

  /** Without faults the agreement of the sizes is a matter of offsets and lengths. */
  lemma FaultFreeSizesAgree(at: Placement, ws: seq<Writer>)
    requires at.Lawful() && Fresh(ws) && FaultFree(ws)
    ensures SizesAgree(at, ws) <==> SameSizes(at, ws)
  {
    forall i | 0 <= i < |ws|
      ensures Succeeded(Final(at, ws[i])) <==> Fits(at, ws[i])
    {
      FaultFreeSucceeds(at, ws[i]);
    }
    hide Final, Placement.Lawful, Fits;
  }

  /** Non-empty Writes of disjoint ranges are compatible. */
  lemma DisjointWritesAreCompatible(at: Placement, ws: seq<Writer>)
    requires at.Lawful() && Fresh(ws) && forall i | 0 <= i < |ws| :: ws[i].data != []
    requires forall i, j | 0 <= i < |ws| && 0 <= j < |ws| && i != j ::
               ws[i].offset + |ws[i].data| <= ws[j].offset || ws[j].offset + |ws[j].data| <= ws[i].offset
    ensures Compatible(at, ws) && SizesAgree(at, ws)
  {
  }

  /** A writer in front of the chunk that holds x can be run to between its two calls for it. */
  lemma {:induction false} RunIntoChunk(at: Placement, s: System, i: nat, x: nat)
    returns (schedule: seq<nat>, w1: Writer)
    requires WellFormed(at, s.raid.img) && i < |s.writers|
    requires var w := s.writers[i];
             && Sound(at, w) && AtChunk(w) && WritesDone(w.faults)
             && w.offset + w.pos <= x < at.capacity && x < w.offset + |w.data|
    ensures var w := s.writers[i];
            && Moved(at, s, i, w, w1, Exec(at, s, schedule))
            && w1.offset == w.offset && w1.data == w.data && Sound(at, w1) && Final(at, w1) == Final(at, w)
            && w1.phase == ToMirror && w1.offset + Reach(at, Mirror, w1) <= x < w1.offset + Reach(at, Primary, w1)
    decreases |s.writers[i].data| - s.writers[i].pos
  {
    var w := s.writers[i];
    var o := w.offset + w.pos;
    FirstOfTwo(at, w);
    hide Act, Next, View, Sound, WellFormed, Moved, Final, Placement.Lawful;
    var s1 := Step(at, s, i);
    StepMoves(at, s, i);
    MovedWriters(at, s, i, w, Next(at, w), s1);
    ExecOne(at, s, i);
    w1 := Next(at, w);
    if x < o + w.Chunk(at) {
      schedule := [i];
    } else {
      var s2, w2 := Step(at, s1, i), Next(at, w1);
      StepMoves(at, s1, i);
      MovedWriters(at, s1, i, w1, w2, s2);
      MovedTwice(at, s, i, w, w1, w2, s1, s2);
      ExecOne(at, s1, i);
      ExecConcat(at, s, [i], [i]);
      var rest, w3 := RunIntoChunk(at, s2, i, x);
      ExecConcat(at, s, [i] + [i], rest);
      schedule := [i] + [i] + rest;
      MovedTwice(at, s, i, w, w2, w3, s2, Exec(at, s, schedule));
      w1 := w3;
    }
  }

  /** The two calls of an in-range chunk without faults. */
  lemma FirstOfTwo(at: Placement, w: Writer)
    requires at.Lawful() && Sound(at, w) && AtChunk(w) && WritesDone(w.faults)
    requires w.pos < |w.data| && w.offset + w.pos < at.capacity
    ensures var n, w1 := w.Chunk(at), Next(at, w);
            var w2 := Next(at, w1);
            && 0 < n && w.offset + w.pos + n <= at.capacity
            && w1 == w.(phase := ToMirror) && w2 == w.(pos := w.pos + n)
            && Sound(at, w1) && Sound(at, w2)
            && Final(at, w) == Final(at, w1) == Final(at, w2)
            && Reach(at, Primary, w1) == w.pos + n && Reach(at, Mirror, w1) == w.pos
  {
    TwoCalls(at, w);
    hide Placement.Lawful, Next, Sound;
    NextKeepsSound(at, w);
    NextKeepsSound(at, Next(at, w));
    NextSameFinal(at, w);
    NextSameFinal(at, Next(at, w));
  }

  lemma NextSameFinal(at: Placement, w: Writer)
    requires at.Lawful() && Sound(at, w) && !w.phase.Finished?
    ensures Sound(at, Next(at, w)) && Final(at, w) == Final(at, Next(at, w))
  {
    NextKeepsSound(at, w);
    hide Next, Placement.Lawful, Sound;
  }

  lemma TwoCalls(at: Placement, w: Writer)
    requires at.Lawful() && Sound(at, w) && AtChunk(w) && WritesDone(w.faults)
    requires w.pos < |w.data| && w.offset + w.pos < at.capacity
    ensures var n, w1 := w.Chunk(at), Next(at, w);
            && 0 < n && w.offset + w.pos + n <= at.capacity
            && w1 == w.(phase := ToMirror) && Next(at, w1) == w.(pos := w.pos + n)
  {
    var o := w.offset + w.pos;
    assert at.OffsetLaw(o);
    ChunkFitsWhole(at, o, w.Chunk(at));
    assert w.faults.write(o, Primary) == Done && w.faults.write(o, Mirror) == Done;
    hide Placement.Lawful;
  }

  lemma ThreeUpdates(ws: seq<Writer>, i: nat, j: nat, w: Writer, u: Writer, w1: Writer,
                     ws1: seq<Writer>, ws2: seq<Writer>, ws3: seq<Writer>)
    requires i < |ws| && j < |ws| && i != j
    requires ws1 == ws[i := w] && ws2 == ws1[j := u] && ws3 == ws2[i := w1]
    ensures |ws3| == |ws| && ws3[i] == w1 && ws3[j] == u
    ensures forall k | 0 <= k < |ws| && k != i && k != j :: ws3[k] == ws[k]
  {
  }

  /** Writer i runs up to between its two calls for the chunk of x, then all of writer j, then the
      rest of writer i. */
  lemma Overtake(at: Placement, s: System, i: nat, j: nat, a: Writer, b: Writer, x: nat)
    returns (schedule: seq<nat>, r: System)
    requires WellFormed(at, s.raid.img) && i < |s.writers| && j < |s.writers| && i != j && x < at.capacity
    requires a == s.writers[i] && b == s.writers[j] && NotStarted(a) && NotStarted(b) && WritesDone(a.faults)
    requires Stores(at, Mirror, a, x) && Stores(at, Primary, b, x)
    ensures r == Exec(at, s, schedule) && WellFormed(at, r.raid.img)
    ensures |r.writers| == |s.writers| && r.writers[i] == Final(at, a) && r.writers[j] == Final(at, b)
    ensures forall k | 0 <= k < |s.writers| && k != i && k != j :: r.writers[k] == s.writers[k]
    ensures View(at, r.raid.img, Primary)[x] == b.data[x - b.offset]
    ensures View(at, r.raid.img, Mirror)[x] == a.data[x - a.offset]
  {
    assert at.Lawful() && Sound(at, a) && Sound(at, b);
    assert a.offset <= x < a.offset + |a.data|;
    hide *;
    var first, w1 := RunIntoChunk(at, s, i, x);
    var s1 := Exec(at, s, first);
    MovedWriters(at, s, i, a, w1, s1);
    var second, s2 := RunOut(at, s1, j);
    assert s2.writers[i] == w1;
    var third, s3 := RunOut(at, s2, i);
    ExecConcat(at, s, first, second);
    ExecConcat(at, s, first + second, third);
    schedule, r := first + second + third, s3;
    ThreeUpdates(s.writers, i, j, w1, Final(at, b), Final(at, a), s1.writers, s2.writers, s3.writers);
    StoresUpTo(at, Primary, b, x);
    StoresUpTo(at, Mirror, a, x);
    ReachesNothing(at, Primary, b);
    OvertakenByte(at, s1, s2, s3, i, j, a, w1, Final(at, a), b, Final(at, b), x);
  }

  lemma RunOut(at: Placement, s: System, i: nat) returns (schedule: seq<nat>, r: System)
    requires WellFormed(at, s.raid.img) && i < |s.writers| && Sound(at, s.writers[i])
    ensures r == Exec(at, s, schedule) && r.writers == s.writers[i := Final(at, s.writers[i])]
    ensures Moved(at, s, i, s.writers[i], Final(at, s.writers[i]), r)
  {
    schedule := RunToEnd(at, s, i);
    r := Exec(at, s, schedule);
  }

  lemma StoresUpTo(at: Placement, c: Copy, w: Writer, x: nat)
    requires at.Lawful() && Sound(at, w)
    ensures Stores(at, c, w, x) <==> w.offset <= x < w.offset + Reach(at, c, Final(at, w))
  {
  }

  lemma ReachesNothing(at: Placement, c: Copy, w: Writer)
    requires NotStarted(w)
    ensures Reach(at, c, w) == 0
  {
  }

  /** The byte x, after b has gone to fb, and then w1 to fa, which had passed x on the primary only. */
  lemma OvertakenByte(at: Placement, s1: System, s2: System, s3: System, i: nat, j: nat,
                      a: Writer, w1: Writer, fa: Writer, b: Writer, fb: Writer, x: nat)
    requires WellFormed(at, s1.raid.img) && Moved(at, s1, j, b, fb, s2)
    requires WellFormed(at, s2.raid.img) && Moved(at, s2, i, w1, fa, s3)
    requires x < at.capacity && b.offset + Reach(at, Primary, b) <= x < b.offset + Reach(at, Primary, fb)
    requires w1.offset + Reach(at, Mirror, w1) <= x < w1.offset + Reach(at, Mirror, fa)
    requires x < w1.offset + Reach(at, Primary, w1) && w1.offset == a.offset && w1.data == a.data
    ensures WellFormed(at, s3.raid.img)
    ensures x < b.offset + |b.data| && View(at, s3.raid.img, Primary)[x] == b.data[x - b.offset]
    ensures x < a.offset + |a.data| && View(at, s3.raid.img, Mirror)[x] == a.data[x - a.offset]
  {
    hide *;
    MovedReach(at, s1, j, b, fb, s2, Primary);
    MovedReach(at, s2, i, w1, fa, s3, Primary);
    MovedReach(at, s2, i, w1, fa, s3, Mirror);
    MovedByte(at, s1, j, b, fb, s2, Primary, x);
    MovedByte(at, s2, i, w1, fa, s3, Primary, x);
    MovedByte(at, s2, i, w1, fa, s3, Mirror, x);
  }

  lemma RunAllBut(at: Placement, base: RaidState, ws: seq<Writer>, i: nat, j: nat)
    returns (schedule: seq<nat>, s: System)
    requires WellFormed(at, base.img) && Fresh(ws) && i < |ws| && j < |ws|
    ensures s == Exec(at, System(base, ws), schedule) && |s.writers| == |ws|
    ensures s.writers[i] == ws[i] && s.writers[j] == ws[j]
    ensures forall k: nat | k < |ws| && k != i && k != j :: s.writers[k] == Final(at, ws[k])
  {
    schedule, s := RunSet(at, System(base, ws), ws, AllBut(|ws|, {i, j}), |ws|);
  }

  lemma NowAllFinished(at: Placement, ws: seq<Writer>, s: System, i: nat, j: nat, r: System)
    requires at.Lawful() && Fresh(ws) && |s.writers| == |ws| == |r.writers| && i < |ws| && j < |ws|
    requires forall k: nat | k < |ws| && k != i && k != j :: s.writers[k] == Final(at, ws[k])
    requires forall k | 0 <= k < |ws| && k != i && k != j :: r.writers[k] == s.writers[k]
    requires r.writers[i] == Final(at, ws[i]) && r.writers[j] == Final(at, ws[j])
    ensures AllFinished(r)
  {
    hide Final, Placement.Lawful;
  }

  /** Where two writers carry different bytes to an offset the minions hold, some interleaving leaves
      one's byte on the primary and the other's on the mirror. */
  lemma OverlappingWritesDiverge(at: Placement, base: RaidState, ws: seq<Writer>, i: nat, j: nat, x: nat)
    returns (schedule: seq<nat>)
    requires WellFormed(at, base.img) && Fresh(ws) && FaultFree(ws) && i < |ws| && j < |ws| && i != j
    requires x < at.capacity && Covers(ws[i].offset, |ws[i].data|, x) && Covers(ws[j].offset, |ws[j].data|, x)
    ensures Complete(at, base, ws, schedule)
    ensures var img := Exec(at, System(base, ws), schedule).raid.img;
            && View(at, img, Primary)[x] == ws[j].data[x - ws[j].offset]
            && View(at, img, Mirror)[x] == ws[i].data[x - ws[i].offset]
  {
    hide *;
    FreshIsSound(at, base.img, ws, i);
    FreshIsSound(at, base.img, ws, j);
    BothStore(at, ws, i, j, x);
    var others, s := RunAllBut(at, base, ws, i, j);
    var more, r := Overtake(at, s, i, j, ws[i], ws[j], x);
    NowAllFinished(at, ws, s, i, j, r);
    ExecConcat(at, System(base, ws), others, more);
    schedule := others + more;
    AllFinishedIsComplete(at, base, ws, schedule);
  }

  lemma BothStore(at: Placement, ws: seq<Writer>, i: nat, j: nat, x: nat)
    requires at.Lawful() && Fresh(ws) && FaultFree(ws) && i < |ws| && j < |ws|
    requires x < at.capacity && Covers(ws[i].offset, |ws[i].data|, x) && Covers(ws[j].offset, |ws[j].data|, x)
    ensures Sound(at, ws[i]) && Stores(at, Mirror, ws[i], x) && WritesDone(ws[i].faults)
    ensures Sound(at, ws[j]) && Stores(at, Primary, ws[j], x)
  {
    hide Placement.Lawful, Stores;
    FaultFreeStores(at, ws[i], Mirror, x);
    FaultFreeStores(at, ws[j], Primary, x);
  }

  lemma MovedReach(at: Placement, s: System, i: nat, w: Writer, w1: Writer, r: System, c: Copy)
    requires WellFormed(at, s.raid.img) && Moved(at, s, i, w, w1, r)
    ensures Reach(at, c, w) <= Reach(at, c, w1) <= |w.data| && WellFormed(at, r.raid.img)
  {
    hide View, Reach, Overlay, Gain;
  }

  lemma MovedByte(at: Placement, s: System, i: nat, w: Writer, w1: Writer, r: System, c: Copy, x: nat)
    requires WellFormed(at, s.raid.img) && Moved(at, s, i, w, w1, r) && x < at.capacity
    ensures WellFormed(at, r.raid.img)
    ensures View(at, r.raid.img, c)[x] ==
            if w.offset + Reach(at, c, w) <= x < w.offset + Reach(at, c, w1) then w.data[x - w.offset]
            else View(at, s.raid.img, c)[x]
  {
    hide *;
    MovedReach(at, s, i, w, w1, r, c);
    MovedView(at, s, i, w, w1, r, c);
    GainedByte(at, View(at, s.raid.img, c), c, w, w1, x);
  }

  /** The copies stay equal: from equal copies and without faults, every complete interleaving leaves
      primary and mirror equal if and only if no two writers carry different bytes to one offset. */
  lemma CopiesAgreeIff(at: Placement, base: RaidState, ws: seq<Writer>)
    requires WellFormed(at, base.img) && Mirrored(at, base.img) && Fresh(ws) && FaultFree(ws)
    ensures (forall a: seq<nat> | Complete(at, base, ws, a) :: Mirrored(at, Exec(at, System(base, ws), a).raid.img))
            <==> SameBytes(at, ws)
  {
    SameBytesAreCompatible(at, ws);
    if SameBytes(at, ws) {
      forall a: seq<nat> | Complete(at, base, ws, a)
        ensures Mirrored(at, Exec(at, System(base, ws), a).raid.img)
      {
        CompatibleCopiesAgree(at, base, ws, a);
      }
    } else {
      var i, j, x: nat :| 0 <= i < |ws| && 0 <= j < |ws| && x < at.capacity
        && Covers(ws[i].offset, |ws[i].data|, x) && Covers(ws[j].offset, |ws[j].data|, x)
        && ws[i].data[x - ws[i].offset] != ws[j].data[x - ws[j].offset];
      var a := OverlappingWritesDiverge(at, base, ws, i, j, x);
      assert !Mirrored(at, Exec(at, System(base, ws), a).raid.img);
    }
  }

  lemma CompatibleCopiesAgree(at: Placement, base: RaidState, ws: seq<Writer>, a: seq<nat>)
    requires WellFormed(at, base.img) && Mirrored(at, base.img) && Fresh(ws) && FaultFree(ws)
    requires Compatible(at, ws) && Complete(at, base, ws, a)
    ensures Mirrored(at, Exec(at, System(base, ws), a).raid.img)
  {
    hide View, Compatible, Shows, Placement.Lawful;
    ExecKeepsInv(at, base, ws, a);
    var s := Exec(at, System(base, ws), a);
    forall i | 0 <= i < |ws|
      ensures Reach(at, Primary, s.writers[i]) == Reach(at, Mirror, s.writers[i])
    {
      assert OnPath(at, ws[i], s.writers[i]);
      FinishedReaches(at, s.writers[i]);
    }
    assert Reaches(at, Primary, s.writers) == Reaches(at, Mirror, s.writers);
    ShowsUnique(View(at, base.img, Primary), View(at, s.raid.img, Primary), View(at, s.raid.img, Mirror), ws,
                Reaches(at, Primary, s.writers));
  }

  lemma FinishedReaches(at: Placement, w: Writer)
    requires at.Lawful() && Sound(at, w) && w.phase.Finished? && WritesDone(w.faults)
    ensures Reach(at, Primary, w) == w.pos == Reach(at, Mirror, w)
  {
    var o := w.offset + w.pos;
    assert w.faults.write(o, Primary) == Done && w.faults.write(o, Mirror) == Done;
    hide Placement.Lawful;
  }

  // ---- No interleaving gets stuck ----

  function Unfinished(ws: seq<Writer>): nat {
    if ws == [] then 0 else StepsLeft(ws[0]) + Unfinished(ws[1..])
  }

  lemma {:induction false} UnfinishedDrops(ws: seq<Writer>, i: nat, w: Writer)
    requires i < |ws| && StepsLeft(w) < StepsLeft(ws[i])
    ensures Unfinished(ws[i := w]) < Unfinished(ws)
  {
    if i > 0 {
      UnfinishedDrops(ws[1..], i - 1, w);
      assert ws[i := w][1..] == ws[1..][i - 1 := w];
    } else {
      assert ws[i := w][1..] == ws[1..];
    }
  }

  ghost predicate AllSound(at: Placement, s: System)
    requires at.Lawful()
  {
    forall i | 0 <= i < |s.writers| :: Sound(at, s.writers[i])
  }

  lemma StepKeepsSound(at: Placement, s: System, i: nat)
    requires WellFormed(at, s.raid.img) && AllSound(at, s)
    ensures AllSound(at, Step(at, s, i))
  {
    if i < |s.writers| {
      ActIsNext(at, s.raid, s.writers[i]);
      NextKeepsSound(at, s.writers[i]);
      hide Act, Next, Sound, Placement.Lawful;
    }
  }

  lemma {:induction false} ExecKeepsSound(at: Placement, s: System, schedule: seq<nat>)
    requires WellFormed(at, s.raid.img) && AllSound(at, s)
    ensures AllSound(at, Exec(at, s, schedule))
  {
    hide AllSound, Step, Placement.Lawful;
    if schedule != [] {
      ExecKeepsSound(at, s, schedule[..|schedule| - 1]);
      StepKeepsSound(at, Exec(at, s, schedule[..|schedule| - 1]), schedule[|schedule| - 1]);
    }
  }

  lemma StepLowersUnfinished(at: Placement, base: RaidState, ws: seq<Writer>, schedule: seq<nat>, i: nat)
    requires WellFormed(at, base.img) && Fresh(ws)
    requires var us := Exec(at, System(base, ws), schedule).writers; i < |us| && !us[i].phase.Finished?
    ensures Unfinished(Exec(at, System(base, ws), schedule + [i]).writers) <
            Unfinished(Exec(at, System(base, ws), schedule).writers)
  {
    assert at.Lawful();
    hide WellFormed, Placement.Lawful, Act, Next, Exec, Unfinished;
    var s := Exec(at, System(base, ws), schedule);
    ExecKeepsSound(at, System(base, ws), schedule);
    ExecOne(at, s, i);
    ExecConcat(at, System(base, ws), schedule, [i]);
    ActIsNext(at, s.raid, s.writers[i]);
    NextKeepsSound(at, s.writers[i]);
    UnfinishedDrops(s.writers, i, Next(at, s.writers[i]));
    assert Step(at, s, i).writers == s.writers[i := Next(at, s.writers[i])];
  }

  /** Every schedule of any writers under any faults can be continued to a complete one. */
  lemma {:induction false} CanComplete(at: Placement, base: RaidState, ws: seq<Writer>, schedule: seq<nat>)
    returns (more: seq<nat>)
    requires WellFormed(at, base.img) && Fresh(ws)
    ensures Complete(at, base, ws, schedule + more)
    decreases Unfinished(Exec(at, System(base, ws), schedule).writers)
  {
    assert at.Lawful();
    hide WellFormed, Placement.Lawful, Act, Next, Exec, Sound, Unfinished, Fresh;
    var s := Exec(at, System(base, ws), schedule);
    if i: nat :| i < |s.writers| && !s.writers[i].phase.Finished? {
      StepLowersUnfinished(at, base, ws, schedule, i);
      hide Complete, Step;
      var rest := CanComplete(at, base, ws, schedule + [i]);
      more := [i] + rest;
      assert schedule + more == schedule + [i] + rest;
    } else {
      more := [];
      assert schedule + more == schedule;
    }
  }
}
