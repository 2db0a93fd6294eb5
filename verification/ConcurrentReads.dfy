// A Read among Writes in flight: what bytes it can return, and when a later Read can return older ones.
module ConcurrentReads {
  import opened Bytes
  import opened ConcurrentWrites
  import opened Minions
  import opened Placements
  import opened RaidRuns
  import opened RaidSpec

  /** The next thing a Read in flight does with the chunk at |got|. */
  datatype ReadPhase = FromPrimary | FromMirror | Returned(ok: bool)

  datatype Reader = Reader(offset: nat, len: nat, bad: (nat, Copy) -> bool, got: seq<byte>, phase: ReadPhase)

  function Start(offset: nat, len: nat, bad: (nat, Copy) -> bool): Reader {
    Reader(offset, len, bad, [], FromPrimary)
  }

  /** One minion call of a reader: the primary, and if that throws, in a later step, the mirror. */
  function ReadAct(at: Placement, img: Image, r: Reader): Reader
    requires WellFormed(at, img)
  {
    if r.phase.Returned? || |r.got| > r.len then r
    else if |r.got| == r.len then r.(phase := Returned(true))
    else
      var o := r.offset + |r.got|;
      var n := at.ChunkLength(o, r.len - |r.got|);
      var c := if r.phase.FromPrimary? then Primary else Mirror;
      var call := MinionRead(img[MinionOf(at, c, o)], at.local(o), n, r.bad(o, c));
      if call.Ok? then r.(got := r.got + call.value, phase := FromPrimary)
      else if r.phase.FromPrimary? then r.(phase := FromMirror)
      else r.(phase := Returned(false))
  }

  /** A step of a writer, or of the reader. */
  datatype Turn = Writing(i: nat) | Reading

  function Interleave(at: Placement, s: System, r: Reader, turns: seq<Turn>): (e: (System, Reader))
    requires WellFormed(at, s.raid.img)
    ensures WellFormed(at, e.0.raid.img) && |e.0.writers| == |s.writers|
  {
    if turns == [] then (s, r)
    else
      var (before, reader) := Interleave(at, s, r, turns[..|turns| - 1]);
      match turns[|turns| - 1]
      case Writing(i) => (Step(at, before, i), reader)
      case Reading => (before, ReadAct(at, before.raid.img, reader))
  }

  // ---- Run alone, a reader is RAIDStorage::Read ----

  function ReadRepeatedly(at: Placement, img: Image, r: Reader, steps: nat): Reader
    requires WellFormed(at, img)
    decreases steps
  {
    if steps == 0 then r else ReadRepeatedly(at, img, ReadAct(at, img, r), steps - 1)
  }

  /** The chunk in front of a reader, read in one or two steps. */
  lemma SoloReadChunk(at: Placement, img: Image, r: Reader)
    requires WellFormed(at, img) && r.phase.FromPrimary? && |r.got| < r.len
    ensures var o := r.offset + |r.got|;
            var n := at.ChunkLength(o, r.len - |r.got|);
            var chunk := ReadChunk(at, img, o, n, r.bad);
            var r1 := ReadAct(at, img, r);
            && 0 < n
            && if chunk.Threw? then r1.phase.FromMirror? && ReadAct(at, img, r1) == r.(phase := Returned(false))
               else
                 || r1 == r.(got := r.got + chunk.value)
                 || (r1.phase.FromMirror? && ReadAct(at, img, r1) == r.(got := r.got + chunk.value))
  {
    assert at.OffsetLaw(r.offset + |r.got|);
    hide Placement.Lawful, MinionRead;
  }

  /** So the steps of a reader with no other in between return what RAIDStorage::Read copies out. */
  lemma {:induction false} SoloIsRead(at: Placement, img: Image, r: Reader) returns (steps: nat)
    requires WellFormed(at, img) && r.phase.FromPrimary? && |r.got| <= r.len
    ensures var (rest, ok) := ReadChunks(at, img, r.offset + |r.got|, r.len - |r.got|, r.bad);
            ReadRepeatedly(at, img, r, steps) == r.(got := r.got + rest, phase := Returned(ok))
    decreases r.len - |r.got|
  {
    hide MinionRead, ReadChunk, ReadChunks, Placement.Lawful, WellFormed, MinionOf;
    if |r.got| == r.len {
      steps := 1;
      ReadNothing(at, img, r.offset + |r.got|, r.bad);
      assert r.got + [] == r.got;
      assert ReadRepeatedly(at, img, r, 1) == ReadRepeatedly(at, img, ReadAct(at, img, r), 0);
    } else {
      var o, left := r.offset + |r.got|, r.len - |r.got|;
      var chunk := ReadChunk(at, img, o, at.ChunkLength(o, left), r.bad);
      SoloReadChunk(at, img, r);
      ReadTurn(at, img, o, left, r.bad, chunk);
      var r1 := ReadAct(at, img, r);
      var r2 := ReadAct(at, img, r1);
      hide ReadAct;
      if chunk.Threw? {
        steps := 2;
        assert r.got + [] == r.got;
        TwoSteps(at, img, r, 0);
      } else {
        var next := r.(got := r.got + chunk.value);
        var more := SoloIsRead(at, img, next);
        var rest := ReadChunks(at, img, o + |chunk.value|, left - |chunk.value|, r.bad).0;
        assert (r.got + chunk.value) + rest == r.got + (chunk.value + rest);
        if r1 == next {
          steps := 1 + more;
        } else {
          steps := 2 + more;
          TwoSteps(at, img, r, more);
        }
      }
    }
  }

  lemma TwoSteps(at: Placement, img: Image, r: Reader, more: nat)
    requires WellFormed(at, img)
    ensures ReadRepeatedly(at, img, r, 2 + more) == ReadRepeatedly(at, img, ReadAct(at, img, ReadAct(at, img, r)), more)
  {
    hide ReadAct, WellFormed;
    assert ReadRepeatedly(at, img, r, 2 + more) == ReadRepeatedly(at, img, ReadAct(at, img, r), 1 + more);
  }

  // ---- What a Read among Writes returns ----

  /** b is what one copy held at x in the beginning, or what a writer that covers x carries. */
  ghost predicate Candidate(at: Placement, base: RaidState, ws: seq<Writer>, x: nat, b: byte)
    requires WellFormed(at, base.img) && x < at.capacity
  {
    || (exists c :: View(at, base.img, c)[x] == b)
    || exists i :: 0 <= i < |ws| && Covers(ws[i].offset, |ws[i].data|, x) && ws[i].data[x - ws[i].offset] == b
  }

  /** Each copy of each byte holds a candidate, and the writers carry what they did. */
  ghost predicate Carried(at: Placement, base: RaidState, ws: seq<Writer>, s: System) {
    && WellFormed(at, base.img) && WellFormed(at, s.raid.img) && |s.writers| == |ws|
    && (forall i | 0 <= i < |ws| ::
          Sound(at, s.writers[i]) && s.writers[i].offset == ws[i].offset && s.writers[i].data == ws[i].data)
    && (forall c, x: nat | x < at.capacity :: Candidate(at, base, ws, x, View(at, s.raid.img, c)[x]))
  }

  lemma StartCarried(at: Placement, base: RaidState, ws: seq<Writer>)
    requires WellFormed(at, base.img) && Fresh(ws)
    ensures Carried(at, base, ws, System(base, ws))
  {
    hide View, Placement.Lawful;
  }

  /** Whatever the writers, any step keeps that: they need not be compatible. */
  lemma StepCarries(at: Placement, base: RaidState, ws: seq<Writer>, s: System, i: nat)
    requires Carried(at, base, ws, s)
    ensures Carried(at, base, ws, Step(at, s, i))
  {
    if i < |ws| {
      var w, r := s.writers[i], Step(at, s, i);
      StepEffects(at, s.raid, w);
      var w1 := Next(at, w);
      NextCarries(at, w);
      hide View, Reach, Gain, Overlay, Act, Next, Sound, Placement.Lawful;
      forall c, x: nat | x < at.capacity
        ensures Candidate(at, base, ws, x, View(at, r.raid.img, c)[x])
      {
        assert Candidate(at, base, ws, x, View(at, s.raid.img, c)[x]);
        GainCarries(at, base, ws, i, View(at, s.raid.img, c), c, w, w1, x);
      }
      hide Candidate;
      assert r.writers == s.writers[i := w1];
    }
  }

  lemma GainCarries(at: Placement, base: RaidState, ws: seq<Writer>, i: nat, view: seq<byte>,
                    c: Copy, w: Writer, w1: Writer, x: nat)
    requires WellFormed(at, base.img) && i < |ws| && w.offset == ws[i].offset && w.data == ws[i].data
    requires Reach(at, c, w) <= Reach(at, c, w1) <= |w.data| && x < at.capacity == |view|
    requires Candidate(at, base, ws, x, view[x])
    ensures Candidate(at, base, ws, x, Overlay(view, w.offset + Reach(at, c, w), Gain(at, c, w, w1))[x])
  {
    hide View, Reach, Gain, Overlay, WellFormed, Placement.Lawful;
    GainedByte(at, view, c, w, w1, x);
    if w.offset + Reach(at, c, w) <= x < w.offset + Reach(at, c, w1) {
      assert Covers(ws[i].offset, |ws[i].data|, x);
    }
  }

  lemma NextCarries(at: Placement, w: Writer)
    requires at.Lawful() && Sound(at, w)
    ensures Next(at, w).offset == w.offset && Next(at, w).data == w.data
  {
    hide Placement.Lawful;
  }

  /** What a reader has so far. */
  ghost predicate ReadsCandidates(at: Placement, base: RaidState, ws: seq<Writer>, r: Reader)
    requires WellFormed(at, base.img)
  {
    && |r.got| <= r.len && (r.got != [] ==> r.offset + |r.got| <= at.capacity)
    && (r.phase == Returned(true) ==> |r.got| == r.len)
    && forall k: nat | k < |r.got| :: r.offset + k < at.capacity && Candidate(at, base, ws, r.offset + k, r.got[k])
  }

  /** A step of a reader appends nothing, or a chunk of what one copy holds. */
  lemma ReadActGains(at: Placement, img: Image, r: Reader) returns (c: Copy, n: nat)
    requires WellFormed(at, img) && |r.got| <= r.len
    ensures var r1, o := ReadAct(at, img, r), r.offset + |r.got|;
            && |r.got| + n <= r.len && (n > 0 ==> o + n <= at.capacity)
            && r1.got == r.got + (if n > 0 then View(at, img, c)[o..o + n] else [])
            && (r1.phase == Returned(true) ==> r.phase == Returned(true) || |r.got| == r.len)
            && r1.offset == r.offset && r1.len == r.len
  {
    var o := r.offset + |r.got|;
    assert r.got + [] == r.got;
    c, n := Primary, 0;
    if !r.phase.Returned? && |r.got| < r.len {
      c := if r.phase.FromPrimary? then Primary else Mirror;
      var chunk := at.ChunkLength(o, r.len - |r.got|);
      assert at.OffsetLaw(o);
      ChunkFitsWhole(at, o, chunk);
      if o < at.capacity {
        ChunkBytes(at, img, o, chunk, c);
      }
      hide View, Placement.Lawful, WellFormed;
      if MinionRead(img[MinionOf(at, c, o)], at.local(o), chunk, r.bad(o, c)).Ok? {
        n := chunk;
      }
    }
  }

  lemma ReadStepCandidates(at: Placement, base: RaidState, ws: seq<Writer>, s: System, r: Reader)
    requires Carried(at, base, ws, s) && ReadsCandidates(at, base, ws, r)
    ensures ReadsCandidates(at, base, ws, ReadAct(at, s.raid.img, r))
  {
    hide View, Placement.Lawful, Candidate, ReadAct, Sound;
    var c, n := ReadActGains(at, s.raid.img, r);
    if n > 0 {
      GainsCandidates(at, base, ws, r, View(at, s.raid.img, c), n, ReadAct(at, s.raid.img, r));
    } else {
      assert r.got + [] == r.got;
    }
  }

  lemma GainsCandidates(at: Placement, base: RaidState, ws: seq<Writer>, r: Reader, view: seq<byte>, n: nat, r1: Reader)
    requires WellFormed(at, base.img) && |view| == at.capacity && ReadsCandidates(at, base, ws, r)
    requires forall x: nat | x < at.capacity :: Candidate(at, base, ws, x, view[x])
    requires var o := r.offset + |r.got|; o + n <= at.capacity && r1.got == r.got + view[o..o + n]
    requires |r.got| + n <= r.len && r1.len == r.len && r1.offset == r.offset
    requires r1.phase == Returned(true) ==> r.phase == Returned(true) || |r.got| == r.len
    ensures ReadsCandidates(at, base, ws, r1)
  {
    hide Candidate, WellFormed;
    var o := r.offset + |r.got|;
    forall k: nat | k < |r1.got|
      ensures r1.offset + k < at.capacity && Candidate(at, base, ws, r1.offset + k, r1.got[k])
    {
      if k >= |r.got| {
        assert r1.got[k] == view[o..o + n][k - |r.got|] == view[r.offset + k];
      }
    }
  }

  lemma {:induction false} InterleaveKeeps(at: Placement, base: RaidState, ws: seq<Writer>, r: Reader, turns: seq<Turn>)
    requires WellFormed(at, base.img) && Fresh(ws) && r.got == [] && r.phase == FromPrimary
    ensures var (s, reader) := Interleave(at, System(base, ws), r, turns);
            && Carried(at, base, ws, s) && ReadsCandidates(at, base, ws, reader)
            && reader.offset == r.offset && reader.len == r.len
  {
    hide Carried, Step, ReadAct;
    if turns == [] {
      StartCarried(at, base, ws);
    } else {
      hide ReadsCandidates, Fresh;
      var n := |turns| - 1;
      InterleaveKeeps(at, base, ws, r, turns[..n]);
      var (s, reader) := Interleave(at, System(base, ws), r, turns[..n]);
      match turns[n]
      case Writing(i) => StepCarries(at, base, ws, s, i);
      case Reading =>
        ReadStepCandidates(at, base, ws, s, reader);
        ReadActFrame(at, s.raid.img, reader);
    }
  }

  lemma ReadActFrame(at: Placement, img: Image, r: Reader)
    requires WellFormed(at, img)
    ensures ReadAct(at, img, r).offset == r.offset && ReadAct(at, img, r).len == r.len
  {
    hide WellFormed, MinionRead, Placement.Lawful;
  }

  /** A Read among any Writes, under any faults of either: a byte it returns is one a copy held in the
      beginning or one a Write that covers it carries; it succeeds only in range and in full. */
  lemma ReadAmongWrites(at: Placement, base: RaidState, ws: seq<Writer>, offset: nat, len: nat,
                        bad: (nat, Copy) -> bool, turns: seq<Turn>)
    requires WellFormed(at, base.img) && Fresh(ws)
    ensures var r := Interleave(at, System(base, ws), Start(offset, len, bad), turns).1;
            && (r.phase == Returned(true) ==> |r.got| == len && (len == 0 || offset + len <= at.capacity))
            && forall k: nat | k < |r.got| :: offset + k < at.capacity && Candidate(at, base, ws, offset + k, r.got[k])
  {
    InterleaveKeeps(at, base, ws, Start(offset, len, bad), turns);
  }

  // ---- New and then old ----

  /** Some writer has stored a new byte at x on the primary, and none has reached x on the mirror. */
  ghost predicate HalfWritten(at: Placement, base: RaidState, ws: seq<Writer>, us: seq<Writer>, x: nat)
    requires WellFormed(at, base.img) && x < at.capacity && |us| == |ws|
  {
    && (exists i :: 0 <= i < |ws| && i < |us| && HasStored(at, ws[i], us[i], Primary, x)
                    && ws[i].data[x - ws[i].offset] != View(at, base.img, Primary)[x])
    && forall j | 0 <= j < |ws| && j < |us| :: !HasStored(at, ws[j], us[j], Mirror, x)
  }

  predicate HasStored(at: Placement, w: Writer, u: Writer, c: Copy, x: nat) {
    Covers(w.offset, Reach(at, c, u), x) && x < w.offset + |w.data|
  }

  /** The mirror is never ahead of the primary. */
  lemma MirrorBehind(at: Placement, w: Writer)
    requires at.Lawful() && Sound(at, w)
    ensures Reach(at, Mirror, w) <= Reach(at, Primary, w) <= |w.data|
  {
    ReachInRange(at, Primary, w);
    var o := w.offset + w.pos;
    assert at.OffsetLaw(o);
    hide Placement.Lawful;
  }

  lemma StoredOnBoth(at: Placement, ws: seq<Writer>, us: seq<Writer>, i: nat, x: nat)
    requires at.Lawful() && i < |ws| && |us| == |ws| && OnPath(at, ws[i], us[i])
    ensures HasStored(at, ws[i], us[i], Mirror, x) ==> HasStored(at, ws[i], us[i], Primary, x)
    ensures forall c :: HasStored(at, ws[i], us[i], c, x) <==> Covers(ws[i].offset, Reach(at, c, us[i]), x)
  {
    MirrorBehind(at, us[i]);
    hide Reach, Placement.Lawful, Final, Next;
  }

  /** What a copy that shows the writers holds at x. */
  lemma ShownByte(at: Placement, base: seq<byte>, view: seq<byte>, ws: seq<Writer>, us: seq<Writer>, c: Copy, x: nat)
    requires |us| == |ws| && Shows(base, view, ws, Reaches(at, c, us)) && x < |view|
    requires forall i | 0 <= i < |ws| ::
               HasStored(at, ws[i], us[i], c, x) <==> Covers(ws[i].offset, Reach(at, c, us[i]), x)
    ensures forall i | 0 <= i < |ws| && HasStored(at, ws[i], us[i], c, x) :: view[x] == ws[i].data[x - ws[i].offset]
    ensures (forall i | 0 <= i < |ws| :: !HasStored(at, ws[i], us[i], c, x)) ==> view[x] == base[x]
  {
    hide Reach;
  }

  lemma CopiesDiffer(at: Placement, base: RaidState, ws: seq<Writer>, s: System, x: nat)
    requires Inv(at, base, ws, s) && Mirrored(at, base.img) && x < at.capacity
    ensures var p, m := View(at, s.raid.img, Primary)[x], View(at, s.raid.img, Mirror)[x];
            && (p != m <==> HalfWritten(at, base, ws, s.writers, x))
            && (p != m ==> m == View(at, base.img, Primary)[x])
  {
    var us := s.writers;
    forall i: nat | i < |ws|
      ensures HasStored(at, ws[i], us[i], Mirror, x) ==> HasStored(at, ws[i], us[i], Primary, x)
      ensures forall c :: HasStored(at, ws[i], us[i], c, x) <==> Covers(ws[i].offset, Reach(at, c, us[i]), x)
    {
      StoredOnBoth(at, ws, us, i, x);
    }
    forall c
      ensures Shows(View(at, base.img, c), View(at, s.raid.img, c), ws, Reaches(at, c, us))
    {
    }
    ShownByte(at, View(at, base.img, Primary), View(at, s.raid.img, Primary), ws, us, Primary, x);
    ShownByte(at, View(at, base.img, Mirror), View(at, s.raid.img, Mirror), ws, us, Mirror, x);
    hide View, HasStored, Shows, OnPath, Placement.Lawful, Reach, WellFormed;
    if j :| 0 <= j < |ws| && HasStored(at, ws[j], us[j], Mirror, x) {
      assert HasStored(at, ws[j], us[j], Primary, x);
    } else if i :| 0 <= i < |ws| && HasStored(at, ws[i], us[i], Primary, x) {
    } else {
    }
  }

  /** From equal copies, at any moment of any interleaving of compatible Writes, under any faults: a Read
      of x answered by the primary and then one answered by the mirror differ if and only if x is half
      written; the first returns the new byte, and the second the one from the beginning. */
  lemma NewThenOldIff(at: Placement, base: RaidState, ws: seq<Writer>, schedule: seq<nat>, x: nat,
                      up: (nat, Copy) -> bool, down: (nat, Copy) -> bool)
    requires WellFormed(at, base.img) && Mirrored(at, base.img) && Fresh(ws) && Compatible(at, ws) && x < at.capacity
    requires forall o: nat :: !up(o, Primary) && down(o, Primary) && !down(o, Mirror)
    ensures var s := Exec(at, System(base, ws), schedule);
            var first, second := ReadChunks(at, s.raid.img, x, 1, up), ReadChunks(at, s.raid.img, x, 1, down);
            && |s.writers| == |ws| && first.1 && second.1 && |first.0| == 1 == |second.0|
            && (first.0 != second.0 <==> HalfWritten(at, base, ws, s.writers, x))
            && (first.0 != second.0 ==> second.0[0] == View(at, base.img, Primary)[x])
  {
    var s := Exec(at, System(base, ws), schedule);
    ExecKeepsInv(at, base, ws, schedule);
    CopiesDiffer(at, base, ws, s, x);
    hide View, HalfWritten, Compatible, OnPath, Shows, Placement.Lawful;
    assert forall o: nat :: !up(o, Primary) && (Primary == Mirror ==> up(o, Primary));
    ReadUsesCopy(at, s.raid.img, x, 1, up, Primary);
    ReadUsesCopy(at, s.raid.img, x, 1, down, Mirror);
    OneByte(View(at, s.raid.img, Primary), x);
    OneByte(View(at, s.raid.img, Mirror), x);
  }

  lemma OneByte(data: seq<byte>, x: nat)
    requires x < |data|
    ensures FlatRead(data, x, 1) == ([data[x]], true)
  {
    assert data[x..x + 1] == [data[x]];
  }
}
