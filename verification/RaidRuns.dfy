// Whole runs of RAIDStorage: what survives faults, and that without write faults the storage is
// one flat array with an offset-to-size index.
module RaidRuns {
  import opened Bytes
  import opened Options
  import opened OrderedMaps
  import opened Placements
  import opened MetadataStores
  import opened Minions
  import opened RaidSpec

  /** The requests a storage serves; buffer is the request's m_buffer when Read is called. */
  datatype Op =
    | Read(offset: nat, len: nat, buffer: seq<byte>)
    | Write(offset: nat, data: seq<byte>)
    | GetSize(offset: nat)
    | List

  datatype Response =
    | Bytes(ok: bool, buffer: seq<byte>)
    | Status(ok: bool)
    | Size(size: nat)
    | Offsets(list: seq<(nat, nat)>)

  /** Minion contents, m_offset_sizes, and what the metadata store holds. */
  datatype RaidState = RaidState(img: Image, index: map<nat, nat>, saved: Snapshot)

  function SizeAt(index: map<nat, nat>, o: nat): nat {
    if o in index then index[o] else 0
  }

  /** The step of a Write, by what its loop makes of the minions. */
  lemma WriteStep(at: Placement, s: RaidState, o: nat, data: seq<byte>, f: Faults, img: Image, ok: bool)
    requires WellFormed(at, s.img) && (img, ok) == WriteChunks(at, s.img, o, data, f.write)
    ensures RaidStep(at, s, Write(o, data), f) ==
            if ok then
              (RaidState(img, s.index[o := |data|], Saved(s.saved, s.index[o := |data|], f.save)), Status(true))
            else (RaidState(img, s.index, s.saved), Status(false))
  {
  }

  function RaidStep(at: Placement, s: RaidState, op: Op, f: Faults): (r: (RaidState, Response))
    requires WellFormed(at, s.img)
    ensures WellFormed(at, r.0.img)
  {
    match op
    case Read(o, len, buffer) =>
      var (got, ok) := ReadChunks(at, s.img, o, len, f.read);
      (s, Bytes(ok, got + Resize(buffer, len)[|got|..]))
    case Write(o, data) =>
      var (img, ok) := WriteChunks(at, s.img, o, data, f.write);
      var index := s.index[o := |data|];
      if ok then (RaidState(img, index, Saved(s.saved, index, f.save)), Status(true))
      else (s.(img := img), Status(false))
    case GetSize(o) => (s, Size(SizeAt(s.index, o)))
    case List => (s, Offsets(Entries(s.index)))
  }

  datatype Call = Call(op: Op, faults: Faults)

  /** The state after a sequence of calls, and the response to each. */
  function Run(at: Placement, s: RaidState, calls: seq<Call>): (r: (RaidState, seq<Response>))
    requires WellFormed(at, s.img)
    ensures WellFormed(at, r.0.img) && |r.1| == |calls|
  {
    if calls == [] then (s, [])
    else
      var (before, rs) := Run(at, s, calls[..|calls| - 1]);
      var last := calls[|calls| - 1];
      var (after, r) := RaidStep(at, before, last.op, last.faults);
      (after, rs + [r])
  }

  // ---- Fault containment ----

  predicate WritesAt(op: Op, x: nat) {
    op.Write? && Covers(op.offset, |op.data|, x)
  }

  /** The byte a run last wrote successfully at x, or what was there at the start. */
  function LastWritten(calls: seq<Call>, rs: seq<Response>, x: nat, start: byte): byte
    requires |calls| == |rs|
  {
    if calls == [] then start
    else
      var n := |calls| - 1;
      if WritesAt(calls[n].op, x) && rs[n] == Status(true) then calls[n].op.data[x - calls[n].op.offset]
      else LastWritten(calls[..n], rs[..n], x, start)
  }

  /** No failed Write covered x since the last successful one that did. */
  predicate Settled(calls: seq<Call>, rs: seq<Response>, x: nat)
    requires |calls| == |rs|
  {
    calls == [] ||
    var n := |calls| - 1;
    if WritesAt(calls[n].op, x) then rs[n] == Status(true) else Settled(calls[..n], rs[..n], x)
  }

  /** The bytes x may hold: the last successfully written one, or one a later failed Write carried. */
  function Candidates(calls: seq<Call>, rs: seq<Response>, x: nat, start: byte): set<byte>
    requires |calls| == |rs|
  {
    if calls == [] then {start}
    else
      var n := |calls| - 1;
      var earlier := Candidates(calls[..n], rs[..n], x, start);
      if !WritesAt(calls[n].op, x) then earlier
      else
        var b := calls[n].op.data[x - calls[n].op.offset];
        if rs[n] == Status(true) then {b} else earlier + {b}
  }

  lemma {:induction false} SettledByte(calls: seq<Call>, rs: seq<Response>, x: nat, start: byte)
    requires |calls| == |rs|
    ensures LastWritten(calls, rs, x, start) in Candidates(calls, rs, x, start)
    ensures Settled(calls, rs, x) ==> Candidates(calls, rs, x, start) == {LastWritten(calls, rs, x, start)}
  {
    if calls != [] {
      SettledByte(calls[..|calls| - 1], rs[..|calls| - 1], x, start);
    }
  }

  ghost predicate Mirrored(at: Placement, img: Image)
    requires WellFormed(at, img)
  {
    View(at, img, Primary) == View(at, img, Mirror)
  }

  /** One call, under any faults: what it may do to the byte x of each copy, and which Writes succeed. */
  lemma StepEffect(at: Placement, s: RaidState, call: Call, x: nat)
    requires WellFormed(at, s.img)
    ensures var (r, response) := RaidStep(at, s, call.op, call.faults);
            && (call.op.Write? && call.op.data != [] && response == Status(true) ==>
                  call.op.offset + |call.op.data| <= at.capacity)
            && (x < at.capacity ==> forall c ::
                  var was, now := View(at, s.img, c)[x], View(at, r.img, c)[x];
                  if !WritesAt(call.op, x) then now == was
                  else now == call.op.data[x - call.op.offset] || (response != Status(true) && now == was))
  {
    if call.op.Write? {
      WriteContained(at, s.img, call.op.offset, call.op.data, call.faults.write, Primary);
      WriteContained(at, s.img, call.op.offset, call.op.data, call.faults.write, Mirror);
    }
  }

  /** With any calls failing, each copy of every byte holds a candidate. */
  lemma {:induction false} CopiesHoldCandidates(at: Placement, s: RaidState, calls: seq<Call>, c: Copy, x: nat)
    requires WellFormed(at, s.img) && Mirrored(at, s.img) && x < at.capacity
    ensures var (r, rs) := Run(at, s, calls);
            View(at, r.img, c)[x] in Candidates(calls, rs, x, View(at, s.img, Primary)[x])
  {
    hide RaidStep, View;
    if calls != [] {
      var n := |calls| - 1;
      var (before, earlier) := Run(at, s, calls[..n]);
      var (r, rs) := Run(at, s, calls);
      CopiesHoldCandidates(at, s, calls[..n], c, x);
      StepEffect(at, before, calls[n], x);
      assert rs[..n] == earlier;
      assert View(at, r.img, c)[x] == View(at, before.img, c)[x] || WritesAt(calls[n].op, x);
    }
  }

  /** Fault containment: the copies agree, and hold the last successfully written byte, wherever no
      failed Write is left uncorrected; a Read that succeeds there, under any faults, returns it. */
  lemma FaultContainment(at: Placement, s: RaidState, calls: seq<Call>, x: nat,
                         o: nat, len: nat, buffer: seq<byte>, f: Faults)
    requires WellFormed(at, s.img) && Mirrored(at, s.img) && x < at.capacity
    ensures var (r, rs) := Run(at, s, calls);
            var start := View(at, s.img, Primary)[x];
            var read := RaidStep(at, r, Read(o, len, buffer), f).1;
            && (Settled(calls, rs, x) ==> forall c :: View(at, r.img, c)[x] == LastWritten(calls, rs, x, start))
            && |read.buffer| == len
            && (read.ok && Covers(o, len, x) ==> read.buffer[x - o] in Candidates(calls, rs, x, start))
            && (read.ok && Covers(o, len, x) && Settled(calls, rs, x) ==>
                  read.buffer[x - o] == LastWritten(calls, rs, x, start))
  {
    hide Run;
    var (r, rs) := Run(at, s, calls);
    CopiesHoldCandidates(at, s, calls, Primary, x);
    CopiesHoldCandidates(at, s, calls, Mirror, x);
    SettledByte(calls, rs, x, View(at, s.img, Primary)[x]);
    ReadReturnsStoredBytes(at, r.img, o, len, f.read);
  }

  // ---- The index ----

  ghost predicate IndexInRange(capacity: nat, index: map<nat, nat>) {
    forall k | k in index :: index[k] > 0 ==> k + index[k] <= capacity
  }

  /** Under any faults the index records in-range writes only. */
  lemma {:induction false} IndexStaysInRange(at: Placement, s: RaidState, calls: seq<Call>)
    requires WellFormed(at, s.img) && IndexInRange(at.capacity, s.index)
    ensures IndexInRange(at.capacity, Run(at, s, calls).0.index)
  {
    if calls != [] {
      var n := |calls| - 1;
      IndexStaysInRange(at, s, calls[..n]);
      StepEffect(at, Run(at, s, calls[..n]).0, calls[n], 0);
    }
  }

  function Recorded(index: map<nat, nat>, k: nat): Option<nat> {
    if k in index then Some(index[k]) else None
  }

  lemma SameRecords(a: map<nat, nat>, b: map<nat, nat>)
    ensures a == b <==> forall k :: Recorded(a, k) == Recorded(b, k)
  {
    if forall k :: Recorded(a, k) == Recorded(b, k) {
      forall k
        ensures k in a <==> k in b
        ensures k in a ==> a[k] == b[k]
      {
        assert Recorded(a, k) == Recorded(b, k);
      }
    }
  }

  /** The size the last successful Write at exactly offset k stored, or what was recorded at the start. */
  function LastSize(calls: seq<Call>, rs: seq<Response>, k: nat, start: Option<nat>): Option<nat>
    requires |calls| == |rs|
  {
    if calls == [] then start
    else
      var n := |calls| - 1;
      if calls[n].op.Write? && calls[n].op.offset == k && rs[n] == Status(true) then Some(|calls[n].op.data|)
      else LastSize(calls[..n], rs[..n], k, start)
  }

  lemma StepRecords(at: Placement, s: RaidState, call: Call, k: nat)
    requires WellFormed(at, s.img)
    ensures var (r, response) := RaidStep(at, s, call.op, call.faults);
            Recorded(r.index, k) ==
            if call.op.Write? && call.op.offset == k && response == Status(true) then Some(|call.op.data|)
            else Recorded(s.index, k)
  {
  }

  /** Under any faults the index says what the successful Writes said, and failed ones leave no trace. */
  lemma {:induction false} IndexRecordsSuccesses(at: Placement, s: RaidState, calls: seq<Call>, k: nat)
    requires WellFormed(at, s.img)
    ensures var (r, rs) := Run(at, s, calls);
            Recorded(r.index, k) == LastSize(calls, rs, k, Recorded(s.index, k))
    decreases |calls|
  {
    hide RaidStep, Recorded;
    if calls != [] {
      var n := |calls| - 1;
      IndexRecordsSuccesses(at, s, calls[..n], k);
      var (before, earlier) := Run(at, s, calls[..n]);
      StepRecords(at, before, calls[n], k);
      assert Run(at, s, calls).1[..n] == earlier;
    }
  }

  /** After any run, under any faults, a GetSize is answered with the length of the last Write at the
      offset that succeeded, else the size recorded at the start, else 0; it changes nothing. */
  lemma GetSizeAfterRun(at: Placement, s: RaidState, calls: seq<Call>, k: nat, f: Faults)
    requires WellFormed(at, s.img)
    ensures var (r, rs) := Run(at, s, calls);
            RaidStep(at, r, GetSize(k), f) ==
            (r, match LastSize(calls, rs, k, if k in s.index then Some(s.index[k]) else None)
                case Some(n) => Size(n)
                case None => Size(0))
  {
    hide Run, LastSize;
    IndexRecordsSuccesses(at, s, calls, k);
  }

  // ---- What a faulty call leaves ----

  /** A Write of one chunk whose first minion call fails after some bytes: the mirror is not called. */
  lemma PrimaryFails(at: Placement, s: RaidState, o: nat, data: seq<byte>, f: Faults, k: nat)
    requires WellFormed(at, s.img) && o < at.capacity && 0 < |data| <= at.room(o) && f.write(o, Primary) == Fault(k)
    ensures var (r, response) := RaidStep(at, s, Write(o, data), f);
            && response == Status(false) && r.index == s.index && r.saved == s.saved
            && View(at, r.img, Mirror) == View(at, s.img, Mirror)
            && forall x: nat | x < at.capacity ::
                 View(at, r.img, Primary)[x] ==
                 if o <= x < o + |data| && x < o + k then data[x - o] else View(at, s.img, Primary)[x]
  {
    hide View, WriteChunks, Placement.Lawful;
    var n, img1, img2 := FirstChunk(at, s.img, o, data, f.write);
    WriteOfOneChunk(data, n, k);
  }

  /** And one whose second fails: all of it is on the primary. */
  lemma MirrorFails(at: Placement, s: RaidState, o: nat, data: seq<byte>, f: Faults, k: nat)
    requires WellFormed(at, s.img) && o < at.capacity && 0 < |data| <= at.room(o)
    requires f.write(o, Primary) == Done && f.write(o, Mirror) == Fault(k)
    ensures var (r, response) := RaidStep(at, s, Write(o, data), f);
            && response == Status(false) && r.index == s.index && r.saved == s.saved
            && forall c, x: nat | x < at.capacity ::
                 View(at, r.img, c)[x] ==
                 if o <= x < o + |data| && (c == Primary || x < o + k) then data[x - o] else View(at, s.img, c)[x]
  {
    hide View, WriteChunks, Placement.Lawful;
    var n, img1, img2 := FirstChunk(at, s.img, o, data, f.write);
    WriteOfOneChunk(data, n, k);
    assert RaidStep(at, s, Write(o, data), f).0.img == img2;
    forall c, x: nat | x < at.capacity
      ensures View(at, img2, c)[x] ==
              if o <= x < o + |data| && (c == Primary || x < o + k) then data[x - o] else View(at, s.img, c)[x]
    {
      hide RaidStep;
      match c
      case Primary => assert View(at, img2, c) == Splice(View(at, s.img, c), o, data);
      case Mirror => assert View(at, img2, c) == Splice(View(at, s.img, c), o, data[..Min(k, n)]);
    }
  }

  lemma WriteOfOneChunk(data: seq<byte>, n: nat, k: nat)
    requires n == |data|
    ensures data[..n] == data && Stored(Done, n) == n && Stored(Fault(k), n) == Min(k, n)
  {
  }

  /** A Read under any faults returns a buffer of the length asked for: what it copied out, bytes of one
      copy or the other, and behind that what the request's buffer held, or zeros. */
  lemma ReadBuffer(at: Placement, s: RaidState, o: nat, len: nat, buffer: seq<byte>, f: Faults) returns (got: nat)
    requires WellFormed(at, s.img)
    ensures got <= len && (got > 0 ==> o + got <= at.capacity)
    ensures var (r, response) := RaidStep(at, s, Read(o, len, buffer), f);
            && r == s && response.Bytes? && |response.buffer| == len && (response.ok ==> got == len)
            && (forall i: nat | i < got ::
                  || response.buffer[i] == View(at, s.img, Primary)[o + i]
                  || response.buffer[i] == View(at, s.img, Mirror)[o + i])
            && (forall i: nat | got <= i < len :: response.buffer[i] == if i < |buffer| then buffer[i] else 0)
  {
    hide View, ReadChunks, Placement.Lawful, Resize;
    ReadReturnsStoredBytes(at, s.img, o, len, f.read);
    got := |ReadChunks(at, s.img, o, len, f.read).0|;
  }

  // ---- Refinement ----

  /** One flat array and an offset-to-size index. */
  datatype FlatState = FlatState(data: seq<byte>, index: map<nat, nat>)

  /** What RAIDStorage does, on one array: a request past the end is served up to the end and fails. */
  function FlatStep(s: FlatState, op: Op): (FlatState, Response) {
    match op
    case Read(o, len, buffer) =>
      var (got, ok) := FlatRead(s.data, o, len);
      (s, Bytes(ok, got + Resize(buffer, len)[|got|..]))
    case Write(o, data) =>
      var fits := data == [] || o + |data| <= |s.data|;
      (FlatState(Overlay(s.data, o, data), if fits then s.index[o := |data|] else s.index), Status(fits))
    case GetSize(o) => (s, Size(SizeAt(s.index, o)))
    case List => (s, Offsets(Entries(s.index)))
  }

  function FlatRun(s: FlatState, calls: seq<Call>): (r: (FlatState, seq<Response>))
    ensures |r.1| == |calls|
  {
    if calls == [] then (s, [])
    else
      var (before, rs) := FlatRun(s, calls[..|calls| - 1]);
      var (after, r) := FlatStep(before, calls[|calls| - 1].op);
      (after, rs + [r])
  }

  /** No write call fails. */
  ghost predicate WritesDone(f: Faults) {
    forall x: nat, c: Copy :: f.write(x, c) == Done
  }

  ghost predicate AllWritesDone(calls: seq<Call>) {
    forall i | 0 <= i < |calls| :: WritesDone(calls[i].faults)
  }

  /** If the call is a Read, every chunk of it is readable on one copy. */
  ghost predicate ReadsWell(at: Placement, call: Call)
    requires at.Lawful()
  {
    call.op.Read? ==> AllReadable(at, call.faults.read, call.op.offset, call.op.len)
  }

  function Abstract(at: Placement, s: RaidState): FlatState
    requires WellFormed(at, s.img)
  {
    FlatState(View(at, s.img, Primary), s.index)
  }

  /** One call without write faults does to the state what the flat storage does, and answers
      alike, unless it is a Read that finds some chunk bad on both copies. */
  lemma StepRefinesFlat(at: Placement, s: RaidState, call: Call)
    requires WellFormed(at, s.img) && Mirrored(at, s.img) && WritesDone(call.faults)
    ensures var (r, response) := RaidStep(at, s, call.op, call.faults);
            var (flat, answer) := FlatStep(Abstract(at, s), call.op);
            && Mirrored(at, r.img) && flat == Abstract(at, r)
            && (ReadsWell(at, call) ==> response == answer)
  {
    match call.op
    case Read(o, len, _) =>
      if ReadsWell(at, call) {
        FailoverRead(at, s.img, o, len, call.faults.read);
      }
    case Write(o, data) =>
      FaultFreeWrite(at, s.img, o, data, call.faults.write, Primary);
      FaultFreeWrite(at, s.img, o, data, call.faults.write, Mirror);
    case _ =>
  }

  /** Whole-run refinement: the state is that of the flat storage, and so is every response, but
      for Reads that find some chunk bad on both copies. */
  lemma {:induction false} RunRefinesFlat(at: Placement, s: RaidState, calls: seq<Call>)
    requires WellFormed(at, s.img) && Mirrored(at, s.img) && AllWritesDone(calls)
    ensures var (r, rs) := Run(at, s, calls);
            var (flat, answers) := FlatRun(Abstract(at, s), calls);
            && Mirrored(at, r.img) && flat == Abstract(at, r)
            && forall i | 0 <= i < |calls| && ReadsWell(at, calls[i]) :: rs[i] == answers[i]
  {
    if calls != [] {
      var n := |calls| - 1;
      var before, earlier := Run(at, s, calls[..n]).0, Run(at, s, calls[..n]).1;
      var answers := FlatRun(Abstract(at, s), calls[..n]).1;
      assert AllWritesDone(calls[..n]) && WritesDone(calls[n].faults);
      RunLast(at, s, calls);
      FlatRunLast(Abstract(at, s), calls);
      hide *;
      RunRefinesFlat(at, s, calls[..n]);
      StepRefinesFlat(at, before, calls[n]);
      SameResponses(at, calls, earlier, answers, RaidStep(at, before, calls[n].op, calls[n].faults).1,
                    FlatStep(Abstract(at, before), calls[n].op).1);
    }
  }

  lemma RunLast(at: Placement, s: RaidState, calls: seq<Call>)
    requires WellFormed(at, s.img) && calls != []
    ensures var n := |calls| - 1;
            var (before, earlier) := Run(at, s, calls[..n]);
            var (r, response) := RaidStep(at, before, calls[n].op, calls[n].faults);
            Run(at, s, calls) == (r, earlier + [response])
  {
    hide RaidStep, WellFormed;
  }

  lemma FlatRunLast(s: FlatState, calls: seq<Call>)
    requires calls != []
    ensures var n := |calls| - 1;
            var (before, earlier) := FlatRun(s, calls[..n]);
            var (r, response) := FlatStep(before, calls[n].op);
            FlatRun(s, calls) == (r, earlier + [response])
  {
    hide FlatStep;
  }

  lemma SameResponses(at: Placement, calls: seq<Call>, rs: seq<Response>, answers: seq<Response>,
                      r: Response, a: Response)
    requires at.Lawful() && |calls| == |rs| + 1 == |answers| + 1
    requires forall i | 0 <= i < |rs| && ReadsWell(at, calls[..|rs|][i]) :: rs[i] == answers[i]
    requires ReadsWell(at, calls[|rs|]) ==> r == a
    ensures forall i | 0 <= i < |calls| && ReadsWell(at, calls[i]) :: (rs + [r])[i] == (answers + [a])[i]
  {
    hide ReadsWell, Placement.Lawful;
    forall i | 0 <= i < |calls| && ReadsWell(at, calls[i])
      ensures (rs + [r])[i] == (answers + [a])[i]
    {
      assert i < |rs| ==> calls[..|rs|][i] == calls[i];
    }
  }

  /** The read faults of a set of minions that are down. */
  function Down(at: Placement, down: set<nat>): (nat, Copy) -> bool
    requires at.Lawful()
  {
    (o: nat, c: Copy) => MinionOf(at, c, o) in down
  }

  /** If no minion is down together with its mirror, every request stays readable. */
  lemma {:induction false} NoPairDown(at: Placement, down: set<nat>, o: nat, remaining: nat)
    requires at.Lawful()
    requires forall p: nat | p < at.primaries :: p !in down || at.primaries + p !in down
    ensures AllReadable(at, Down(at, down), o, remaining)
    decreases remaining
  {
    if remaining > 0 {
      assert at.OffsetLaw(o);
      NoPairDown(at, down, o + at.ChunkLength(o, remaining), remaining - at.ChunkLength(o, remaining));
    }
  }

  /** Failover is invisible: after any run without write faults, a Read while a set of minions is
      down that contains no minion together with its mirror answers as with all of them up; in
      range, that is success. */
  lemma FailoverIsInvisible(at: Placement, s: RaidState, calls: seq<Call>, down: set<nat>,
                            o: nat, len: nat, buffer: seq<byte>)
    requires WellFormed(at, s.img) && Mirrored(at, s.img) && AllWritesDone(calls)
    requires forall p: nat | p < at.primaries :: p !in down || at.primaries + p !in down
    ensures var r := Run(at, s, calls).0;
            var read := RaidStep(at, r, Read(o, len, buffer), NoFaults.(read := Down(at, down))).1;
            && read == RaidStep(at, r, Read(o, len, buffer), NoFaults).1
            && (read.ok <==> len == 0 || o + len <= at.capacity)
  {
    hide Run;
    var r := Run(at, s, calls).0;
    RunRefinesFlat(at, s, calls);
    NoPairDown(at, down, o, len);
    NoPairDown(at, {}, o, len);
    FailoverRead(at, r.img, o, len, Down(at, down));
    ReadUsesCopy(at, r.img, o, len, NoFaults.read, Primary);
  }

  /** And only then: with a minion and its mirror down, some in-range Read fails. */
  lemma PairDownIsVisible(at: Placement, s: RaidState, down: set<nat>, p: nat, buffer: seq<byte>)
    requires WellFormed(at, s.img) && at.minion > 0
    requires p < at.primaries && p in down && at.primaries + p in down
    ensures var o := at.offsetOf(p, 0);
            && o < at.capacity
            && RaidStep(at, s, Read(o, 1, buffer), NoFaults.(read := Down(at, down))).1 ==
               Bytes(false, Resize(buffer, 1))
  {
    var o := at.offsetOf(p, 0);
    assert at.PlaceLaw(p, 0) && at.OffsetLaw(o);
    assert [] + Resize(buffer, 1)[0..] == Resize(buffer, 1);
  }

  /** A Write that runs past the capacity stores its in-range bytes on both copies, and nothing else. */
  lemma OverrunningWrite(at: Placement, s: RaidState, o: nat, data: seq<byte>, f: Faults)
    requires WellFormed(at, s.img)
    requires data != [] && o + |data| > at.capacity
    requires WritesDone(f)
    ensures var (r, response) := RaidStep(at, s, Write(o, data), f);
            && response == Status(false) && r.index == s.index && r.saved == s.saved
            && forall c, x: nat | x < at.capacity ::
                 View(at, r.img, c)[x] == if o <= x then data[x - o] else View(at, s.img, c)[x]
  {
    FaultFreeWrite(at, s.img, o, data, f.write, Primary);
    FaultFreeWrite(at, s.img, o, data, f.write, Mirror);
  }

  // ---- Agreement with LocalStorage ----

  /** LocalStorage either answers or throws std::out_of_range. */
  datatype LocalAnswer = Answered(response: Response) | OutOfRange

  function LocalStep(s: FlatState, op: Op): (FlatState, LocalAnswer) {
    match op
    case Read(o, _, buffer) =>
      if o + |buffer| > |s.data| then (s, OutOfRange)
      else (s, Answered(Bytes(true, s.data[o..o + |buffer|])))
    case Write(o, data) =>
      if o + |data| > |s.data| then (s, OutOfRange)
      else (FlatState(Splice(s.data, o, data), s.index[o := |data|]), Answered(Status(true)))
    case GetSize(o) => (s, Answered(Size(SizeAt(s.index, o))))
    case List => (s, Answered(Offsets(Entries(s.index))))
  }

  function LocalRun(s: FlatState, calls: seq<Call>): (r: (FlatState, seq<LocalAnswer>))
    ensures |r.1| == |calls|
  {
    if calls == [] then (s, [])
    else
      var (before, rs) := LocalRun(s, calls[..|calls| - 1]);
      var (after, r) := LocalStep(before, calls[|calls| - 1].op);
      (after, rs + [r])
  }

  /** The request ends at or before the capacity. */
  predicate InRange(capacity: nat, op: Op) {
    match op
    case Read(o, len, _) => o + len <= capacity
    case Write(o, data) => o + |data| <= capacity
    case _ => true
  }

  /** Requests come with a buffer of their length, as DriverData's constructor makes it. */
  predicate Sized(op: Op) {
    op.Read? ==> |op.buffer| == op.len
  }

  /** One request is served alike exactly when it is in range; any other changes nothing. */
  lemma LocalStepAgreesIffInRange(s: FlatState, op: Op)
    requires Sized(op)
    ensures (var (f, r) := FlatStep(s, op); LocalStep(s, op) == (f, Answered(r))) <==> InRange(|s.data|, op)
    ensures !InRange(|s.data|, op) ==> LocalStep(s, op) == (s, OutOfRange)
  {
    hide Resize, Splice, Overlay, Entries, SizeAt, FlatRead;
    if InRange(|s.data|, op) {
      match op
      case Read(o, len, buffer) => FlatReadInRange(s.data, o, len, buffer);
      case Write(o, data) => FlatWriteInRange(s.data, o, data);
      case _ =>
    }
  }

  lemma FlatReadInRange(data: seq<byte>, o: nat, len: nat, buffer: seq<byte>)
    requires o + len <= |data|
    ensures FlatRead(data, o, len) == (data[o..o + len], true)
    ensures data[o..o + len] + Resize(buffer, len)[len..] == data[o..o + len]
  {
    assert Resize(buffer, len)[len..] == [];
    assert len == 0 ==> data[o..o + len] == [];
  }

  lemma FlatWriteInRange(data: seq<byte>, o: nat, b: seq<byte>)
    requires o + |b| <= |data|
    ensures Splice(data, o, b) == Overlay(data, o, b)
  {
  }

  /** RAIDStorage and LocalStorage of the same capacity go through the same states over every run of
      in-range requests without write faults, and give the same answers, but for Reads that find
      some chunk bad on both copies. */
  lemma {:induction false} RaidAgreesWithLocal(at: Placement, s: RaidState, calls: seq<Call>)
    requires WellFormed(at, s.img) && Mirrored(at, s.img) && AllWritesDone(calls)
    requires forall i | 0 <= i < |calls| :: Sized(calls[i].op) && InRange(at.capacity, calls[i].op)
    ensures var (r, rs) := Run(at, s, calls);
            var (l, answers) := LocalRun(Abstract(at, s), calls);
            && l == Abstract(at, r)
            && forall i | 0 <= i < |calls| && ReadsWell(at, calls[i]) :: answers[i] == Answered(rs[i])
  {
    if calls != [] {
      var n := |calls| - 1;
      var before, earlier := Run(at, s, calls[..n]).0, Run(at, s, calls[..n]).1;
      var answers := LocalRun(Abstract(at, s), calls[..n]).1;
      assert AllWritesDone(calls[..n]) && WritesDone(calls[n].faults);
      assert InRange(at.capacity, calls[n].op) && Sized(calls[n].op);
      RunLast(at, s, calls);
      LocalRunLast(Abstract(at, s), calls);
      hide *;
      RaidAgreesWithLocal(at, s, calls[..n]);
      RunRefinesFlat(at, s, calls[..n]);
      StepRefinesFlat(at, before, calls[n]);
      LocalStepAgreesIffInRange(Abstract(at, before), calls[n].op);
      SameAnswers(at, calls, earlier, answers, RaidStep(at, before, calls[n].op, calls[n].faults).1,
                  LocalStep(Abstract(at, before), calls[n].op).1);
    }
  }

  lemma LocalRunLast(s: FlatState, calls: seq<Call>)
    requires calls != []
    ensures var n := |calls| - 1;
            var (before, earlier) := LocalRun(s, calls[..n]);
            var (r, answer) := LocalStep(before, calls[n].op);
            LocalRun(s, calls) == (r, earlier + [answer])
  {
    hide LocalStep;
  }

  lemma SameAnswers(at: Placement, calls: seq<Call>, rs: seq<Response>, answers: seq<LocalAnswer>,
                    r: Response, a: LocalAnswer)
    requires at.Lawful() && |calls| == |rs| + 1 == |answers| + 1
    requires forall i | 0 <= i < |rs| && ReadsWell(at, calls[..|rs|][i]) :: answers[i] == Answered(rs[i])
    requires ReadsWell(at, calls[|rs|]) ==> a == Answered(r)
    ensures forall i | 0 <= i < |calls| && ReadsWell(at, calls[i]) :: (answers + [a])[i] == Answered((rs + [r])[i])
  {
    hide ReadsWell, Placement.Lawful;
    forall i | 0 <= i < |calls| && ReadsWell(at, calls[i])
      ensures (answers + [a])[i] == Answered((rs + [r])[i])
    {
      assert i < |rs| ==> calls[..|rs|][i] == calls[i];
    }
  }

  /** New minions, and an empty metadata store: one zeroed array and an empty index. */
  lemma NewStorageIsZeroed(at: Placement, img: Image, saved: Snapshot)
    requires WellFormed(at, img) && forall i | 0 <= i < |img| :: img[i] == Zeros(at.minion)
    ensures Mirrored(at, img) && Abstract(at, RaidState(img, map[], saved)) == FlatState(Zeros(at.capacity), map[])
  {
    forall c, x: nat | x < at.capacity
      ensures View(at, img, c)[x] == 0
    {
      assert at.OffsetLaw(x);
    }
    assert forall c :: View(at, img, c) == Zeros(at.capacity);
  }

  /** A new RAIDStorage against one flat zeroed array, for any run without write faults, and against
      a new LocalStorage of the same capacity while every request is in range. */
  lemma NewStorageBehavesFlat(at: Placement, img: Image, saved: Snapshot, calls: seq<Call>)
    requires WellFormed(at, img) && forall i | 0 <= i < |img| :: img[i] == Zeros(at.minion)
    requires AllWritesDone(calls)
    ensures var rs := Run(at, RaidState(img, map[], saved), calls).1;
            var start := FlatState(Zeros(at.capacity), map[]);
            forall i | 0 <= i < |calls| && ReadsWell(at, calls[i]) ::
              && FlatRun(start, calls).1[i] == rs[i]
              && ((forall j | 0 <= j < |calls| :: Sized(calls[j].op) && InRange(at.capacity, calls[j].op)) ==>
                    LocalRun(start, calls).1[i] == Answered(rs[i]))
  {
    hide View, Run, FlatRun, LocalRun, ReadsWell;
    var s := RaidState(img, map[], saved);
    NewStorageIsZeroed(at, img, saved);
    RunRefinesFlat(at, s, calls);
    if forall j | 0 <= j < |calls| :: Sized(calls[j].op) && InRange(at.capacity, calls[j].op) {
      RaidAgreesWithLocal(at, s, calls);
    }
  }

  // ---- Discovery ----

  /** GetDataSize of k, and then a Read of that many bytes: it succeeds and returns the stored bytes. */
  ghost predicate ReadsInFull(at: Placement, s: RaidState, k: nat, f: Faults)
    requires WellFormed(at, s.img)
  {
    && k in s.index
    && var n := s.index[k];
       && (n > 0 ==> k + n <= at.capacity)
       && RaidStep(at, s, GetSize(k), f).1 == Size(n)
       && RaidStep(at, s, Read(k, n, Zeros(n)), f).1 ==
          Bytes(true, if n > 0 then View(at, s.img, Primary)[k..k + n] else [])
  }

  /** After any run without write faults, every listed offset can be read back in full. */
  lemma ListedOffsetsAreReadable(at: Placement, s: RaidState, calls: seq<Call>, k: nat, f: Faults)
    requires WellFormed(at, s.img) && Mirrored(at, s.img) && IndexInRange(at.capacity, s.index)
    requires AllWritesDone(calls)
    requires var r := Run(at, s, calls).0; k in r.index && AllReadable(at, f.read, k, r.index[k])
    ensures ReadsInFull(at, Run(at, s, calls).0, k, f)
  {
    hide Run, ReadsInFull, View, WellFormed, AllReadable, Mirrored;
    RunRefinesFlat(at, s, calls);
    IndexStaysInRange(at, s, calls);
    RecordedIsReadable(at, Run(at, s, calls).0, k, f);
  }

  lemma RecordedIsReadable(at: Placement, s: RaidState, k: nat, f: Faults)
    requires WellFormed(at, s.img) && Mirrored(at, s.img) && k in s.index
    requires s.index[k] > 0 ==> k + s.index[k] <= at.capacity
    requires AllReadable(at, f.read, k, s.index[k])
    ensures ReadsInFull(at, s, k, f)
  {
    hide View, ReadChunks, WellFormed, AllReadable;
    var n := s.index[k];
    FailoverRead(at, s.img, k, n, f.read);
    assert Resize(Zeros(n), n)[n..] == [];
  }
}
