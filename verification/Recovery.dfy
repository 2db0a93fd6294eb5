// What a reconnecting client and a restarted server find.
module Recovery {
  import opened Bytes
  import opened Client
  import opened Framing
  import opened Mediator
  import opened MetadataFile
  import opened MetadataStores
  import opened Options
  import opened OrderedMaps
  import opened Placements
  import opened RaidRuns
  import opened RaidSpec
  import opened Requests
  import opened Streams
  import opened Wire

  /** Discovery is sound. After any run without write faults from an empty index, the LIST_OFFSETS
      reply decodes at the client to exactly the index keys, ascending and without repeats, and
      for each of them a Read of its GetDataSize bytes returns what is stored there. */
  lemma DiscoveryIsSound(at: Placement, s: RaidState, calls: seq<Call>, handle: nat, tail: seq<byte>, f: Faults)
    requires WellFormed(at, s.img) && Mirrored(at, s.img) && s.index == map[]
    requires AllWritesDone(calls)
    requires handle < U64 && Fit64(Entries(Run(at, s, calls).0.index))
    requires 16 * |Run(at, s, calls).0.index| < U32
    requires forall o: nat, n: nat :: AllReadable(at, f.read, o, n)
    ensures var r := Run(at, s, calls).0;
            var payload := OffsetsPayload(Entries(r.index));
            var reply := Reply(LIST_OFFSETS, true, handle, |payload|, payload);
            && ParseReply(LIST_OFFSETS, ReplyFrame(reply) + tail) ==
               Parsed(Answer(true, handle, |payload|, payload), tail)
            && DecodeOffsets(payload) == Ascending(r.index.Keys)
            && Merged([], DecodeOffsets(payload)) == Ascending(r.index.Keys)
            && forall k | k in r.index :: ReadsInFull(at, r, k, f)
  {
    hide Run, AllReadable, ReadsInFull, ReplyFrame, ParseReply, Mirrored, WellFormed, AllWritesDone;
    var r := Run(at, s, calls).0;
    var es := Entries(r.index);
    var payload := OffsetsPayload(es);
    ReplyRoundTripIff(Reply(LIST_OFFSETS, true, handle, |payload|, payload), tail);
    WholePayload(r.index);
    forall k | k in r.index
      ensures ReadsInFull(at, r, k, f)
    {
      ListedOffsetsAreReadable(at, s, calls, k, f);
    }
  }

  /** The whole payload decodes to the keys of the index. */
  lemma WholePayload(index: map<nat, nat>)
    requires Fit64(Entries(index))
    ensures DecodeOffsets(OffsetsPayload(Entries(index))) == Ascending(index.Keys)
    ensures Merged([], DecodeOffsets(OffsetsPayload(Entries(index)))) == Ascending(index.Keys)
  {
    hide Fit64, OffsetsPayload, DecodeOffsets, Merged, Entries, Keys, Ascending;
    var es, n := Entries(index), 16 * |index|;
    DecodePrefix(es, n);
    assert OffsetsPayload(es)[..n] == OffsetsPayload(es);
    assert es[..n / 16] == es;
    KeysOfEntries(index);
    AscendingUnique(Merged([], Keys(es)), Ascending(index.Keys));
  }

  // ---- Restart ----

  /** The call is a Write that succeeded. */
  predicate WroteAt(call: Call, r: Response) {
    call.op.Write? && r == Status(true)
  }

  /** How many calls there were when the last save that reached the store was done; 0 if none was. */
  function SavePoint(saved: Snapshot, calls: seq<Call>, rs: seq<Response>): (p: nat)
    requires |calls| == |rs|
    ensures p <= |calls|
  {
    if calls == [] then 0
    else
      var n := |calls| - 1;
      if WroteAt(calls[n], rs[n]) && Takes(saved, calls[n].faults.save) then |calls|
      else SavePoint(saved, calls[..n], rs[..n])
  }

  /** What became of that save. */
  function SaveAt(calls: seq<Call>, p: nat): SaveIo
    requires p <= |calls|
  {
    if p == 0 then Written else calls[p - 1].faults.save
  }

  /** Requests carry 64-bit offsets and lengths. */
  ghost predicate Writes64(calls: seq<Call>) {
    forall i | 0 <= i < |calls| && calls[i].op.Write? :: calls[i].op.offset < U64 && |calls[i].op.data| < U64
  }

  /** One call, seen from a server that would restart after it: it loads what is kept of the index as
      it is then if the call's save reached the store, and otherwise what it would have loaded before. */
  lemma StepSaves(at: Placement, s: RaidState, call: Call)
    requires WellFormed(at, s.img) && Fits64(s.index) && Writes64([call])
    ensures var (r, response) := RaidStep(at, s, call.op, call.faults);
            && Fits64(r.index) && r.saved.MapSnapshot? == s.saved.MapSnapshot?
            && Loaded(r.saved, true) ==
               if WroteAt(call, response) && Takes(s.saved, call.faults.save) then
                 Kept(s.saved, r.index, call.faults.save)
               else Loaded(s.saved, true)
  {
    assert call == [call][0];
    var (r, response) := RaidStep(at, s, call.op, call.faults);
    StepRecordsOrNot(at, s, call);
    hide *;
    if WroteAt(call, response) {
      RecordedFits64(s.index, call.op.offset, |call.op.data|);
      SavedThenLoaded(s.saved, r.index, call.faults.save);
    }
  }

  /** The index and the snapshot change at a successful Write only. */
  lemma StepRecordsOrNot(at: Placement, s: RaidState, call: Call)
    requires WellFormed(at, s.img)
    ensures var (r, response) := RaidStep(at, s, call.op, call.faults);
            && r.saved.MapSnapshot? == s.saved.MapSnapshot?
            && if WroteAt(call, response) then
                 && call.op.Write?
                 && r.index == s.index[call.op.offset := |call.op.data|]
                 && r.saved == Saved(s.saved, r.index, call.faults.save)
               else
                 r.index == s.index && r.saved == s.saved
  {
    hide WriteChunks, ReadChunks, Resize, WellFormed, EntriesBytes, Entries, FileAfter;
  }

  lemma RecordedFits64(index: map<nat, nat>, offset: nat, size: nat)
    requires Fits64(index) && offset < U64 && size < U64
    ensures Fits64(index[offset := size])
  {
  }

  /** Kept looks at the kind of the store only. */
  lemma KeptBy(a: Snapshot, b: Snapshot, index: map<nat, nat>, io: SaveIo)
    requires a.MapSnapshot? == b.MapSnapshot?
    ensures Kept(a, index, io) == Kept(b, index, io) && Takes(a, io) == Takes(b, io)
  {
  }

  /** After any run, under any faults, a restarted server loads what was kept of the index as it was
      just after the last successful Write whose save reached the store. */
  lemma {:induction false} RestartFindsSavePoint(at: Placement, s: RaidState, calls: seq<Call>)
    requires WellFormed(at, s.img) && Fits64(s.index) && Writes64(calls)
    requires Loaded(s.saved, true) == s.index
    ensures var (r, rs) := Run(at, s, calls);
            var p := SavePoint(s.saved, calls, rs);
            && Fits64(r.index) && r.saved.MapSnapshot? == s.saved.MapSnapshot?
            && Loaded(r.saved, true) == Kept(s.saved, Run(at, s, calls[..p]).0.index, SaveAt(calls, p))
    decreases |calls|
  {
    hide RaidStep, Run, Loaded, Fits64, WellFormed, Kept, Takes, WroteAt, SavePoint;
    if calls == [] {
      NothingSaved(at, s);
    } else {
      var n := |calls| - 1;
      RestartFindsSavePoint(at, s, calls[..n]);
      var before, earlier := Run(at, s, calls[..n]).0, Run(at, s, calls[..n]).1;
      StepSaves(at, before, calls[n]);
      RunLast(at, s, calls);
      var r, rs := Run(at, s, calls).0, Run(at, s, calls).1;
      KeptBy(before.saved, s.saved, r.index, calls[n].faults.save);
      SavePointLast(s.saved, calls, earlier, rs[n]);
      PrefixOfPrefix(calls, n, SavePoint(s.saved, calls[..n], earlier));
    }
  }

  lemma NothingSaved(at: Placement, s: RaidState)
    requires WellFormed(at, s.img)
    ensures Run(at, s, []) == (s, []) && SavePoint(s.saved, [], []) == 0 && Kept(s.saved, s.index, Written) == s.index
  {
    KeptWhole(s.saved, s.index);
  }

  lemma SavePointLast(saved: Snapshot, calls: seq<Call>, earlier: seq<Response>, response: Response)
    requires |calls| == |earlier| + 1
    ensures var n := |calls| - 1;
            SavePoint(saved, calls, earlier + [response]) ==
            if WroteAt(calls[n], response) && Takes(saved, calls[n].faults.save) then |calls|
            else SavePoint(saved, calls[..n], earlier)
  {
    assert (earlier + [response])[..|earlier|] == earlier;
  }

  lemma PrefixOfPrefix(calls: seq<Call>, n: nat, p: nat)
    requires p <= n <= |calls|
    ensures calls[..n][..p] == calls[..p] && SaveAt(calls[..n], p) == SaveAt(calls, p) && calls[..|calls|] == calls
  {
  }

  lemma KeptWhole(s: Snapshot, index: map<nat, nat>)
    ensures Kept(s, index, Written) == index
  {
  }

  lemma {:induction false} RunInParts(at: Placement, s: RaidState, calls: seq<Call>, p: nat)
    requires WellFormed(at, s.img) && p <= |calls|
    ensures var (mid, first) := Run(at, s, calls[..p]);
            var (r, rs) := Run(at, s, calls);
            Run(at, mid, calls[p..]) == (r, rs[p..]) && rs[..p] == first
    decreases |calls|
  {
    hide RaidStep;
    if p == |calls| {
      assert calls[..p] == calls && calls[p..] == [];
      var rs := Run(at, s, calls).1;
      assert rs[..p] == rs && rs[p..] == [];
    } else {
      var n := |calls| - 1;
      RunInParts(at, s, calls[..n], p);
      var earlier, rs := Run(at, s, calls[..n]).1, Run(at, s, calls).1;
      assert calls[..n][..p] == calls[..p];
      assert calls[p..][..n - p] == calls[..n][p..] && calls[p..][n - p] == calls[n];
      assert rs == earlier + [rs[n]];
      assert rs[p..] == earlier[p..] + [rs[n]] && rs[..p] == earlier[..p];
    }
  }

  /** Nothing that was in the index at the save point was cut off, and the last successful Write at
      each offset after it wrote the size recorded then. */
  ghost predicate NothingLost(atSave: map<nat, nat>, kept: map<nat, nat>, later: seq<Call>, rs: seq<Response>)
    requires |later| == |rs|
  {
    forall k :: LastSize(later, rs, k, Recorded(atSave, k)) == Recorded(kept, k)
  }

  /** And that is the index at the end if and only if the save kept all that later Writes left as it
      was, and the successful Writes whose save did not reach the store changed nothing. */
  lemma RestartFindsIndexIff(at: Placement, s: RaidState, calls: seq<Call>)
    requires WellFormed(at, s.img) && Fits64(s.index) && Writes64(calls)
    requires Loaded(s.saved, true) == s.index
    ensures var (r, rs) := Run(at, s, calls);
            var p := SavePoint(s.saved, calls, rs);
            var atSave := Run(at, s, calls[..p]).0.index;
            Loaded(r.saved, true) == r.index <==>
            NothingLost(atSave, Kept(s.saved, atSave, SaveAt(calls, p)), calls[p..], rs[p..])
  {
    hide Run, Loaded, SavePoint, Recorded, Kept;
    var (r, rs) := Run(at, s, calls);
    var p := SavePoint(s.saved, calls, rs);
    RestartFindsSavePoint(at, s, calls);
    RunInParts(at, s, calls, p);
    var mid := Run(at, s, calls[..p]).0;
    forall k
      ensures Recorded(r.index, k) == LastSize(calls[p..], rs[p..], k, Recorded(mid.index, k))
    {
      IndexRecordsSuccesses(at, mid, calls[p..], k);
    }
    SameRecords(r.index, Loaded(r.saved, true));
  }

  /** In particular it is if every save is complete. */
  lemma {:induction false} RestartFindsIndex(at: Placement, s: RaidState, calls: seq<Call>)
    requires WellFormed(at, s.img) && Fits64(s.index) && Writes64(calls)
    requires Loaded(s.saved, true) == s.index
    requires s.saved.MapSnapshot? || forall i | 0 <= i < |calls| :: calls[i].faults.save == Written
    ensures var r := Run(at, s, calls).0;
            Loaded(r.saved, true) == r.index && Fits64(r.index) && r.saved.MapSnapshot? == s.saved.MapSnapshot?
    decreases |calls|
  {
    hide Loaded, Fits64, WellFormed;
    if calls != [] {
      var n := |calls| - 1;
      RestartFindsIndex(at, s, calls[..n]);
      StepSaves(at, Run(at, s, calls[..n]).0, calls[n]);
    }
  }

  /** A Write reports success although its save was lost: the file does not open, and a restarted
      server does not know the offset. */
  lemma LostSave(at: Placement, s: RaidState, order: ByteOrder, b: byte)
    requires WellFormed(at, s.img) && at.capacity > 0
    requires s.index == map[] && s.saved == FileSnapshot(order, None)
    ensures var (r, response) := RaidStep(at, s, Write(0, [b]), NoFaults.(save := NotOpened));
            && response == Status(true) && r.index == map[0 := 1]
            && Loaded(r.saved, true) == map[]
  {
    FaultFreeWrite(at, s.img, 0, [b], NoFaults.write, Primary);
  }

  /** And one that is cut inside the size of its own entry loses the entries of all Writes before it,
      which the file had held. */
  lemma CutSaveForgetsAll(at: Placement, s: RaidState, order: ByteOrder, b: byte)
    requires WellFormed(at, s.img) && at.capacity > 1 && s.index == map[0 := 1] && s.saved.FileSnapshot?
    ensures var (r, response) := RaidStep(at, s, Write(1, [b]), NoFaults.(save := Cut(24)));
            && response == Status(true) && r.index == map[0 := 1, 1 := 1]
            && Loaded(r.saved, true) == map[]
  {
    FaultFreeWrite(at, s.img, 1, [b], NoFaults.write, Primary);
    var call := Call(Write(1, [b]), NoFaults.(save := Cut(24)));
    var r := RaidStep(at, s, call.op, call.faults).0;
    StepRecordsOrNot(at, s, call);
    hide RaidStep, Kept, Loaded, Saved, WellFormed;
    assert r.index == map[0 := 1, 1 := 1];
    CutOfTwoEntries(s.saved, r.index);
  }

  lemma CutOfTwoEntries(s: Snapshot, index: map<nat, nat>)
    requires s.FileSnapshot? && index == map[0 := 1, 1 := 1]
    ensures Loaded(Saved(s, index, Cut(24)), true) == map[]
  {
    assert index.Keys == {0, 1};
    assert Fits64(index);
    hide Loaded, Saved;
    SavedThenLoaded(s, index, Cut(24));
  }
}
