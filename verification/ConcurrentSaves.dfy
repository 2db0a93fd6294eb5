// What the metadata store holds after several Writes at once. Each save writes the whole index as it
// is when its Write finishes, so the snapshot is the index at the last save that reached the store.
module ConcurrentSaves {
  import opened Bytes
  import opened ConcurrentWrites
  import opened MetadataStores
  import opened Minions
  import opened Options
  import opened OrderedMaps
  import opened Placements
  import opened RaidRuns
  import opened RaidSpec
  import opened Streams
  import opened Wire

  /** The writers that have succeeded. */
  function Done(us: seq<Writer>): (r: set<nat>)
    ensures forall k: nat :: k in r <==> k < |us| && us[k].phase == Finished(true)
    decreases |us|
  {
    if us == [] then {}
    else
      var n := |us| - 1;
      Done(us[..n]) + if us[n].phase == Finished(true) then {n} else {}
  }

  /** index is base with the entries of the writers of done. */
  ghost predicate IndexAfter(base: map<nat, nat>, ws: seq<Writer>, done: set<nat>, index: map<nat, nat>) {
    && (forall i | i in done :: i < |ws| && Recorded(index, ws[i].offset) == Some(|ws[i].data|))
    && (forall k | forall i | i in done && i < |ws| :: ws[i].offset != k :: Recorded(index, k) == Recorded(base, k))
  }

  lemma IndexAfterUnique(base: map<nat, nat>, ws: seq<Writer>, done: set<nat>, a: map<nat, nat>, b: map<nat, nat>)
    requires IndexAfter(base, ws, done, a) && IndexAfter(base, ws, done, b)
    ensures a == b
  {
    forall k
      ensures Recorded(a, k) == Recorded(b, k)
    {
      if i :| i in done && i < |ws| && ws[i].offset == k {
        assert Recorded(a, ws[i].offset) == Recorded(b, ws[i].offset);
      } else {
        assert forall i | i in done && i < |ws| :: ws[i].offset != k;
      }
    }
    SameRecords(a, b);
  }

  lemma IndexedIsAfter(base: RaidState, ws: seq<Writer>, s: System)
    requires |s.writers| == |ws| && Indexed(base, ws, s)
    ensures IndexAfter(base.index, ws, Done(s.writers), s.raid.index)
  {
    var done := Done(s.writers);
    forall k | forall i | i in done && i < |ws| :: ws[i].offset != k
      ensures Recorded(s.raid.index, k) == Recorded(base.index, k)
    {
      assert forall i: nat | i < |ws| && Succeeded(s.writers[i]) :: i in done;
    }
  }

  /** Writer w, of those of done, can have been the last whose save reached the store, with the writers
      of upTo finished then and the index as given. */
  ghost predicate LastSave(at: Placement, base: RaidState, ws: seq<Writer>, done: set<nat>,
                           w: nat, upTo: set<nat>, index: map<nat, nat>)
    requires at.Lawful() && Fresh(ws)
  {
    && w in upTo && upTo <= done && w < |ws| && Saves(at, base.saved, ws[w])
    && (forall j | j in done && j < |ws| && Saves(at, base.saved, ws[j]) :: j in upTo)
    && IndexAfter(base.index, ws, upTo, index)
  }

  /** The snapshot is that of the last save that reached the store, if there was one. */
  ghost predicate Snapshotted(at: Placement, base: RaidState, ws: seq<Writer>, done: set<nat>, saved: Snapshot)
    requires at.Lawful() && Fresh(ws)
  {
    || (saved == base.saved && forall j | j in done && j < |ws| :: !Saves(at, base.saved, ws[j]))
    || exists w: nat, upTo: set<nat>, index: map<nat, nat> ::
         LastSave(at, base, ws, done, w, upTo, index) && saved == Saved(base.saved, index, ws[w].faults.save)
  }

  lemma SameKind(s: Snapshot, index: map<nat, nat>, first: SaveIo, io: SaveIo)
    ensures Takes(Saved(s, index, first), io) == Takes(s, io)
  {
  }

  /** A writer that succeeds saves the index of all that have. */
  lemma SuccessSnapshots(at: Placement, base: RaidState, ws: seq<Writer>, done: set<nat>, i: nat,
                         before: Snapshot, index: map<nat, nat>, after: Snapshot)
    requires at.Lawful() && Fresh(ws) && i < |ws| && i !in done && Snapshotted(at, base, ws, done, before)
    requires Succeeded(Final(at, ws[i])) && IndexAfter(base.index, ws, done + {i}, index)
    requires after == Saved(before, index, ws[i].faults.save)
    ensures Snapshotted(at, base, ws, done + {i}, after)
  {
    hide Final, Placement.Lawful, Saved, Takes, IndexAfter;
    var io := ws[i].faults.save;
    if w: nat, upTo: set<nat>, at0: map<nat, nat> :|
      LastSave(at, base, ws, done, w, upTo, at0) && before == Saved(base.saved, at0, ws[w].faults.save) {
      SavedOver(base.saved, at0, ws[w].faults.save, index, io);
      if !Saves(at, base.saved, ws[i]) {
        assert LastSave(at, base, ws, done + {i}, w, upTo, at0);
      }
    } else {
      NotTaken(base.saved, index, io);
    }
    if Saves(at, base.saved, ws[i]) {
      assert LastSave(at, base, ws, done + {i}, i, done + {i}, index);
    }
  }

  lemma NotTaken(s: Snapshot, index: map<nat, nat>, io: SaveIo)
    ensures !Takes(s, io) ==> Saved(s, index, io) == s
  {
  }

  /** What a step of writer i does to who has succeeded, and to the snapshot. */
  lemma StepDone(at: Placement, base: RaidState, ws: seq<Writer>, s: System, i: nat)
    requires Inv(at, base, ws, s) && Fresh(ws) && i < |ws|
    ensures WellFormed(at, s.raid.img) && |Step(at, s, i).writers| == |ws|
    ensures var r := Step(at, s, i);
            if !Succeeded(s.writers[i]) && Succeeded(r.writers[i]) then
              && i !in Done(s.writers) && Done(r.writers) == Done(s.writers) + {i} && Succeeded(Final(at, ws[i]))
              && r.raid.saved == Saved(s.raid.saved, r.raid.index, ws[i].faults.save)
            else
              Done(r.writers) == Done(s.writers) && r.raid.saved == s.raid.saved
  {
    var w, r := s.writers[i], Step(at, s, i);
    assert OnPath(at, ws[i], w);
    StepEffects(at, s.raid, w);
    StepKeepsPaths(at, ws, s, i);
    SuccessStays(at, w);
    hide Inv, Act, Next, Sound, WellFormed, Saved, Reach, Gain, View, Overlay, Shows, Done, Final, Placement.Lawful;
    var w1 := Next(at, w);
    assert r.writers == s.writers[i := w1];
    DoneAfter(s.writers, i, w1);
    if !Succeeded(w) && Succeeded(w1) {
      SuccessIsFinal(at, ws[i], w1);
    }
  }

  lemma SuccessStays(at: Placement, w: Writer)
    requires at.Lawful()
    ensures Succeeded(w) ==> Next(at, w) == w
  {
  }

  lemma DoneAfter(us: seq<Writer>, i: nat, u: Writer)
    requires i < |us|
    ensures Succeeded(u) ==> Done(us[i := u]) == Done(us) + {i}
    ensures !Succeeded(u) ==> Done(us[i := u]) == Done(us) - {i}
    ensures i in Done(us) <==> Succeeded(us[i])
  {
    var vs := us[i := u];
    assert forall k: nat | k < |us| && k != i :: vs[k] == us[k];
  }

  lemma StepSnapshots(at: Placement, base: RaidState, ws: seq<Writer>, s: System, i: nat)
    requires Inv(at, base, ws, s) && Fresh(ws) && Compatible(at, ws) && SizesAgree(at, ws) && Indexed(base, ws, s)
    requires Snapshotted(at, base, ws, Done(s.writers), s.raid.saved)
    ensures WellFormed(at, s.raid.img)
    ensures var r := Step(at, s, i); Snapshotted(at, base, ws, Done(r.writers), r.raid.saved)
  {
    assert WellFormed(at, s.raid.img) && at.Lawful() && |s.writers| == |ws|;
    hide *;
    var r := Step(at, s, i);
    if i < |ws| {
      StepDone(at, base, ws, s, i);
      StepKeepsIndexed(at, base, ws, s, i);
      IndexedIsAfter(base, ws, r);
      if Done(r.writers) != Done(s.writers) {
        SuccessSnapshots(at, base, ws, Done(s.writers), i, s.raid.saved, r.raid.index, r.raid.saved);
      }
    } else {
      StepOfNone(at, s, i);
    }
  }

  lemma StepOfNone(at: Placement, s: System, i: nat)
    requires WellFormed(at, s.raid.img) && i >= |s.writers|
    ensures Step(at, s, i) == s
  {
  }

  lemma {:induction false} ExecSnapshots(at: Placement, base: RaidState, ws: seq<Writer>, schedule: seq<nat>)
    requires WellFormed(at, base.img) && Fresh(ws) && Compatible(at, ws) && SizesAgree(at, ws)
    ensures var s := Exec(at, System(base, ws), schedule); Snapshotted(at, base, ws, Done(s.writers), s.raid.saved)
  {
    hide Inv, Compatible, SizesAgree, Indexed;
    if schedule == [] {
    } else {
      hide Fresh, Snapshotted;
      var earlier := schedule[..|schedule| - 1];
      ExecSnapshots(at, base, ws, earlier);
      ExecKeepsInv(at, base, ws, earlier);
      ExecKeepsIndexed(at, base, ws, earlier);
      StepSnapshots(at, base, ws, Exec(at, System(base, ws), earlier), schedule[|schedule| - 1]);
    }
  }

  // ---- When the snapshot does not depend on the interleaving ----

  /** The writers that succeed in the end, whatever the schedule. */
  function Successes(at: Placement, ws: seq<Writer>, n: nat): (r: set<nat>)
    requires at.Lawful() && Fresh(ws) && n <= |ws|
    ensures forall k: nat :: k in r <==> k < n && Final(at, ws[k]).phase == Finished(true)
  {
    if n == 0 then {}
    else Successes(at, ws, n - 1) + if Final(at, ws[n - 1]).phase == Finished(true) then {n - 1} else {}
  }

  function All(at: Placement, ws: seq<Writer>): set<nat>
    requires at.Lawful() && Fresh(ws)
  {
    Successes(at, ws, |ws|)
  }

  lemma FinishedDone(at: Placement, base: RaidState, ws: seq<Writer>, s: System)
    requires Inv(at, base, ws, s) && Fresh(ws) && AllFinished(s)
    ensures Done(s.writers) == All(at, ws)
  {
    forall k: nat
      ensures k in Done(s.writers) <==> k in All(at, ws)
    {
      if k < |ws| {
        FinishedIsFinal(at, base, ws, s, k);
      }
    }
  }

  /** Every save that can be the last one leaves the same. */
  ghost predicate SavesAgree(at: Placement, base: RaidState, ws: seq<Writer>)
    requires at.Lawful() && Fresh(ws)
  {
    forall w: nat, s: set<nat>, a: map<nat, nat>, v: nat, t: set<nat>, b: map<nat, nat> |
      LastSave(at, base, ws, All(at, ws), w, s, a) && LastSave(at, base, ws, All(at, ws), v, t, b) ::
      Saved(base.saved, a, ws[w].faults.save) == Saved(base.saved, b, ws[v].faults.save)
  }

  ghost predicate SameSnapshot(at: Placement, base: RaidState, ws: seq<Writer>, a: seq<nat>, b: seq<nat>)
    requires WellFormed(at, base.img)
  {
    Exec(at, System(base, ws), a).raid.saved == Exec(at, System(base, ws), b).raid.saved
  }

  lemma AgreeingSaves(at: Placement, base: RaidState, ws: seq<Writer>, a: Snapshot, b: Snapshot)
    requires at.Lawful() && Fresh(ws) && SavesAgree(at, base, ws)
    requires Snapshotted(at, base, ws, All(at, ws), a) && Snapshotted(at, base, ws, All(at, ws), b)
    ensures a == b
  {
    hide Saved, Takes, IndexAfter, Placement.Lawful, Final, Successes;
  }

  lemma AgreeingSnapshots(at: Placement, base: RaidState, ws: seq<Writer>, a: seq<nat>, b: seq<nat>)
    requires WellFormed(at, base.img) && Fresh(ws) && Compatible(at, ws) && SizesAgree(at, ws)
    requires SavesAgree(at, base, ws) && Complete(at, base, ws, a) && Complete(at, base, ws, b)
    ensures SameSnapshot(at, base, ws, a, b)
  {
    hide Inv, Compatible, SizesAgree, Snapshotted, SavesAgree;
    var r, s := Exec(at, System(base, ws), a), Exec(at, System(base, ws), b);
    ExecKeepsInv(at, base, ws, a);
    ExecKeepsInv(at, base, ws, b);
    ExecSnapshots(at, base, ws, a);
    ExecSnapshots(at, base, ws, b);
    FinishedDone(at, base, ws, r);
    FinishedDone(at, base, ws, s);
    AgreeingSaves(at, base, ws, r.raid.saved, s.raid.saved);
  }

  /** The writers of a set of successes, run before all others: the index is base with their entries. */
  lemma RunFirst(at: Placement, base: RaidState, ws: seq<Writer>, todo: set<nat>)
    returns (schedule: seq<nat>, s: System)
    requires WellFormed(at, base.img) && Fresh(ws) && Compatible(at, ws) && SizesAgree(at, ws)
    requires todo <= All(at, ws)
    ensures s == Exec(at, System(base, ws), schedule) && |s.writers| == |ws|
    ensures forall k: nat | k < |ws| :: s.writers[k] == if k in todo then Final(at, ws[k]) else ws[k]
    ensures Done(s.writers) == todo && IndexAfter(base.index, ws, todo, s.raid.index)
    ensures Snapshotted(at, base, ws, todo, s.raid.saved)
  {
    assert at.Lawful();
    hide *;
    schedule, s := RunSet(at, System(base, ws), ws, todo, |ws|);
    ExecKeepsIndexed(at, base, ws, schedule);
    ExecSnapshots(at, base, ws, schedule);
    IndexedIsAfter(base, ws, s);
    DoneIs(at, ws, s.writers, todo);
    AllInside(at, ws, todo);
  }

  lemma AllInside(at: Placement, ws: seq<Writer>, todo: set<nat>)
    requires at.Lawful() && Fresh(ws) && todo <= All(at, ws)
    ensures forall k | k in todo :: k < |ws|
  {
    hide Final, Placement.Lawful;
  }

  lemma DoneIs(at: Placement, ws: seq<Writer>, us: seq<Writer>, todo: set<nat>)
    requires at.Lawful() && Fresh(ws) && |us| == |ws| && todo <= All(at, ws)
    requires forall k: nat | k < |ws| :: us[k] == if k < |ws| && k in todo then Final(at, ws[k]) else ws[k]
    ensures Done(us) == todo
  {
    hide Final, Placement.Lawful;
    forall k: nat
      ensures k in Done(us) <==> k in todo
    {
    }
  }

  lemma TakenOver(at: Placement, base: RaidState, ws: seq<Writer>, done: set<nat>, before: Snapshot,
                  index: map<nat, nat>, io: SaveIo)
    requires at.Lawful() && Fresh(ws) && Snapshotted(at, base, ws, done, before) && Takes(base.saved, io)
    ensures Saved(before, index, io) == Saved(base.saved, index, io)
  {
    hide Final, Placement.Lawful, Takes, IndexAfter, Saved;
    if w: nat, upTo: set<nat>, at0: map<nat, nat> :|
      LastSave(at, base, ws, done, w, upTo, at0) && before == Saved(base.saved, at0, ws[w].faults.save) {
      SavedOver(base.saved, at0, ws[w].faults.save, index, io);
    }
  }

  lemma MovedSaves(at: Placement, s: System, i: nat, w: Writer, w1: Writer, r: System)
    requires WellFormed(at, s.raid.img) && Moved(at, s, i, w, w1, r) && !Succeeded(w) && Succeeded(w1)
    ensures r.raid.saved == Saved(s.raid.saved, r.raid.index, w.faults.save)
  {
    hide View, Overlay, Gain, Reach, WellFormed, Placement.Lawful;
  }

  /** After a save that can be the last one, no other writer saves. */
  lemma RestDoesNotSave(at: Placement, base: RaidState, ws: seq<Writer>, w: nat, upTo: set<nat>, index: map<nat, nat>)
    requires at.Lawful() && Fresh(ws) && LastSave(at, base, ws, All(at, ws), w, upTo, index)
    ensures var now := Saved(base.saved, index, ws[w].faults.save);
            NoneSaves(at, now, ws, AllBut(|ws|, upTo), |ws|)
  {
    hide Final, Placement.Lawful, Takes, IndexAfter, Saved;
    var now := Saved(base.saved, index, ws[w].faults.save);
    forall k: nat | k < |ws| && k !in upTo
      ensures !Saves(at, now, ws[k])
    {
      SameKind(base.saved, index, ws[w].faults.save, ws[k].faults.save);
      assert Succeeded(Final(at, ws[k])) ==> k in All(at, ws);
    }
  }

  lemma AllHaveFinished(at: Placement, ws: seq<Writer>, upTo: set<nat>, s: System, r: System)
    requires at.Lawful() && Fresh(ws) && |s.writers| == |ws| == |r.writers|
    requires forall k: nat | k < |ws| && k in upTo :: s.writers[k] == Final(at, ws[k])
    requires forall k: nat | k < |ws| ::
               r.writers[k] == if k in AllBut(|ws|, upTo) then Final(at, ws[k]) else s.writers[k]
    ensures AllFinished(r)
  {
    hide Final, Placement.Lawful;
  }

  lemma LastSaveGives(at: Placement, base: RaidState, ws: seq<Writer>, w: nat, upTo: set<nat>, index: map<nat, nat>)
    requires at.Lawful() && Fresh(ws) && LastSave(at, base, ws, All(at, ws), w, upTo, index)
    ensures w in upTo && w < |ws| && Sound(at, ws[w]) && NotStarted(ws[w])
    ensures upTo - {w} <= All(at, ws) && upTo - {w} + {w} == upTo
    ensures Succeeded(Final(at, ws[w])) && Takes(base.saved, ws[w].faults.save) && !Succeeded(ws[w])
    ensures IndexAfter(base.index, ws, upTo, index)
  {
  }

  /** The writers of upTo, w as the last of them, run before all others. */
  lemma RunUpTo(at: Placement, base: RaidState, ws: seq<Writer>, w: nat, upTo: set<nat>, index: map<nat, nat>)
    returns (schedule: seq<nat>, s: System)
    requires WellFormed(at, base.img) && Fresh(ws) && Compatible(at, ws) && SizesAgree(at, ws)
    requires LastSave(at, base, ws, All(at, ws), w, upTo, index)
    ensures s == Exec(at, System(base, ws), schedule) && |s.writers| == |ws|
    ensures forall k: nat | k < |ws| :: s.writers[k] == if k in upTo then Final(at, ws[k]) else ws[k]
    ensures s.raid.saved == Saved(base.saved, index, ws[w].faults.save)
  {
    assert at.Lawful();
    LastSaveGives(at, base, ws, w, upTo, index);
    hide *;
    var first, s1 := RunFirst(at, base, ws, upTo - {w});
    assert s1.writers[w] == ws[w];
    var second;
    second, s := RunOut(at, s1, w);
    ExecConcat(at, System(base, ws), first, second);
    schedule := first + second;
    ExecKeepsIndexed(at, base, ws, schedule);
    IndexedIsAfter(base, ws, s);
    DoneAfter(s1.writers, w, Final(at, ws[w]));
    IndexAfterUnique(base.index, ws, upTo, s.raid.index, index);
    MovedSaves(at, s1, w, ws[w], Final(at, ws[w]), s);
    TakenOver(at, base, ws, upTo - {w}, s1.raid.saved, index, ws[w].faults.save);
  }

  /** Any save that can be the last one is the last one of some complete interleaving. */
  lemma Realise(at: Placement, base: RaidState, ws: seq<Writer>, w: nat, upTo: set<nat>, index: map<nat, nat>)
    returns (schedule: seq<nat>)
    requires WellFormed(at, base.img) && Fresh(ws) && Compatible(at, ws) && SizesAgree(at, ws)
    requires LastSave(at, base, ws, All(at, ws), w, upTo, index)
    ensures Complete(at, base, ws, schedule)
    ensures Exec(at, System(base, ws), schedule).raid.saved == Saved(base.saved, index, ws[w].faults.save)
  {
    assert at.Lawful();
    hide *;
    var first, s := RunUpTo(at, base, ws, w, upTo, index);
    RestDoesNotSave(at, base, ws, w, upTo, index);
    var rest, r := RunSet(at, s, ws, AllBut(|ws|, upTo), |ws|);
    ExecConcat(at, System(base, ws), first, rest);
    schedule := first + rest;
    AllHaveFinished(at, ws, upTo, s, r);
    AllFinishedIsComplete(at, base, ws, schedule);
  }

  /** For Writes that leave one index in all interleavings, under any faults: all complete interleavings
      leave the same snapshot if and only if every save that can be the last one leaves the same. */
  lemma SnapshotsAgreeIff(at: Placement, base: RaidState, ws: seq<Writer>)
    requires WellFormed(at, base.img) && Fresh(ws) && Compatible(at, ws) && SizesAgree(at, ws)
    ensures (forall a: seq<nat>, b: seq<nat> | Complete(at, base, ws, a) && Complete(at, base, ws, b) ::
               SameSnapshot(at, base, ws, a, b))
            <==> SavesAgree(at, base, ws)
  {
    assert at.Lawful();
    hide *;
    if SavesAgree(at, base, ws) {
      forall a: seq<nat>, b: seq<nat> | Complete(at, base, ws, a) && Complete(at, base, ws, b)
        ensures SameSnapshot(at, base, ws, a, b)
      {
        AgreeingSnapshots(at, base, ws, a, b);
      }
    } else {
      var a, b := TwoSnapshots(at, base, ws);
    }
  }

  lemma TwoSnapshots(at: Placement, base: RaidState, ws: seq<Writer>) returns (x: seq<nat>, y: seq<nat>)
    requires WellFormed(at, base.img) && Fresh(ws) && Compatible(at, ws) && SizesAgree(at, ws)
    requires !SavesAgree(at, base, ws)
    ensures Complete(at, base, ws, x) && Complete(at, base, ws, y) && !SameSnapshot(at, base, ws, x, y)
  {
    var w: nat, s: set<nat>, a: map<nat, nat>, v: nat, t: set<nat>, b: map<nat, nat> :|
      LastSave(at, base, ws, All(at, ws), w, s, a) && LastSave(at, base, ws, All(at, ws), v, t, b)
      && Saved(base.saved, a, ws[w].faults.save) != Saved(base.saved, b, ws[v].faults.save);
    hide *;
    x := Realise(at, base, ws, w, s, a);
    y := Realise(at, base, ws, v, t, b);
  }

  /** Then it is the snapshot of serving them one after another in any order. */
  lemma SnapshotsSerialise(at: Placement, base: RaidState, ws: seq<Writer>, schedule: seq<nat>, order: seq<nat>)
    requires WellFormed(at, base.img) && Fresh(ws) && Compatible(at, ws) && SizesAgree(at, ws)
    requires SavesAgree(at, base, ws) && Complete(at, base, ws, schedule)
    requires Distinct(order, |ws|) && forall i: nat | i < |ws| :: i in order
    ensures Exec(at, System(base, ws), schedule).raid.saved == Run(at, base, Serially(ws, order)).0.saved
  {
    hide Inv, Indexed, Compatible, SizesAgree, SavesAgree;
    var serial, r := SerialIsSchedule(at, base, ws, order);
    SerialFinishesAll(at, base, ws, order, r);
    AgreeingSnapshots(at, base, ws, schedule, serial);
  }

  // ---- Saves that are complete or do not open ----

  ghost predicate NoCuts(ws: seq<Writer>) {
    forall i | 0 <= i < |ws| :: !ws[i].faults.save.Cut?
  }

  /** The writer's entry is in the index whoever saves last: some writer at its offset saves, or the
      index recorded the size from the start. */
  ghost predicate EntrySaved(at: Placement, base: RaidState, ws: seq<Writer>, i: nat)
    requires at.Lawful() && Fresh(ws) && i < |ws|
  {
    || Recorded(base.index, ws[i].offset) == Some(|ws[i].data|)
    || exists j :: 0 <= j < |ws| && ws[j].offset == ws[i].offset && Saves(at, base.saved, ws[j])
  }

  ghost predicate EntriesSaved(at: Placement, base: RaidState, ws: seq<Writer>)
    requires at.Lawful() && Fresh(ws)
  {
    || (forall j | 0 <= j < |ws| :: !Saves(at, base.saved, ws[j]))
    || forall i | 0 <= i < |ws| && Succeeded(Final(at, ws[i])) :: EntrySaved(at, base, ws, i)
  }

  /** Offsets and sizes of the writers and of the index are 64-bit values. */
  ghost predicate Writers64(base: RaidState, ws: seq<Writer>) {
    Fits64(base.index) && forall i | 0 <= i < |ws| :: ws[i].offset < U64 && |ws[i].data| < U64
  }

  lemma AfterFits64(base: RaidState, ws: seq<Writer>, done: set<nat>, index: map<nat, nat>)
    requires Writers64(base, ws) && IndexAfter(base.index, ws, done, index)
    ensures Fits64(index)
  {
    forall k | k in index
      ensures k < U64 && index[k] < U64
    {
      assert Recorded(index, k) == Some(index[k]);
      if i :| i in done && i < |ws| && ws[i].offset == k {
        assert Recorded(index, ws[i].offset) == Some(|ws[i].data|);
      } else {
        assert forall i | i in done && i < |ws| :: ws[i].offset != k;
        assert Recorded(base.index, k) == Recorded(index, k);
      }
    }
  }

  /** The size a possible last save has at the offset of a writer that succeeds. */
  lemma EntryAtLastSave(at: Placement, base: RaidState, ws: seq<Writer>, w: nat, upTo: set<nat>,
                        index: map<nat, nat>, i: nat)
    requires at.Lawful() && Fresh(ws) && SizesAgree(at, ws) && LastSave(at, base, ws, All(at, ws), w, upTo, index)
    requires i < |ws| && Succeeded(Final(at, ws[i])) && EntrySaved(at, base, ws, i)
    ensures Recorded(index, ws[i].offset) == Some(|ws[i].data|)
  {
    hide Final, Placement.Lawful, Takes, Recorded;
    if j: nat :| j < |ws| && ws[j].offset == ws[i].offset && Saves(at, base.saved, ws[j]) {
      assert j in All(at, ws);
      assert j in upTo && |ws[j].data| == |ws[i].data|;
      assert Recorded(index, ws[j].offset) == Some(|ws[j].data|);
    } else if j :| j in upTo && j < |ws| && ws[j].offset == ws[i].offset {
      assert Succeeded(Final(at, ws[j])) && |ws[j].data| == |ws[i].data|;
      assert Recorded(index, ws[j].offset) == Some(|ws[j].data|);
    } else {
      assert forall j | j in upTo && j < |ws| :: ws[j].offset != ws[i].offset;
    }
  }

  lemma LastSavesSame(at: Placement, base: RaidState, ws: seq<Writer>, w: nat, s: set<nat>, a: map<nat, nat>,
                      v: nat, t: set<nat>, b: map<nat, nat>)
    requires at.Lawful() && Fresh(ws) && SizesAgree(at, ws) && EntriesSaved(at, base, ws)
    requires LastSave(at, base, ws, All(at, ws), w, s, a) && LastSave(at, base, ws, All(at, ws), v, t, b)
    ensures a == b
  {
    assert Saves(at, base.saved, ws[w]);
    hide Final, Placement.Lawful, Takes, Recorded, EntrySaved, SizesAgree;
    forall k
      ensures Recorded(a, k) == Recorded(b, k)
    {
      if i: nat :| i < |ws| && Succeeded(Final(at, ws[i])) && ws[i].offset == k {
        EntryAtLastSave(at, base, ws, w, s, a, i);
        EntryAtLastSave(at, base, ws, v, t, b, i);
      } else {
        NoEntry(at, base, ws, w, s, a, k);
        NoEntry(at, base, ws, v, t, b, k);
      }
    }
    SameRecords(a, b);
  }

  lemma NoEntry(at: Placement, base: RaidState, ws: seq<Writer>, w: nat, upTo: set<nat>, index: map<nat, nat>, k: nat)
    requires at.Lawful() && Fresh(ws) && LastSave(at, base, ws, All(at, ws), w, upTo, index)
    requires forall i: nat | i < |ws| && Succeeded(Final(at, ws[i])) :: ws[i].offset != k
    ensures Recorded(index, k) == Recorded(base.index, k)
  {
    hide Final, Placement.Lawful, Takes, Recorded;
    assert forall i | i in upTo && i < |ws| :: i in All(at, ws);
  }

  /** The writers whose saves reach the store. */
  function Savers(at: Placement, saved: Snapshot, ws: seq<Writer>, n: nat): (r: set<nat>)
    requires at.Lawful() && Fresh(ws) && n <= |ws|
    ensures forall k: nat ::
              k in r <==> k < n && Final(at, ws[k]).phase == Finished(true) && Takes(saved, ws[k].faults.save)
  {
    if n == 0 then {}
    else
      Savers(at, saved, ws, n - 1) +
      if Final(at, ws[n - 1]).phase == Finished(true) && Takes(saved, ws[n - 1].faults.save) then {n - 1} else {}
  }

  /** Where the entry of a writer is not saved by all means, two possible last saves differ in it. */
  lemma EntryMissed(at: Placement, base: RaidState, ws: seq<Writer>, i: nat, w: nat)
    returns (s: set<nat>, a: map<nat, nat>, t: set<nat>, b: map<nat, nat>)
    requires WellFormed(at, base.img) && Fresh(ws) && Compatible(at, ws) && SizesAgree(at, ws)
    requires i < |ws| && Succeeded(Final(at, ws[i])) && !EntrySaved(at, base, ws, i)
    requires w < |ws| && Saves(at, base.saved, ws[w])
    ensures LastSave(at, base, ws, All(at, ws), w, s, a) && LastSave(at, base, ws, All(at, ws), w, t, b) && a != b
  {
    assert at.Lawful();
    s := Savers(at, base.saved, ws, |ws|);
    t := s + {i};
    assert s <= All(at, ws) && t <= All(at, ws) && w in s;
    assert forall j | j in s && j < |ws| :: ws[j].offset != ws[i].offset;
    hide Compatible, SizesAgree, WellFormed, Snapshotted, Final, Placement.Lawful, Takes, Recorded;
    var x, r := RunFirst(at, base, ws, s);
    var y, q := RunFirst(at, base, ws, t);
    a, b := r.raid.index, q.raid.index;
    assert Recorded(a, ws[i].offset) == Recorded(base.index, ws[i].offset);
    assert i in t && Recorded(b, ws[i].offset) == Some(|ws[i].data|);
  }

  /** Different indices leave different snapshots. */
  lemma SnapshotsTellApart(base: RaidState, ws: seq<Writer>, s: set<nat>, a: map<nat, nat>,
                           t: set<nat>, b: map<nat, nat>,
                           io: SaveIo)
    requires Writers64(base, ws) && IndexAfter(base.index, ws, s, a) && IndexAfter(base.index, ws, t, b)
    requires Takes(base.saved, io) && !io.Cut? && a != b
    ensures Saved(base.saved, a, io) != Saved(base.saved, b, io)
  {
    AfterFits64(base, ws, s, a);
    AfterFits64(base, ws, t, b);
    hide Saved, IndexAfter, Fits64, Loaded, Takes;
    SavedThenLoaded(base.saved, a, io);
    SavedThenLoaded(base.saved, b, io);
  }

  /** With saves that are complete or do not open: the possible last saves leave the same if and only
      if none reaches the store, or the entry of every writer that succeeds is in the index at each. */
  lemma SavesAgreeIff(at: Placement, base: RaidState, ws: seq<Writer>)
    requires WellFormed(at, base.img) && Fresh(ws) && Compatible(at, ws) && SizesAgree(at, ws)
    requires NoCuts(ws) && Writers64(base, ws)
    ensures SavesAgree(at, base, ws) <==> EntriesSaved(at, base, ws)
  {
    if EntriesSaved(at, base, ws) {
      forall w: nat, s: set<nat>, a: map<nat, nat>, v: nat, t: set<nat>, b: map<nat, nat> |
        LastSave(at, base, ws, All(at, ws), w, s, a) && LastSave(at, base, ws, All(at, ws), v, t, b)
        ensures Saved(base.saved, a, ws[w].faults.save) == Saved(base.saved, b, ws[v].faults.save)
      {
        LastSavesSame(at, base, ws, w, s, a, v, t, b);
        SavedAlike(base.saved, a, ws[w].faults.save, ws[v].faults.save);
      }
    } else {
      var i: nat :| i < |ws| && Succeeded(Final(at, ws[i])) && !EntrySaved(at, base, ws, i);
      var w: nat :| w < |ws| && Saves(at, base.saved, ws[w]);
      var s, a, t, b := EntryMissed(at, base, ws, i, w);
      SnapshotsTellApart(base, ws, s, a, t, b, ws[w].faults.save);
      assert !SavesAgree(at, base, ws);
    }
  }

  lemma SavedAlike(s: Snapshot, index: map<nat, nat>, a: SaveIo, b: SaveIo)
    requires Takes(s, a) && Takes(s, b) && !a.Cut? && !b.Cut?
    ensures Saved(s, index, a) == Saved(s, index, b)
  {
  }

  /** Two writers that agree on the data and the index: a byte at 0 whose save is complete, and one at 1
      whose save does not open. What a restarted server loads depends on which is served first. */
  lemma SnapshotDependsOnOrder(at: Placement, base: RaidState, order: ByteOrder, x: byte, y: byte)
    requires WellFormed(at, base.img) && at.capacity > 1
    requires base.index == map[] && base.saved == FileSnapshot(order, None)
    ensures at.Lawful()
    ensures var ws := [Writer(0, [x], NoFaults, 0, ToPrimary),
                       Writer(1, [y], NoFaults.(save := NotOpened), 0, ToPrimary)];
            && Fresh(ws) && Compatible(at, ws) && SizesAgree(at, ws)
            && Loaded(Run(at, base, Serially(ws, [0, 1])).0.saved, true) == map[0 := 1]
            && Loaded(Run(at, base, Serially(ws, [1, 0])).0.saved, true) == map[0 := 1, 1 := 1]
  {
    var ws := [Writer(0, [x], NoFaults, 0, ToPrimary), Writer(1, [y], NoFaults.(save := NotOpened), 0, ToPrimary)];
    DisjointWritesAreCompatible(at, ws);
    var c, d := Call(Write(0, [x]), NoFaults), Call(Write(1, [y]), NoFaults.(save := NotOpened));
    assert Serially(ws, [0, 1]) == [c, d] && Serially(ws, [1, 0]) == [d, c];
    hide *;
    ServedTwice(at, base, c, d);
    ServedTwice(at, base, d, c);
    LoadedFirst(order);
    LoadedLast(order);
  }

  lemma LoadedFirst(order: ByteOrder)
    ensures var s := FileSnapshot(order, None);
            Loaded(Saved(Saved(s, map[][0 := 1], Written), map[][0 := 1][1 := 1], NotOpened), true) == map[0 := 1]
  {
    var s: Snapshot := FileSnapshot(order, None);
    var a: map<nat, nat>, b: map<nat, nat> := map[][0 := 1], map[][0 := 1][1 := 1];
    assert Fits64(a) && Takes(s, Written) && !Takes(s, NotOpened) && Kept(s, a, Written) == a;
    SameKind(s, a, Written, NotOpened);
    hide *;
    SavedThenLoaded(s, a, Written);
    NotTaken(Saved(s, a, Written), b, NotOpened);
  }

  lemma LoadedLast(order: ByteOrder)
    ensures var s := FileSnapshot(order, None);
            Loaded(Saved(Saved(s, map[][1 := 1], NotOpened), map[][1 := 1][0 := 1], Written), true) ==
            map[0 := 1, 1 := 1]
  {
    var s: Snapshot := FileSnapshot(order, None);
    var a: map<nat, nat>, b: map<nat, nat> := map[][1 := 1], map[][1 := 1][0 := 1];
    assert b == map[0 := 1, 1 := 1];
    assert Fits64(b) && Takes(s, Written) && !Takes(s, NotOpened) && Kept(s, b, Written) == b;
    hide *;
    NotTaken(s, a, NotOpened);
    SavedThenLoaded(s, b, Written);
  }

  /** Two in-range Writes of a byte each, one after the other. */
  lemma ServedTwice(at: Placement, s: RaidState, a: Call, b: Call)
    requires WellFormed(at, s.img)
    requires a.op.Write? && |a.op.data| == 1 && a.op.offset < at.capacity && WritesDone(a.faults)
    requires b.op.Write? && |b.op.data| == 1 && b.op.offset < at.capacity && WritesDone(b.faults)
    ensures var first := s.index[a.op.offset := 1];
            Run(at, s, [a, b]).0.saved ==
            Saved(Saved(s.saved, first, a.faults.save), first[b.op.offset := 1], b.faults.save)
  {
    TwoCalls(at, s, a, b);
    ServedByte(at, s, a);
    ServedByte(at, RaidStep(at, s, a.op, a.faults).0, b);
    hide RaidStep, Saved, WellFormed, Run;
  }

  lemma ServedByte(at: Placement, s: RaidState, call: Call)
    requires WellFormed(at, s.img)
    requires call.op.Write? && |call.op.data| == 1 && call.op.offset < at.capacity && WritesDone(call.faults)
    ensures var (r, response) := RaidStep(at, s, call.op, call.faults);
            && r.index == s.index[call.op.offset := 1] && r.saved == Saved(s.saved, r.index, call.faults.save)
  {
    FaultFreeWrite(at, s.img, call.op.offset, call.op.data, call.faults.write, Primary);
  }

  lemma TwoCalls(at: Placement, s: RaidState, a: Call, b: Call)
    requires WellFormed(at, s.img)
    ensures Run(at, s, [a, b]).0 == RaidStep(at, RaidStep(at, s, a.op, a.faults).0, b.op, b.faults).0
  {
    hide RaidStep;
    assert [a, b][..1] == [a] && [a][..0] == [];
    assert Run(at, s, []).0 == s;
    assert Run(at, s, [a]).0 == RaidStep(at, s, a.op, a.faults).0;
  }
}
