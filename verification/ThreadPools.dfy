// ThreadPool and its queue, with the loops of Suspend, Stop and SetSize. Between any two of the
// controller's steps the workers may take any number of theirs.
module ThreadPools {
  import opened PoolSpec

  class WPQ {
    var items: multiset<Command>

    constructor ()
      ensures items == multiset{}
    {
      items := multiset{};
    }

    method Push(c: Command)
      modifies this
      ensures items == old(items) + multiset{c}
    {
      items := items + multiset{c};
    }

    /** Callers block until the queue is not empty. */
    method Pop() returns (c: Command)
      requires items != multiset{}
      modifies this
      ensures IsTop(old(items), c) && items == old(items) - multiset{c}
    {
      assert exists d :: d in items && forall e | e in items :: !d.Less(e) by {
        var d := Top(items);
      }
      c :| c in items && forall e | e in items :: !c.Less(e);
      items := items - multiset{c};
    }

    method IsEmpty() returns (empty: bool)
      ensures empty <==> items == multiset{}
    {
      empty := |items| == 0;
    }
  }

  class ThreadPool {
    const queue: WPQ
    var threads: seq<Worker>
    var suspendFlag: bool
    ghost var control: Controller
    ghost var submitted: multiset<Task>
    ghost var done: seq<Task>
    ghost var stale: nat

    ghost function State(): Pool
      reads this, queue
    {
      Pool(queue.items, threads, suspendFlag, control, submitted, done, stale)
    }

    ghost predicate Valid()
      reads this, queue
    {
      Inv(State())
    }

    constructor (threadsNum: nat)
      ensures State() == Start(threadsNum) && Valid() && fresh(queue)
      ensures |threads| == threadsNum && (forall w | 0 <= w < threadsNum :: threads[w] == Idle)
      ensures queue.items == multiset{} && !suspendFlag && control == Ready && submitted == multiset{} && done == []
    {
      queue := new WPQ();
      threads := seq(threadsNum, _ => Idle);
      suspendFlag := false;
      control, submitted, done, stale := Ready, multiset{}, [], 0;
      StartInv(threadsNum);
    }

    method AddCommand(task: Task)
      requires Valid()
      modifies this`submitted, queue
      ensures Valid() && State() == Do(old(State()), PoolSpec.AddCommand(task))
      ensures queue.items == old(queue.items) + multiset{Execute(task)}
      ensures submitted == old(submitted) + multiset{task} && threads == old(threads)
    {
      ghost var before := State();
      queue.Push(Execute(task));
      submitted := submitted + multiset{task};
      StepKeepsInv(before, PoolSpec.AddCommand(task));
    }

    // ---- ThreadFunc ----

    /** Worker w has something to do: finish a command, leave a wait, or pop. */
    predicate CanStep(w: nat)
      reads this, queue
    {
      w < |threads| &&
      match threads[w]
      case Running(_) => true
      case Blocked => !suspendFlag
      case Idle => |queue.items| > 0
      case Exited => false
    }

    /** One step of the loop of ThreadFunc. */
    method WorkerStep(w: nat) returns (ghost a: Action)
      requires CanStep(w)
      modifies this`threads, this`done, queue
      ensures (a.Pop? || a.Finish? || a.Wake?) && a.worker == w
      ensures Enabled(old(State()), a) && State() == Do(old(State()), a)
    {
      match threads[w]
      case Running(t) =>
        a := Finish(w);
        threads := threads[w := Idle];
        done := done + [t];
      case Blocked =>
        a := Wake(w);
        threads := threads[w := Idle];
      case Idle =>
        var c := queue.Pop();
        a := PoolSpec.Pop(w, c);
        threads := threads[w := Taken(c)];
    }

    /** What the workers leave alone, and what they keep, whatever steps they take. */
    twostate predicate OnlyWorkers()
      reads this, queue
    {
      && control == old(control) && submitted == old(submitted) && suspendFlag == old(suspendFlag)
      && stale == old(stale) && |threads| == |old(threads)|
      && (forall w | 0 <= w < |threads| :: old(threads)[w] == Exited ==> threads[w] == Exited)
      && WorkLeft(State()) <= old(WorkLeft(State()))
      && Held(State()) <= old(Held(State())) && (suspendFlag ==> Held(State()) == old(Held(State())))
      && (old(Draining(State())) && (control.Stopping? || control.Joining?) ==> Draining(State()))
      && (old(AllExited(threads)) ==> State() == old(State()))
      && (old(Barrier(State())) ==> Barrier(State()))
    }

    twostate lemma WorkerStepEffect(a: Action)
      requires old(Valid()) && Enabled(old(State()), a) && State() == Do(old(State()), a)
      requires a.Pop? || a.Finish? || a.Wake?
      ensures Valid() && OnlyWorkers() && WorkLeft(State()) < old(WorkLeft(State()))
    {
      hide Inv, Enabled, Do, Barrier, Draining, Held, WorkLeft;
      ghost var p := old(State());
      StepKeepsInv(p, a);
      WorkerStepUses(p, a);
      WorkerStepHolds(p, a);
      if Barrier(p) {
        StepKeepsBarrier(p, a);
      }
      if Draining(p) && (p.control.Stopping? || p.control.Joining?) {
        StepKeepsDraining(p, a);
      }
    }

    /** The workers run: any number of steps, by any of them. */
    method Work()
      requires Valid()
      modifies this`threads, this`done, queue
      ensures Valid() && OnlyWorkers()
    {
      while *
        invariant Valid() && OnlyWorkers()
        decreases WorkLeft(State())
      {
        var more := Advance();
        if !more {
          break;
        }
      }
    }

    /** Some worker takes a step, if any can. */
    method Advance() returns (more: bool)
      requires Valid()
      modifies this`threads, this`done, queue
      ensures Valid() && OnlyWorkers()
      ensures more ==> WorkLeft(State()) < old(WorkLeft(State()))
      ensures (exists w: nat :: old(CanStep(w))) ==> more
    {
      more := false;
      if w: nat :| w < |threads| && CanStep(w) {
        ghost var a := WorkerStep(w);
        WorkerStepEffect(a);
        more := true;
      }
    }

    // ---- The controller's calls ----

    /** When it returns, every worker has a suspend token to take or has taken one: this call added
        exactly one for each. */
    method Suspend()
      requires Valid() && (control == Ready || control == Stopped)
      modifies this, queue
      ensures Valid() && control == old(control) && Barrier(State())
      ensures submitted == old(submitted) && |threads| == |old(threads)|
      ensures Held(State()) == old(Held(State())) + |threads|
    {
      StepKeepsInv(State(), BeginSuspend);
      suspendFlag := true;
      ghost var stopped := control == Stopped;
      control := AfterSuspendPush(|threads|, stopped);
      PushSuspends(stopped);
    }

    /** The loop of Suspend. */
    method PushSuspends(ghost stopped: bool)
      requires Valid() && suspendFlag && control == AfterSuspendPush(|threads|, stopped)
      modifies this`control, this`threads, this`done, queue
      ensures Valid() && control == AfterSuspendPush(0, stopped) && |threads| == |old(threads)|
      ensures Held(State()) == old(Held(State())) + |threads|
    {
      hide Inv, Barrier, Draining, WorkLeft, Held;
      var i := 0;
      while i < |threads|
        invariant i <= |threads| == |old(threads)|
        invariant Valid() && control == AfterSuspendPush(|threads| - i, stopped)
        invariant Held(State()) == old(Held(State())) + i
        decreases |old(threads)| - i
      {
        Work();
        PushSuspendToken();
        i := i + 1;
      }
    }

    method PushSuspendToken()
      requires Valid() && control.Suspending? && control.left > 0
      modifies this`control, queue
      ensures Valid() && State() == Do(old(State()), PushSuspend)
      ensures Held(State()) == old(Held(State())) + 1
    {
      StepKeepsInv(State(), PushSuspend);
      queue.Push(SuspendToken);
      control := AfterSuspendPush(control.left - 1, control.stopped);
    }

    method Resume()
      requires Valid() && (control == Ready || control == Stopped)
      modifies this`suspendFlag
      ensures Valid() && State() == Do(old(State()), PoolSpec.Resume)
      ensures !suspendFlag && control == old(control) && threads == old(threads) && queue.items == old(queue.items)
    {
      StepKeepsInv(State(), PoolSpec.Resume);
      suspendFlag := false;
    }

    /** The body of Stop: a stop token for each worker, then wait for each to exit. */
    method PushAndJoin(ghost resize: nat)
      requires Valid() && (control == Ready || control == Stopped)
      modifies this, queue
      ensures Valid() && control == Joining(resize) && AllExited(threads) && !suspendFlag
      ensures submitted == old(submitted) && |threads| == |old(threads)|
      ensures stale == old(stale) + if old(control) == Stopped then |threads| else 0
      ensures old(Draining(State())) ==> Draining(State())
      ensures old(AllExited(threads)) ==>
                done == old(done) && forall c | c != StopToken :: queue.items[c] == old(queue.items)[c]
    {
      hide Conserved, StopsCounted, SuspendsCounted, WorkLeft, Barrier, Held;
      StepKeepsInv(State(), BeginStop(resize));
      stale := stale + if control == Stopped then |threads| else 0;
      suspendFlag := false;
      control := AfterStopPush(|threads|, resize);
      PushStops(resize);
      JoinAll(resize);
    }

    /** What the loops of Stop keep. */
    twostate predicate OnlyStops()
      reads this, queue
    {
      && |threads| == |old(threads)|
      && (old(Draining(State())) ==> Draining(State()))
      && (old(AllExited(threads)) ==>
            && AllExited(threads) && done == old(done)
            && forall c | c != StopToken :: queue.items[c] == old(queue.items)[c])
    }

    /** The second loop of Stop. A thread that has been joined before is not joinable, and skipped. */
    method JoinAll(ghost resize: nat)
      requires Valid() && control == Joining(resize)
      modifies this`threads, this`done, queue
      ensures Valid() && AllExited(threads) && OnlyStops()
    {
      hide Inv, Barrier, Draining, WorkLeft, Held;
      var i := 0;
      while i < |threads|
        invariant i <= |threads| && Valid() && OnlyStops()
        invariant forall w | 0 <= w < i :: threads[w] == Exited
        decreases |old(threads)| - i
      {
        Await(i);
        i := i + 1;
      }
    }

    /** The first loop of Stop. */
    method PushStops(ghost resize: nat)
      requires Valid() && control == AfterStopPush(|threads|, resize)
      modifies this`control, this`threads, this`done, queue
      ensures Valid() && control == Joining(resize) && OnlyStops()
    {
      hide Inv, Barrier, Draining, WorkLeft, Held, Do, AllExited;
      var i := 0;
      while i < |threads|
        invariant i <= |threads| && Valid() && OnlyStops()
        invariant control == AfterStopPush(|threads| - i, resize)
        decreases |old(threads)| - i
      {
        Work();
        PushStopToken();
        i := i + 1;
      }
    }

    method PushStopToken()
      requires Valid() && control.Stopping? && control.left > 0
      modifies this`control, queue
      ensures Valid() && State() == Do(old(State()), PushStop)
      ensures queue.items == old(queue.items) + multiset{StopToken} && threads == old(threads) && done == old(done)
      ensures control == AfterStopPush(old(control).left - 1, old(control).resize)
      ensures old(Draining(State())) ==> Draining(State())
    {
      StepKeepsInv(State(), PushStop);
      ghost var before := State();
      if Draining(before) {
        StepKeepsDraining(before, PushStop);
      }
      queue.Push(StopToken);
      control := AfterStopPush(control.left - 1, control.resize);
    }

    /** thread::join: returns when worker w has exited. It does, whichever workers run. */
    method Await(w: nat)
      requires Valid() && control.Joining? && w < |threads|
      modifies this`threads, this`done, queue
      ensures Valid() && OnlyWorkers() && threads[w] == Exited
    {
      while threads[w] != Exited
        invariant Valid() && OnlyWorkers()
        decreases WorkLeft(State())
      {
        ghost var a := NeverStuck(State());
        assert CanStep(a.worker);
        var more := Advance();
      }
    }

    /** Stop, of a running pool or one that was stopped before. When it returns all workers have
        exited. If some worker was live the queue holds Low commands only and every task above Low has
        been executed as often as it was submitted; if none was, nothing is executed and the queue
        gains a token for each. */
    method Stop()
      requires Valid() && (control == Ready || control == Stopped)
      modifies this, queue
      ensures Valid() && control == Stopped && AllExited(threads)
      ensures submitted == old(submitted) && |threads| == |old(threads)|
      ensures stale == old(stale) + if old(control) == Stopped then |threads| else 0
      ensures queue.items[StopToken] == stale
      ensures OnlyLow(queue.items) <==> !old(AllExited(threads)) || old(OnlyLow(queue.items))
      ensures AllDone(State()) <==> !old(AllExited(threads)) || old(NoTaskAboveLow(queue.items))
      ensures old(AllExited(threads)) ==>
                done == old(done) && forall c | c != StopToken :: queue.items[c] == old(queue.items)[c]
    {
      hide Conserved, SuspendsCounted, WorkLeft, Barrier, Held, AllDone;
      ghost var before := queue.items;
      PushAndJoin(0);
      StepKeepsInv(State(), Join);
      control := Stopped;
      CountsBounded(threads);
      DoneUnlessQueued(State());
      if old(AllExited(threads)) {
        SameAboveLow(before, queue.items);
      }
    }

    /** SetSize, of a running pool or one that was stopped before: it throws on 0; otherwise there are
        n new workers, no task is lost, no suspend token is left over to block a worker, and the stop
        tokens queued or taken are the stale ones. They are none unless the pool was stopped before;
        if it was, there is one for each worker it had. */
    method SetSize(n: nat) returns (ok: bool)
      requires Valid() && (control == Ready || control == Stopped)
      modifies this, queue
      ensures ok <==> n > 0
      ensures !ok ==> State() == old(State())
      ensures ok ==>
                && Valid() && control == Ready && !suspendFlag && submitted == old(submitted) && |threads| == n
                && stale == old(stale) + (if old(control) == Stopped then old(|threads|) else 0)
                && queue.items[StopToken] + Count(threads, Exited) == stale
                && (!old(AllExited(threads)) ==> Held(State()) == 0)
    {
      hide Conserved, SuspendsCounted, Barrier, WorkLeft;
      if n == 0 {
        return false;
      }
      PushAndJoin(n);
      StepKeepsInv(State(), Join);
      ghost var live := !old(AllExited(threads));
      if live {
        DrainedHoldsNothing(State());
      }
      threads := [];
      control := Spawning(n, n);
      InitThreads(n);
      ok := true;
    }

    /** The loop of InitThreads. */
    method InitThreads(n: nat)
      requires Valid() && control == AfterSpawn(n, n) && threads == []
      modifies this`control, this`threads, this`done, queue
      ensures Valid() && control == Ready && |threads| == n
      ensures Held(State()) <= old(Held(State()))
    {
      hide Inv, Barrier, Draining, WorkLeft, Held;
      var i := 0;
      while i < n
        invariant i <= n && Valid() && control == AfterSpawn(n - i, n) && |threads| == i
        invariant Held(State()) <= old(Held(State()))
      {
        Work();
        SpawnThread();
        i := i + 1;
      }
    }

    method SpawnThread()
      requires Valid() && control.Spawning? && control.left > 0
      modifies this`control, this`threads
      ensures Valid() && State() == Do(old(State()), Spawn)
      ensures Held(State()) == old(Held(State()))
    {
      hide Conserved, SuspendsCounted, StopsCounted;
      StepKeepsInv(State(), Spawn);
      threads := threads + [Idle];
      control := AfterSpawn(control.left - 1, control.resize);
      assert multiset(old(threads) + [Idle]) == multiset(old(threads)) + multiset{Idle};
    }
  }

  /** When a Stop has waited for its workers, no suspend token is queued or taken. */
  lemma DrainedHoldsNothing(p: Pool)
    requires AllExited(p.workers) && Draining(p)
    ensures Held(p) == 0
  {
    CountsBounded(p.workers);
    assert SuspendToken !in p.queue;
  }

  /** The workers add no suspend token, and take none for good while the flag is up. */
  lemma WorkerStepHolds(p: Pool, a: Action)
    requires Enabled(p, a) && (a.Pop? || a.Finish? || a.Wake?)
    ensures Held(Do(p, a)) <= Held(p)
    ensures p.suspendFlag ==> Held(Do(p, a)) == Held(p)
  {
    match a
    case Pop(w, c) =>
      assert p.queue[c] > 0;
      CountAfter(p.workers, w, Taken(c));
    case Finish(w) => CountAfter(p.workers, w, Idle);
    case Wake(w) => CountAfter(p.workers, w, Idle);
  }

  lemma WorkerStepUses(p: Pool, a: Action)
    requires Enabled(p, a) && (a.Pop? || a.Finish? || a.Wake?)
    ensures WorkLeft(Do(p, a)) < WorkLeft(p)
    ensures Do(p, a).control == p.control && Do(p, a).submitted == p.submitted && Do(p, a).suspendFlag == p.suspendFlag
    ensures |Do(p, a).workers| == |p.workers| && Do(p, a).stale == p.stale && !AllExited(p.workers)
    ensures forall w | 0 <= w < |p.workers| :: p.workers[w] == Exited ==> Do(p, a).workers[w] == Exited
  {
    hide WorkLeft, IsTop;
    assert p.workers[a.worker] != Exited;
    WorkUsed(p, a);
  }

  lemma WorkUsed(p: Pool, a: Action)
    requires Enabled(p, a) && (a.Pop? || a.Finish? || a.Wake?)
    ensures WorkLeft(Do(p, a)) < WorkLeft(p)
  {
    hide WorkLeft, IsTop, ControlLeft;
    if a.Pop? {
      PopDecreasesMeasure(p, a.worker, a.command);
    } else {
      ReturnDecreasesMeasure(p, a);
    }
  }
}
