// The mediator over whole runs of the pool: how many replies each received request gets.
module MediatorRuns {
  import opened PoolSpec
  import opened Requests

  /** kinds are the types of the requests received so far; request i became Task(i, Med). replies
      counts the SendReply calls made for each request. */
  datatype Served = Served(pool: Pool, kinds: seq<nat>, replies: multiset<nat>)

  /** A request arrives, or the pool takes a step other than being given a command. */
  datatype Event = Notify(kind: nat) | PoolStep(action: Action)

  function Begin(threads: nat): Served {
    Served(Start(threads), [], multiset{})
  }

  predicate CanHappen(s: Served, e: Event) {
    e.PoolStep? ==> !e.action.AddCommand? && Enabled(s.pool, e.action)
  }

  /** The requests answered by executing a task. */
  function AnswersOf(s: Served, t: Task): multiset<nat> {
    if t.id < |s.kinds| && GetsReply(s.kinds[t.id]) then multiset{t.id} else multiset{}
  }

  /** A worker that finishes a command has run the handler of its request. */
  function After(s: Served, e: Event): Served
    requires CanHappen(s, e)
  {
    match e
    case Notify(kind) =>
      Served(Do(s.pool, AddCommand(Task(|s.kinds|, Med))), s.kinds + [kind], s.replies)
    case PoolStep(a) =>
      Served(Do(s.pool, a), s.kinds,
             s.replies + if a.Finish? then AnswersOf(s, s.pool.workers[a.worker].task) else multiset{})
  }

  ghost predicate Next(states: seq<Served>, events: seq<Event>, i: nat)
    requires |states| == |events| + 1 && i < |events|
  {
    CanHappen(states[i], events[i]) && states[i + 1] == After(states[i], events[i])
  }

  ghost predicate MediatorRun(states: seq<Served>, events: seq<Event>) {
    |states| == |events| + 1 && forall i: nat | i < |events| :: Next(states, events, i)
  }

  /** One task was submitted for each request, and a request has a reply for each time its task
      was executed, if its type is answered. */
  ghost predicate Accounted(s: Served) {
    && Inv(s.pool)
    && (forall t: Task :: s.pool.submitted[t] == if t.priority == Med && t.id < |s.kinds| then 1 else 0)
    && (forall i: nat :: s.replies[i] == RepliesDue(s, i))
  }

  function RepliesDue(s: Served, i: nat): nat {
    if i < |s.kinds| && GetsReply(s.kinds[i]) then multiset(s.pool.done)[Task(i, Med)] else 0
  }

  lemma FinishedTaskIsAccounted(s: Served, w: nat)
    requires Accounted(s) && Enabled(s.pool, Finish(w))
    ensures var t := s.pool.workers[w].task; t.priority == Med && t.id < |s.kinds|
  {
    var t := s.pool.workers[w].task;
    CountsWorker(s.pool.workers, w);
    assert s.pool.submitted[t] > 0;
  }

  lemma NotifyKeepsAccount(s: Served, kind: nat)
    requires Accounted(s)
    ensures Accounted(After(s, Notify(kind)))
  {
    var r, n := After(s, Notify(kind)), |s.kinds|;
    StepKeepsInv(s.pool, AddCommand(Task(n, Med)));
    assert s.pool.submitted[Task(n, Med)] == 0;
    assert multiset(s.pool.done)[Task(n, Med)] == 0;
    forall i: nat
      ensures r.replies[i] == RepliesDue(r, i)
    {
      assert s.replies[i] == RepliesDue(s, i);
      assert i < n ==> r.kinds[i] == s.kinds[i];
    }
  }

  lemma FinishKeepsAccount(s: Served, w: nat)
    requires Accounted(s) && Enabled(s.pool, Finish(w))
    ensures Accounted(After(s, PoolStep(Finish(w))))
  {
    hide Inv, GetsReply, RepliesDue, AnswersOf, Do;
    FinishedTaskIsAccounted(s, w);
    StepKeepsInv(s.pool, Finish(w));
    FinishAdds(s.pool, w);
    RepliesAfterFinish(s, s.pool.workers[w].task, After(s, PoolStep(Finish(w))));
  }

  lemma FinishAdds(p: Pool, w: nat)
    requires Enabled(p, Finish(w))
    ensures Do(p, Finish(w)).done == p.done + [p.workers[w].task]
    ensures Do(p, Finish(w)).submitted == p.submitted
  {
  }

  lemma RepliesAfterFinish(s: Served, t: Task, r: Served)
    requires forall i: nat :: s.replies[i] == RepliesDue(s, i)
    requires t.priority == Med && t.id < |s.kinds|
    requires r.kinds == s.kinds && r.pool.done == s.pool.done + [t] && r.replies == s.replies + AnswersOf(s, t)
    ensures forall i: nat :: r.replies[i] == RepliesDue(r, i)
  {
    OneMoreDone(s.pool.done, t);
    forall i: nat
      ensures r.replies[i] == RepliesDue(r, i)
    {
      assert s.replies[i] == RepliesDue(s, i);
      assert t == Task(i, Med) <==> t.id == i;
    }
  }

  lemma OneMoreDone(done: seq<Task>, t: Task)
    ensures forall u :: multiset(done + [t])[u] == multiset(done)[u] + if u == t then 1 else 0
  {
    assert multiset(done + [t]) == multiset(done) + multiset{t};
  }

  lemma PoolStepKeepsAccount(s: Served, a: Action)
    requires Accounted(s) && CanHappen(s, PoolStep(a))
    ensures Accounted(After(s, PoolStep(a)))
  {
    hide Inv;
    if a.Finish? {
      FinishKeepsAccount(s, a.worker);
    } else {
      StepKeepsInv(s.pool, a);
      var r := After(s, PoolStep(a));
      assert r.pool.submitted == s.pool.submitted && r.pool.done == s.pool.done && r.replies == s.replies;
      forall i: nat
        ensures r.replies[i] == RepliesDue(r, i)
      {
        assert s.replies[i] == RepliesDue(s, i);
      }
    }
  }

  lemma EventKeepsAccount(s: Served, e: Event)
    requires Accounted(s) && CanHappen(s, e)
    ensures Accounted(After(s, e))
  {
    hide Accounted, After, CanHappen;
    match e
    case Notify(kind) => NotifyKeepsAccount(s, kind);
    case PoolStep(a) => PoolStepKeepsAccount(s, a);
  }

  lemma {:induction false} RunKeepsAccount(states: seq<Served>, events: seq<Event>, i: nat)
    requires MediatorRun(states, events) && Accounted(states[0]) && i <= |events|
    ensures Accounted(states[i])
    decreases i
  {
    hide Accounted, After, CanHappen;
    if i > 0 {
      RunKeepsAccount(states, events, i - 1);
      assert Next(states, events, i - 1);
      var before, event := states[i - 1], events[i - 1];
      EventKeepsAccount(before, event);
    }
  }

  lemma BeginIsAccounted(threads: nat)
    ensures Accounted(Begin(threads))
  {
    StartInv(threads);
  }

  /** No request is ever answered twice, at any point of any run. */
  lemma NeverTwoReplies(threads: nat, states: seq<Served>, events: seq<Event>, i: nat, request: nat)
    requires MediatorRun(states, events) && states[0] == Begin(threads) && i <= |events|
    ensures states[i].replies[request] <= 1
  {
    BeginIsAccounted(threads);
    RunKeepsAccount(states, events, i);
    assert states[i].pool.submitted[Task(request, Med)] <= 1;
  }

  /** The pool's part of the run from state j on. */
  function PoolStates(states: seq<Served>, j: nat): (r: seq<Pool>)
    requires j <= |states|
    ensures |r| == |states| - j && forall i | 0 <= i < |r| :: r[i] == states[j + i].pool
  {
    seq(|states| - j, i requires 0 <= i < |states| - j => states[j + i].pool)
  }

  function PoolActions(events: seq<Event>, j: nat): (r: seq<Action>)
    requires j <= |events| && forall i | j <= i < |events| :: events[i].PoolStep?
    ensures |r| == |events| - j && forall i | 0 <= i < |r| :: r[i] == events[j + i].action
  {
    seq(|events| - j, i requires 0 <= i < |events| - j => events[j + i].action)
  }

  lemma BeginStopEffect(p: Pool, resize: nat)
    requires Enabled(p, BeginStop(resize))
    ensures var r := Do(p, BeginStop(resize));
            r.workers == p.workers && r.queue == p.queue && r.control == AfterStopPush(|r.workers|, resize) && InStop(r)
  {
  }

  /** From the end of BeginStop on, the run is a Stop of the pool. */
  lemma StopPart(states: seq<Served>, events: seq<Event>, j: nat)
    requires MediatorRun(states, events) && j < |events| && Accounted(states[j]) && Accounted(states[j + 1])
    requires events[j] == PoolStep(BeginStop(0))
    requires forall i | j < i < |events| :: events[i].PoolStep? && InStop(states[i].pool)
    requires j + 1 < |events| || InStop(states[j + 1].pool)
    ensures var pools, acts := PoolStates(states, j + 1), PoolActions(events, j + 1);
            && StopExecution(pools, acts) && pools[0].control == AfterStopPush(|pools[0].workers|, 0)
            && pools[0].workers == states[j].pool.workers && pools[0].queue == states[j].pool.queue
  {
    hide Inv, RepliesDue, Enabled, InStop, Do, AfterStopPush;
    var pools, acts := PoolStates(states, j + 1), PoolActions(events, j + 1);
    assert Next(states, events, j);
    BeginStopEffect(states[j].pool, 0);
    forall i: nat | i < |acts|
      ensures Follows(pools, acts, i) && InStop(pools[i]) && !acts[i].AddCommand?
    {
      assert Next(states, events, j + 1 + i);
      assert events[j + 1 + i].PoolStep? && InStop(states[j + 1 + i].pool);
    }
  }

  /** READ, WRITE, FLUSH, TRIM, GET_SIZE and LIST_OFFSETS requests have one reply each, and no other
      number has any. */
  ghost predicate AllAnswered(s: Served) {
    forall i: nat :: s.replies[i] == if i < |s.kinds| && s.kinds[i] in {0, 1, 3, 4, 5, 6} then 1 else 0
  }

  /** What an execution of every task once means for the replies. */
  lemma AllExecuted(s: Served)
    requires Accounted(s) && AllDone(s.pool)
    ensures AllAnswered(s)
  {
    forall i: nat
      ensures s.replies[i] == if i < |s.kinds| && s.kinds[i] in {0, 1, 3, 4, 5, 6} then 1 else 0
    {
      assert s.replies[i] == RepliesDue(s, i);
      assert s.pool.submitted[Task(i, Med)] == if i < |s.kinds| then 1 else 0;
    }
  }

  /** One reply per request: after any run of a pool, if Stop begins at j with some worker live or no
      request queued, no request arrives after it and it has returned at the end, then every received
      request of an answered type has had exactly one SendReply, and DISCONNECT and unknown types
      none. */
  lemma OneReplyPerRequest(threads: nat, states: seq<Served>, events: seq<Event>, j: nat)
    requires MediatorRun(states, events) && states[0] == Begin(threads) && j < |events|
    requires events[j] == PoolStep(BeginStop(0))
    requires !AllExited(states[j].pool.workers) || NoTaskAboveLow(states[j].pool.queue)
    requires forall i | j < i < |events| :: events[i].PoolStep? && InStop(states[i].pool)
    requires states[|events|].pool.control == Stopped
    ensures AllAnswered(states[|events|])
  {
    hide Accounted, StopExecution, AllDone, AllAnswered;
    BeginIsAccounted(threads);
    RunKeepsAccount(states, events, j);
    RunKeepsAccount(states, events, j + 1);
    RunKeepsAccount(states, events, |events|);
    assert Next(states, events, j);
    StopPart(states, events, j);
    var pools, acts := PoolStates(states, j + 1), PoolActions(events, j + 1);
    ShutdownDrain(pools, acts);
    assert states[|events|].pool == pools[|acts|];
    AllExecuted(states[|events|]);
  }

  // ---- Without a Stop ----

  lemma {:induction false} StaffStays(threads: nat, states: seq<Served>, events: seq<Event>, i: nat)
    requires MediatorRun(states, events) && states[0] == Begin(threads) && i <= |events|
    requires forall k | 0 <= k < i :: events[k].PoolStep? ==> !events[k].action.BeginStop?
    ensures FullyStaffed(states[i].pool, threads)
    decreases i
  {
    hide FullyStaffed, Enabled, Do;
    if i == 0 {
      StartIsStaffed(threads);
    } else {
      StaffStays(threads, states, events, i - 1);
      assert Next(states, events, i - 1);
      var s := states[i - 1];
      match events[i - 1]
      case Notify(_) =>
        AlwaysEnabled(s.pool, Task(|s.kinds|, Med));
        StepKeepsStaff(s.pool, AddCommand(Task(|s.kinds|, Med)), threads);
      case PoolStep(a) =>
        StepKeepsStaff(s.pool, a, threads);
    }
  }

  lemma AlwaysEnabled(p: Pool, t: Task)
    ensures Enabled(p, AddCommand(t))
  {
  }

  /** While the server runs, too, no request is left without its reply: whenever the workers of a pool
      that was never stopped have nothing left to do, and the flag is down, every request received so far
      has had exactly one SendReply if its type is answered, and none otherwise. */
  lemma IdleIsAllAnswered(threads: nat, states: seq<Served>, events: seq<Event>)
    requires MediatorRun(states, events) && states[0] == Begin(threads) && threads > 0
    requires forall k | 0 <= k < |events| :: events[k].PoolStep? ==> !events[k].action.BeginStop?
    requires var p := states[|events|].pool; !p.suspendFlag && forall a | ByWorker(a) :: !Enabled(p, a)
    ensures AllAnswered(states[|events|])
  {
    hide Accounted, AllAnswered, Enabled, Inv;
    var s := states[|events|];
    BeginIsAccounted(threads);
    RunKeepsAccount(states, events, |events|);
    StaffStays(threads, states, events, |events|);
    AccountedIsInv(s);
    if s.pool.queue == multiset{} && forall w | 0 <= w < threads :: s.pool.workers[w] == Idle {
      AllIdleIsAllDone(s.pool);
    } else {
      var a := WorkerCanStep(s.pool);
      assert false;
    }
    AllExecuted(s);
  }

  lemma AccountedIsInv(s: Served)
    requires Accounted(s)
    ensures Inv(s.pool)
  {
  }
}
