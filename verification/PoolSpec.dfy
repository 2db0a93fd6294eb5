// The thread pool as a step machine: one controller thread calling AddCommand, Suspend, Resume,
// Stop and SetSize, and workers popping commands by priority and executing them.
module PoolSpec {

  datatype Priority = Low | Med | High | Admin {
    function Rank(): nat {
      match this case Low => 0 case Med => 1 case High => 2 case Admin => 3
    }
  }

  datatype Task = Task(id: nat, priority: Priority)

  datatype Command = StopToken | SuspendToken | Execute(task: Task) {
    function Rank(): nat {
      match this
      case StopToken => Low.Rank()
      case SuspendToken => High.Rank()
      case Execute(t) => t.priority.Rank()
    }

    /** ICommand::operator<, the comparator of the queue. */
    predicate Less(other: Command) {
      Rank() < other.Rank()
    }
  }

  /** Idle: about to Pop. Blocked: inside the wait of a SuspendCommand. Exited: the thread function
      has returned. */
  datatype Worker = Idle | Running(task: Task) | Blocked | Exited

  /** Where the controller is: between calls, or inside Suspend, Stop or SetSize(resize) with so
      many pushes or threads to go. resize is 0 for a plain Stop, which leaves the pool Stopped. */
  datatype Controller =
    | Ready
    | Suspending(left: nat, stopped: bool)
    | Stopping(left: nat, resize: nat)
    | Joining(resize: nat)
    | Spawning(left: nat, resize: nat)
    | Stopped

  /** submitted and done are logs: every task given to AddCommand, and the tasks executed. stale
      counts the stop tokens pushed for workers that had already exited, by a Stop of a stopped pool. */
  datatype Pool = Pool(
    queue: multiset<Command>,
    workers: seq<Worker>,
    suspendFlag: bool,
    control: Controller,
    submitted: multiset<Task>,
    done: seq<Task>,
    stale: nat
  )

  datatype Action =
    | AddCommand(task: Task)
    | BeginSuspend
    | PushSuspend
    | Resume
    | BeginStop(resize: nat)
    | PushStop
    | Join
    | Spawn
    | Pop(worker: nat, command: Command)
    | Finish(worker: nat)
    | Wake(worker: nat)

  function Start(n: nat): Pool {
    Pool(multiset{}, seq(n, _ => Idle), false, Ready, multiset{}, [], 0)
  }

  /** top() of the std::priority_queue: some command no other is above. */
  predicate IsTop(queue: multiset<Command>, c: Command) {
    c in queue && forall d | d in queue :: !c.Less(d)
  }

  predicate AllExited(ws: seq<Worker>) {
    forall i | 0 <= i < |ws| :: ws[i] == Exited
  }

  predicate Enabled(p: Pool, a: Action) {
    match a
    case AddCommand(_) => true
    case BeginSuspend => p.control == Ready || p.control == Stopped
    case PushSuspend => p.control.Suspending? && p.control.left > 0
    case Resume => p.control == Ready || p.control == Stopped
    case BeginStop(_) => p.control == Ready || p.control == Stopped
    case PushStop => p.control.Stopping? && p.control.left > 0
    case Join => p.control.Joining? && AllExited(p.workers)
    case Spawn => p.control.Spawning? && p.control.left > 0
    case Pop(w, c) => w < |p.workers| && p.workers[w] == Idle && IsTop(p.queue, c)
    case Finish(w) => w < |p.workers| && p.workers[w].Running?
    case Wake(w) => w < |p.workers| && p.workers[w] == Blocked && !p.suspendFlag
  }

  function AfterSuspendPush(left: nat, stopped: bool): Controller {
    if left > 0 then Suspending(left, stopped) else if stopped then Stopped else Ready
  }

  function AfterStopPush(left: nat, resize: nat): Controller {
    if left == 0 then Joining(resize) else Stopping(left, resize)
  }

  function AfterSpawn(left: nat, resize: nat): Controller {
    if left == 0 then Ready else Spawning(left, resize)
  }

  /** What executing a popped command makes of the worker. */
  function Taken(c: Command): Worker {
    match c
    case StopToken => Exited
    case SuspendToken => Blocked
    case Execute(t) => Running(t)
  }

  function Do(p: Pool, a: Action): Pool
    requires Enabled(p, a)
  {
    match a
    case AddCommand(t) => p.(queue := p.queue + multiset{Execute(t)}, submitted := p.submitted + multiset{t})
    case BeginSuspend => p.(suspendFlag := true, control := AfterSuspendPush(|p.workers|, p.control == Stopped))
    case PushSuspend =>
      p.(queue := p.queue + multiset{SuspendToken}, control := AfterSuspendPush(p.control.left - 1, p.control.stopped))
    case Resume => p.(suspendFlag := false)
    case BeginStop(resize) =>
      p.(suspendFlag := false, control := AfterStopPush(|p.workers|, resize),
         stale := p.stale + if p.control == Stopped then |p.workers| else 0)
    case PushStop =>
      p.(queue := p.queue + multiset{StopToken}, control := AfterStopPush(p.control.left - 1, p.control.resize))
    case Join =>
      if p.control.resize == 0 then p.(control := Stopped)
      else p.(workers := [], control := Spawning(p.control.resize, p.control.resize))
    case Spawn => p.(workers := p.workers + [Idle], control := AfterSpawn(p.control.left - 1, p.control.resize))
    case Pop(w, c) => p.(queue := p.queue - multiset{c}, workers := p.workers[w := Taken(c)])
    case Finish(w) => p.(workers := p.workers[w := Idle], done := p.done + [p.workers[w].task])
    case Wake(w) => p.(workers := p.workers[w := Idle])
  }

  /** states[i + 1] follows states[i] by acts[i]. */
  ghost predicate Follows(states: seq<Pool>, acts: seq<Action>, i: nat)
    requires |states| == |acts| + 1 && i < |acts|
  {
    Enabled(states[i], acts[i]) && states[i + 1] == Do(states[i], acts[i])
  }

  ghost predicate Execution(states: seq<Pool>, acts: seq<Action>) {
    |states| == |acts| + 1 && forall i: nat | i < |acts| :: Follows(states, acts, i)
  }

  // ---- Counting ----

  function Count(ws: seq<Worker>, w: Worker): nat {
    multiset(ws)[w]
  }

  lemma CountAfter(ws: seq<Worker>, i: nat, w: Worker)
    requires i < |ws|
    ensures forall v :: Count(ws[i := w], v) == Count(ws, v) + (if v == w then 1 else 0) - (if v == ws[i] then 1 else 0)
  {
  }

  lemma {:induction false} CountsBounded(ws: seq<Worker>)
    ensures Count(ws, Idle) + Count(ws, Blocked) + Count(ws, Exited) <= |ws|
    ensures Count(ws, Exited) == |ws| <==> AllExited(ws)
  {
    if ws != [] {
      var n := |ws| - 1;
      CountsBounded(ws[..n]);
      assert ws == ws[..n] + [ws[n]];
      assert Count(ws, Exited) == |ws| ==> AllExited(ws[..n]) && ws[n] == Exited;
    }
  }

  /** A worker in a state is counted. */
  lemma CountsWorker(ws: seq<Worker>, i: nat)
    requires i < |ws|
    ensures Count(ws, ws[i]) > 0
  {
    assert ws[i] in multiset(ws);
  }

  lemma NoneRunning(ws: seq<Worker>, t: Task)
    requires AllExited(ws)
    ensures Count(ws, Running(t)) == 0
  {
    if Running(t) in multiset(ws) {
      assert Running(t) in ws;
    }
  }

  // ---- The invariant of every execution ----

  /** Every submitted task is queued, running or done, as often as it was submitted. */
  ghost predicate Conserved(p: Pool) {
    forall t: Task :: p.submitted[t] == p.queue[Execute(t)] + Count(p.workers, Running(t)) + multiset(p.done)[t]
  }

  /** Stop tokens, queued or taken by a worker: the stale ones and no other outside a Stop; inside one
      and after it, one more for each worker, yet to be pushed, queued or taken. */
  ghost predicate StopsCounted(p: Pool) {
    var tokens := p.queue[StopToken] + Count(p.workers, Exited);
    match p.control
    case Ready => tokens == p.stale
    case Suspending(_, stopped) =>
      if stopped then AllExited(p.workers) && tokens == |p.workers| + p.stale else tokens == p.stale
    case Stopping(left, _) => left > 0 && tokens + left == |p.workers| + p.stale
    case Joining(_) => tokens == |p.workers| + p.stale
    case Spawning(left, resize) => left > 0 && tokens == p.stale && |p.workers| + left == resize
    case Stopped => AllExited(p.workers) && tokens == |p.workers| + p.stale
  }

  /** Suspend tokens queued and workers blocked on one. */
  function Held(p: Pool): nat {
    p.queue[SuspendToken] + Count(p.workers, Blocked)
  }

  /** The flag is up inside Suspend and until the next Resume or Stop; once Suspend has returned,
      there is a token or a blocked worker for each worker. */
  ghost predicate SuspendsCounted(p: Pool) {
    match p.control
    case Ready => p.suspendFlag ==> Held(p) >= |p.workers|
    case Suspending(left, _) => left > 0 && p.suspendFlag && Held(p) + left >= |p.workers|
    case Stopped => p.suspendFlag ==> Held(p) >= |p.workers|
    case _ => !p.suspendFlag
  }

  ghost predicate Inv(p: Pool) {
    Conserved(p) && StopsCounted(p) && SuspendsCounted(p)
  }

  lemma StartInv(n: nat)
    ensures Inv(Start(n))
  {
    var p := Start(n);
    assert forall i | 0 <= i < n :: p.workers[i] == Idle;
    assert forall w | w in multiset(p.workers) :: w == Idle;
  }

  lemma PopConserves(p: Pool, w: nat, c: Command)
    requires Conserved(p) && Enabled(p, Pop(w, c))
    ensures Conserved(Do(p, Pop(w, c)))
  {
    var r := Do(p, Pop(w, c));
    CountAfter(p.workers, w, Taken(c));
    forall t: Task
      ensures r.submitted[t] == r.queue[Execute(t)] + Count(r.workers, Running(t)) + multiset(r.done)[t]
    {
      assert p.submitted[t] == p.queue[Execute(t)] + Count(p.workers, Running(t)) + multiset(p.done)[t];
    }
  }

  lemma FinishConserves(p: Pool, w: nat)
    requires Conserved(p) && Enabled(p, Finish(w))
    ensures Conserved(Do(p, Finish(w)))
  {
    var r := Do(p, Finish(w));
    CountAfter(p.workers, w, Idle);
    CountsWorker(p.workers, w);
    forall t: Task
      ensures r.submitted[t] == r.queue[Execute(t)] + Count(r.workers, Running(t)) + multiset(r.done)[t]
    {
      assert p.submitted[t] == p.queue[Execute(t)] + Count(p.workers, Running(t)) + multiset(p.done)[t];
    }
  }

  lemma StepConserves(p: Pool, a: Action)
    requires Conserved(p) && Enabled(p, a)
    ensures Conserved(Do(p, a))
  {
    hide Conserved, Do, Enabled;
    match a
    case Pop(w, c) => PopConserves(p, w, c);
    case Finish(w) => FinishConserves(p, w);
    case Wake(w) => WakeConserves(p, w);
    case Join => JoinConserves(p);
    case Spawn => SpawnConserves(p);
    case AddCommand(t) => AddConserves(p, t);
    case _ => TokensConserve(p, a);
  }

  lemma WakeConserves(p: Pool, w: nat)
    requires Conserved(p) && Enabled(p, Wake(w))
    ensures Conserved(Do(p, Wake(w)))
  {
    CountAfter(p.workers, w, Idle);
  }

  lemma JoinConserves(p: Pool)
    requires Conserved(p) && Enabled(p, Join)
    ensures Conserved(Do(p, Join))
  {
    forall t: Task
      ensures Count(p.workers, Running(t)) == 0
    {
      NoneRunning(p.workers, t);
    }
  }

  lemma SpawnConserves(p: Pool)
    requires Conserved(p) && Enabled(p, Spawn)
    ensures Conserved(Do(p, Spawn))
  {
    assert multiset(p.workers + [Idle]) == multiset(p.workers) + multiset{Idle};
  }

  lemma AddConserves(p: Pool, task: Task)
    requires Conserved(p)
    ensures Conserved(Do(p, AddCommand(task)))
  {
    var r := Do(p, AddCommand(task));
    forall t: Task
      ensures r.submitted[t] == r.queue[Execute(t)] + Count(r.workers, Running(t)) + multiset(r.done)[t]
    {
      assert p.submitted[t] == p.queue[Execute(t)] + Count(p.workers, Running(t)) + multiset(p.done)[t];
    }
  }

  /** The controller's steps that move tokens and the flag only. */
  lemma TokensConserve(p: Pool, a: Action)
    requires Conserved(p) && Enabled(p, a)
    requires a == BeginSuspend || a == PushSuspend || a == Resume || a.BeginStop? || a == PushStop
    ensures Conserved(Do(p, a))
  {
    var r := Do(p, a);
    assert r.submitted == p.submitted && r.workers == p.workers && r.done == p.done;
    forall t: Task
      ensures r.queue[Execute(t)] == p.queue[Execute(t)]
    {
    }
  }

  lemma PopCountsStops(p: Pool, w: nat, c: Command)
    requires StopsCounted(p) && Enabled(p, Pop(w, c))
    ensures StopsCounted(Do(p, Pop(w, c)))
  {
    var worker := p.workers[w];
    assert AllExited(p.workers) ==> worker == Exited;
    CountAfter(p.workers, w, Taken(c));
  }

  lemma ReturnCountsStops(p: Pool, a: Action)
    requires StopsCounted(p) && Enabled(p, a) && (a.Finish? || a.Wake?)
    ensures StopsCounted(Do(p, a))
  {
    var worker := p.workers[a.worker];
    assert AllExited(p.workers) ==> worker == Exited;
    CountAfter(p.workers, a.worker, Idle);
  }

  lemma StepCountsStops(p: Pool, a: Action)
    requires StopsCounted(p) && Enabled(p, a)
    ensures StopsCounted(Do(p, a))
  {
    hide StopsCounted, Do, Enabled;
    match a
    case Pop(w, c) => PopCountsStops(p, w, c);
    case Finish(_) => ReturnCountsStops(p, a);
    case Wake(_) => ReturnCountsStops(p, a);
    case Join => JoinCountsStops(p);
    case Spawn => SpawnCountsStops(p);
    case PushStop => PushCountsStops(p);
    case BeginStop(_) => BeginCountsStops(p, a);
    case _ => TokensCountStops(p, a);
  }

  lemma JoinCountsStops(p: Pool)
    requires StopsCounted(p) && Enabled(p, Join)
    ensures StopsCounted(Do(p, Join))
  {
    CountsBounded(p.workers);
  }

  lemma SpawnCountsStops(p: Pool)
    requires StopsCounted(p) && Enabled(p, Spawn)
    ensures StopsCounted(Do(p, Spawn))
  {
    assert multiset(p.workers + [Idle]) == multiset(p.workers) + multiset{Idle};
  }

  lemma PushCountsStops(p: Pool)
    requires StopsCounted(p) && Enabled(p, PushStop)
    ensures StopsCounted(Do(p, PushStop))
  {
  }

  lemma BeginCountsStops(p: Pool, a: Action)
    requires StopsCounted(p) && Enabled(p, a) && a.BeginStop?
    ensures StopsCounted(Do(p, a))
  {
    CountsBounded(p.workers);
  }

  lemma TokensCountStops(p: Pool, a: Action)
    requires StopsCounted(p) && Enabled(p, a)
    requires a.AddCommand? || a == BeginSuspend || a == PushSuspend || a == Resume
    ensures StopsCounted(Do(p, a))
  {
    hide AllExited;
  }

  lemma PopCountsSuspends(p: Pool, w: nat, c: Command)
    requires SuspendsCounted(p) && Enabled(p, Pop(w, c))
    ensures SuspendsCounted(Do(p, Pop(w, c)))
  {
    CountAfter(p.workers, w, Taken(c));
  }

  lemma StepCountsSuspends(p: Pool, a: Action)
    requires SuspendsCounted(p) && Enabled(p, a)
    ensures SuspendsCounted(Do(p, a))
  {
    match a
    case Pop(w, c) => PopCountsSuspends(p, w, c);
    case Finish(w) => CountAfter(p.workers, w, Idle);
    case Wake(w) => CountAfter(p.workers, w, Idle);
    case Spawn =>
      assert multiset(p.workers + [Idle]) == multiset(p.workers) + multiset{Idle};
    case _ =>
  }

  lemma StepKeepsInv(p: Pool, a: Action)
    requires Inv(p) && Enabled(p, a)
    ensures Inv(Do(p, a))
  {
    StepConserves(p, a);
    StepCountsStops(p, a);
    StepCountsSuspends(p, a);
  }

  lemma {:induction false} ExecutionKeepsInv(states: seq<Pool>, acts: seq<Action>, i: nat)
    requires Execution(states, acts) && Inv(states[0]) && i <= |acts|
    ensures Inv(states[i])
  {
    if i > 0 {
      ExecutionKeepsInv(states, acts, i - 1);
      assert Follows(states, acts, i - 1);
      StepKeepsInv(states[i - 1], acts[i - 1]);
    }
  }

  // ---- Workers at work ----

  /** What a worker takes is a command no other is more urgent than: an Admin task first, then a High
      one or a suspend token, then Med, and Low or a stop token last. */
  lemma PoppedIsMostUrgent(p: Pool, w: nat, c: Command, d: Command)
    requires Enabled(p, Pop(w, c)) && d in p.queue
    ensures (c.Execute? && c.task.priority == Low) || c == StopToken ==>
              d == StopToken || (d.Execute? && d.task.priority == Low)
    ensures c.Execute? && c.task.priority == Med ==>
              d == StopToken || (d.Execute? && (d.task.priority == Low || d.task.priority == Med))
    ensures (c.Execute? && c.task.priority == High) || c == SuspendToken ==>
              d.Execute? ==> d.task.priority != Admin
  {
    assert !c.Less(d);
  }

  /** No Stop or SetSize begins before state i. */
  ghost predicate NoStopBefore(acts: seq<Action>, i: nat) {
    forall k | 0 <= k < i && k < |acts| :: !acts[k].BeginStop?
  }

  /** The n threads a pool starts with, and no stop token for any. */
  ghost predicate FullyStaffed(p: Pool, n: nat) {
    && |p.workers| == n && (forall w | 0 <= w < n :: p.workers[w] != Exited)
    && p.queue[StopToken] == 0 && p.stale == 0 && (p.control == Ready || p.control.Suspending?)
    && (p.control.Suspending? ==> !p.control.stopped)
  }

  /** From the start until the first Stop or SetSize begins there are n workers, and all are live. */
  lemma {:induction false} WorkersStay(states: seq<Pool>, acts: seq<Action>, n: nat, i: nat)
    requires Execution(states, acts) && states[0] == Start(n) && i <= |acts| && NoStopBefore(acts, i)
    ensures Inv(states[i]) && FullyStaffed(states[i], n)
  {
    hide Inv, FullyStaffed;
    StartInv(n);
    ExecutionKeepsInv(states, acts, i);
    if i == 0 {
      StartIsStaffed(n);
    } else {
      WorkersStay(states, acts, n, i - 1);
      assert Follows(states, acts, i - 1);
      StepKeepsStaff(states[i - 1], acts[i - 1], n);
    }
  }

  lemma StartIsStaffed(n: nat)
    ensures FullyStaffed(Start(n), n)
  {
  }

  lemma StepKeepsStaff(p: Pool, a: Action, n: nat)
    requires FullyStaffed(p, n) && Enabled(p, a) && !a.BeginStop?
    ensures FullyStaffed(Do(p, a), n)
  {
    if a.Pop? {
      assert a.command in p.queue;
      assert a.command != StopToken;
    }
  }

  /** A step of a worker. */
  predicate ByWorker(a: Action) {
    a.Pop? || a.Finish? || a.Wake?
  }

  /** With live workers and the flag down, some worker has a step as long as any command is queued,
      running, or blocking one. */
  lemma WorkerCanStep(p: Pool) returns (a: Action)
    requires |p.workers| > 0 && (forall w | 0 <= w < |p.workers| :: p.workers[w] != Exited) && !p.suspendFlag
    requires p.queue != multiset{} || exists w :: 0 <= w < |p.workers| && p.workers[w] != Idle
    ensures Enabled(p, a) && ByWorker(a)
  {
    if w :| 0 <= w < |p.workers| && p.workers[w] != Idle {
      a := if p.workers[w] == Blocked then Wake(w) else Finish(w);
    } else {
      assert p.workers[0] == Idle;
      var c := Top(p.queue);
      a := Pop(0, c);
    }
  }

  /** The workers go on from states[0] by themselves. */
  ghost predicate WorkerExecution(states: seq<Pool>, acts: seq<Action>) {
    Execution(states, acts) && forall i | 0 <= i < |acts| :: ByWorker(acts[i])
  }

  lemma WorkerStepLowersWork(p: Pool, a: Action)
    requires Enabled(p, a) && ByWorker(a)
    ensures WorkLeft(Do(p, a)) < WorkLeft(p)
    ensures Do(p, a).control == p.control && Do(p, a).suspendFlag == p.suspendFlag
    ensures Do(p, a).submitted == p.submitted && |Do(p, a).workers| == |p.workers|
  {
    hide IsTop;
    if a.Pop? {
      PopDecreasesMeasure(p, a.worker, a.command);
    } else {
      ReturnDecreasesMeasure(p, a);
    }
  }

  lemma {:induction false} WorkersFinish(states: seq<Pool>, acts: seq<Action>, n: nat, i: nat)
    requires WorkerExecution(states, acts) && Inv(states[0]) && FullyStaffed(states[0], n) && i <= |acts|
    ensures Inv(states[i]) && FullyStaffed(states[i], n) && i + WorkLeft(states[i]) <= WorkLeft(states[0])
    ensures states[i].suspendFlag == states[0].suspendFlag && states[i].submitted == states[0].submitted
  {
    hide Inv, FullyStaffed, WorkLeft, Enabled, Do;
    if i > 0 {
      WorkersFinish(states, acts, n, i - 1);
      assert Follows(states, acts, i - 1);
      StepKeepsInv(states[i - 1], acts[i - 1]);
      StepKeepsStaff(states[i - 1], acts[i - 1], n);
      WorkerStepLowersWork(states[i - 1], acts[i - 1]);
    }
  }

  /** Between calls all workers are live, unless a stopped pool was stopped once more. */
  lemma ReadyIsStaffed(p: Pool)
    requires Inv(p) && p.control == Ready && p.stale == 0
    ensures FullyStaffed(p, |p.workers|)
  {
    forall w | 0 <= w < |p.workers|
      ensures p.workers[w] != Exited
    {
      CountsWorker(p.workers, w);
    }
  }

  /** Progress. A pool that is not stopped, nor was by two Stops in a row, after any other history, with
      some worker and its flag down: the workers by themselves take at most WorkLeft steps, and when none
      of them has one left, every task ever submitted has been executed as often as it was submitted. */
  lemma EveryTaskIsDone(threads: nat, history: seq<Pool>, earlier: seq<Action>, states: seq<Pool>, acts: seq<Action>)
    requires Execution(history, earlier) && history[0] == Start(threads)
    requires WorkerExecution(states, acts) && states[0] == history[|earlier|]
    requires var s := states[0]; s.control == Ready && s.stale == 0 && |s.workers| > 0 && !s.suspendFlag
    ensures |acts| <= WorkLeft(states[0])
    ensures var n, p := |states[0].workers|, states[|acts|];
            && |p.workers| == n && (forall w | 0 <= w < n :: p.workers[w] != Exited)
            && ((exists a :: Enabled(p, a) && ByWorker(a)) || multiset(p.done) == p.submitted == states[0].submitted)
  {
    hide WorkLeft, Inv, Enabled, Do;
    var n := |states[0].workers|;
    StartInv(threads);
    ExecutionKeepsInv(history, earlier, |earlier|);
    ReadyIsStaffed(states[0]);
    WorkersFinish(states, acts, n, |acts|);
    var p := states[|acts|];
    if p.queue == multiset{} && forall w | 0 <= w < n :: p.workers[w] == Idle {
      AllIdleIsAllDone(p);
    } else {
      var a := WorkerCanStep(p);
    }
  }

  lemma AllIdleIsAllDone(p: Pool)
    requires Inv(p) && p.queue == multiset{} && forall w | 0 <= w < |p.workers| :: p.workers[w] == Idle
    ensures multiset(p.done) == p.submitted
  {
    hide StopsCounted, SuspendsCounted;
    forall t: Task
      ensures multiset(p.done)[t] == p.submitted[t]
    {
      assert Running(t) !in p.workers;
      assert Running(t) !in multiset(p.workers);
    }
  }

  /** The flag is down from a Resume, as from the start, until the next Suspend begins. */
  lemma {:induction false} FlagDownSince(states: seq<Pool>, acts: seq<Action>, j: nat, i: nat)
    requires Execution(states, acts) && j < i <= |acts| && acts[j] == Resume
    requires forall k | j < k < i :: acts[k] != BeginSuspend
    ensures !states[i].suspendFlag
  {
    assert Follows(states, acts, i - 1);
    if i > j + 1 {
      FlagDownSince(states, acts, j, i - 1);
    }
  }

  // ---- Suspend barrier ----

  /** While the flag is up and every worker has a token to take or has taken it, no step but a
      Resume or a Stop ends that. */
  ghost predicate Barrier(p: Pool) {
    p.suspendFlag && Held(p) >= |p.workers| && (p.control == Ready || p.control == Stopped || p.control.Suspending?)
  }

  lemma StepKeepsBarrier(p: Pool, a: Action)
    requires Inv(p) && Barrier(p) && Enabled(p, a) && a != Resume && !a.BeginStop?
    ensures Barrier(Do(p, a))
  {
    hide Inv, Held, IsTop;
    match a
    case Pop(w, c) => PopKeepsBarrier(p, w, c);
    case Finish(w) => FinishKeepsBarrier(p, w);
    case Wake(_) => assert false;
    case _ => ControlOfSuspended(p, a);
  }

  lemma PopKeepsBarrier(p: Pool, w: nat, c: Command)
    requires Barrier(p) && Enabled(p, Pop(w, c))
    ensures Barrier(Do(p, Pop(w, c)))
  {
    assert p.queue[c] > 0;
    CountAfter(p.workers, w, Taken(c));
  }

  lemma FinishKeepsBarrier(p: Pool, w: nat)
    requires Barrier(p) && Enabled(p, Finish(w))
    ensures Barrier(Do(p, Finish(w)))
  {
    CountAfter(p.workers, w, Idle);
  }

  /** With the flag up, what the controller can do but Resume and Stop. */
  lemma ControlOfSuspended(p: Pool, a: Action)
    requires Barrier(p) && Enabled(p, a) && a != Resume && !a.BeginStop? && !a.Pop? && !a.Finish? && !a.Wake?
    ensures Barrier(Do(p, a))
  {
  }

  /** Behind the barrier only commands at least as urgent as a suspend token are taken. */
  lemma BarrierHoldsBack(p: Pool, w: nat, c: Command)
    requires Barrier(p) && Enabled(p, Pop(w, c))
    ensures c.Rank() >= High.Rank()
  {
    CountsBounded(p.workers);
    CountsWorker(p.workers, w);
    assert SuspendToken in p.queue;
  }

  lemma SuspendRaisesBarrier(p: Pool, a: Action)
    requires Enabled(p, a) && Inv(p) && Inv(Do(p, a))
    requires (a == PushSuspend || a == BeginSuspend) && !Do(p, a).control.Suspending?
    ensures Barrier(Do(p, a))
  {
  }

  /** Suspend has returned before state i, and no Resume or Stop has begun since. */
  ghost predicate SuspendedAt(states: seq<Pool>, acts: seq<Action>, i: nat)
    requires |states| == |acts| + 1 && i <= |acts|
  {
    exists j | 0 <= j < i ::
      && (acts[j] == PushSuspend || acts[j] == BeginSuspend) && !states[j + 1].control.Suspending?
      && forall k | j < k < i :: acts[k] != Resume && !acts[k].BeginStop?
  }

  lemma {:induction false} BarrierSince(states: seq<Pool>, acts: seq<Action>, j: nat, i: nat)
    requires Execution(states, acts) && Inv(states[0]) && j < i <= |acts|
    requires (acts[j] == PushSuspend || acts[j] == BeginSuspend) && !states[j + 1].control.Suspending?
    requires forall k | j < k < i :: acts[k] != Resume && !acts[k].BeginStop?
    ensures Barrier(states[i])
  {
    hide Inv, Barrier, Enabled, Do;
    ExecutionKeepsInv(states, acts, i - 1);
    assert Follows(states, acts, i - 1);
    if i == j + 1 {
      ExecutionKeepsInv(states, acts, i);
      SuspendRaisesBarrier(states[j], acts[j]);
    } else {
      BarrierSince(states, acts, j, i - 1);
      StepKeepsBarrier(states[i - 1], acts[i - 1]);
    }
  }

  /** Suspend barrier: between Suspend returning and the next Resume or Stop, over any earlier
      history, no Low or Med task and no stop token is taken by a worker. */
  lemma SuspendBarrier(states: seq<Pool>, acts: seq<Action>, i: nat, w: nat, c: Command)
    requires Execution(states, acts) && Inv(states[0]) && i < |acts|
    requires SuspendedAt(states, acts, i) && acts[i] == Pop(w, c)
    ensures c == SuspendToken || (c.Execute? && (c.task.priority == High || c.task.priority == Admin))
  {
    var j :| 0 <= j < i
      && (acts[j] == PushSuspend || acts[j] == BeginSuspend) && !states[j + 1].control.Suspending?
      && forall k | j < k < i :: acts[k] != Resume && !acts[k].BeginStop?;
    hide Inv, Do, Enabled, Barrier;
    BarrierSince(states, acts, j, i);
    assert Follows(states, acts, i);
    BarrierHoldsBack(states[i], w, c);
  }

  // ---- Stop and SetSize ----

  predicate InStop(p: Pool) {
    p.control.Stopping? || p.control.Joining? || p.control.Spawning?
  }

  function ControlLeft(c: Controller): nat {
    match c
    case Stopping(left, resize) => 3 * left + resize + 2
    case Joining(resize) => resize + 1
    case Spawning(left, _) => left
    case _ => 0
  }

  /** An upper bound on the steps the workers can take by themselves. */
  function WorkLeft(p: Pool): nat {
    CountsBounded(p.workers);
    2 * |p.queue| + (|p.workers| - Count(p.workers, Idle) - Count(p.workers, Exited))
  }

  /** An upper bound on the steps of a Stop or SetSize, when nothing is submitted meanwhile. */
  function Measure(p: Pool): nat {
    ControlLeft(p.control) + WorkLeft(p)
  }

  lemma PopDecreasesMeasure(p: Pool, w: nat, c: Command)
    requires Enabled(p, Pop(w, c))
    ensures Measure(Do(p, Pop(w, c))) < Measure(p)
  {
    CountsBounded(p.workers);
    CountsBounded(Do(p, Pop(w, c)).workers);
    CountAfter(p.workers, w, Taken(c));
    assert |p.queue - multiset{c}| == |p.queue| - 1;
  }

  lemma ReturnDecreasesMeasure(p: Pool, a: Action)
    requires Enabled(p, a) && (a.Finish? || a.Wake?)
    ensures Measure(Do(p, a)) < Measure(p)
  {
    var w := a.worker;
    CountsBounded(p.workers);
    CountsBounded(Do(p, a).workers);
    CountAfter(p.workers, w, Idle);
  }

  lemma PushDecreasesMeasure(p: Pool)
    requires InStop(p) && Enabled(p, PushStop)
    ensures Measure(Do(p, PushStop)) < Measure(p)
  {
    assert |p.queue + multiset{StopToken}| == |p.queue| + 1;
  }

  lemma JoinDecreasesMeasure(p: Pool)
    requires InStop(p) && Enabled(p, Join)
    ensures Measure(Do(p, Join)) < Measure(p)
  {
    CountsBounded(p.workers);
  }

  lemma SpawnDecreasesMeasure(p: Pool)
    requires InStop(p) && Enabled(p, Spawn)
    ensures Measure(Do(p, Spawn)) < Measure(p)
  {
    assert multiset(p.workers + [Idle]) == multiset(p.workers) + multiset{Idle};
  }

  lemma StepDecreasesMeasure(p: Pool, a: Action)
    requires InStop(p) && Enabled(p, a) && !a.AddCommand?
    ensures Measure(Do(p, a)) < Measure(p)
  {
    hide Measure;
    match a
    case Pop(w, c) => PopDecreasesMeasure(p, w, c);
    case Finish(_) => ReturnDecreasesMeasure(p, a);
    case Wake(_) => ReturnDecreasesMeasure(p, a);
    case PushStop => PushDecreasesMeasure(p);
    case Join => JoinDecreasesMeasure(p);
    case Spawn => SpawnDecreasesMeasure(p);
    case _ =>
  }

  /** A Stop or SetSize is never stuck. */
  lemma NeverStuck(p: Pool) returns (a: Action)
    requires Inv(p) && InStop(p)
    ensures Enabled(p, a) && !a.AddCommand?
  {
    CountsBounded(p.workers);
    if p.control.Stopping? {
      a := PushStop;
    } else if p.control.Spawning? {
      a := Spawn;
    } else if AllExited(p.workers) {
      a := Join;
    } else {
      var w :| 0 <= w < |p.workers| && p.workers[w] != Exited;
      match p.workers[w]
      case Running(_) => a := Finish(w);
      case Blocked => a := Wake(w);
      case Idle =>
        assert p.queue[StopToken] > 0;
        var c := Top(p.queue);
        a := Pop(w, c);
    }
  }

  lemma Top(queue: multiset<Command>) returns (c: Command)
    requires queue != multiset{}
    ensures IsTop(queue, c)
    decreases |queue|
  {
    var b :| b in queue;
    var rest := queue - multiset{b};
    assert forall e | e in queue :: e == b || e in rest;
    c := b;
    if rest != multiset{} {
      var d := Top(rest);
      c := if b.Less(d) then d else b;
    }
  }

  predicate OnlyLow(queue: multiset<Command>) {
    forall c | c in queue :: c.Rank() == Low.Rank()
  }

  /** When no worker is left, only Low commands are in the queue. */
  ghost predicate Draining(p: Pool) {
    AllExited(p.workers) ==> OnlyLow(p.queue)
  }

  lemma StepKeepsDraining(p: Pool, a: Action)
    requires Draining(p) && Enabled(p, a) && !a.AddCommand? && (p.control.Stopping? || p.control.Joining?)
    ensures Do(p, a).control.Spawning? || Draining(Do(p, a))
  {
    hide IsTop, OnlyLow, AllExited;
    match a
    case Pop(w, c) => PopKeepsDraining(p, w, c);
    case Finish(w) => LiveIsNotExited(Do(p, a).workers, w);
    case Wake(w) => LiveIsNotExited(Do(p, a).workers, w);
    case PushStop => TokenIsLow(p.queue);
    case _ =>
  }

  lemma PopKeepsDraining(p: Pool, w: nat, c: Command)
    requires Enabled(p, Pop(w, c))
    ensures Draining(Do(p, Pop(w, c)))
  {
    if c == StopToken {
      TopTokenMeansLow(p.queue, c);
    } else {
      LiveIsNotExited(Do(p, Pop(w, c)).workers, w);
    }
  }

  lemma LiveIsNotExited(ws: seq<Worker>, w: nat)
    requires w < |ws| && ws[w] != Exited
    ensures !AllExited(ws)
  {
  }

  lemma TokenIsLow(queue: multiset<Command>)
    ensures OnlyLow(queue) ==> OnlyLow(queue + multiset{StopToken})
  {
  }

  /** A stop token on top of the queue: everything is Low. */
  lemma TopTokenMeansLow(queue: multiset<Command>, c: Command)
    requires IsTop(queue, c) && c == StopToken
    ensures OnlyLow(queue - multiset{c})
  {
    forall d | d in queue - multiset{c}
      ensures d.Rank() == Low.Rank()
    {
      assert d in queue && !c.Less(d);
    }
  }

  // ---- Whole Stops ----

  /** acts carry a Stop or SetSize on from states[0], with nothing submitted meanwhile. */
  ghost predicate StopExecution(states: seq<Pool>, acts: seq<Action>) {
    && Execution(states, acts) && Inv(states[0]) && InStop(states[0])
    && (forall i | 0 <= i < |acts| :: InStop(states[i]) && !acts[i].AddCommand?)
  }

  /** It ends within the measure of its first state. */
  lemma {:induction false} StopTerminates(states: seq<Pool>, acts: seq<Action>, i: nat)
    requires StopExecution(states, acts) && i <= |acts|
    ensures i + Measure(states[i]) <= Measure(states[0])
  {
    if i > 0 {
      StopTerminates(states, acts, i - 1);
      assert Follows(states, acts, i - 1);
      StepDecreasesMeasure(states[i - 1], acts[i - 1]);
    }
  }

  /** The steps by which worker w takes a stop token. */
  function StopsTaken(acts: seq<Action>, w: nat): nat {
    if acts == [] then 0
    else StopsTaken(acts[..|acts| - 1], w) + if acts[|acts| - 1] == Pop(w, StopToken) then 1 else 0
  }

  /** A step of a Stop submits nothing, and changes a worker only by its own step. */
  lemma StopStepFrame(p: Pool, a: Action, w: nat)
    requires Enabled(p, a) && !a.AddCommand? && !Do(p, a).control.Spawning? && a != Spawn
    ensures Do(p, a).submitted == p.submitted && |Do(p, a).workers| == |p.workers|
    ensures !a.BeginStop? ==> Do(p, a).stale == p.stale
    ensures w < |p.workers| && !((a.Pop? || a.Finish? || a.Wake?) && a.worker == w) ==>
              Do(p, a).workers[w] == p.workers[w]
  {
  }

  ghost predicate BeforeRespawn(states: seq<Pool>, i: nat)
    requires i < |states|
  {
    forall k | 0 <= k <= i :: states[k].control.Stopping? || states[k].control.Joining? || states[k].control == Stopped
  }

  lemma {:induction false} StopDrains(states: seq<Pool>, acts: seq<Action>, i: nat)
    requires StopExecution(states, acts) && i <= |acts| && BeforeRespawn(states, i)
    ensures Inv(states[i]) && (Draining(states[0]) ==> Draining(states[i]))
    ensures states[i].submitted == states[0].submitted && states[i].stale == states[0].stale
    ensures |states[i].workers| == |states[0].workers|
  {
    if i > 0 {
      hide Inv, Draining, Conserved;
      StopDrains(states, acts, i - 1);
      assert Follows(states, acts, i - 1);
      StepKeepsInv(states[i - 1], acts[i - 1]);
      if Draining(states[0]) {
        StepKeepsDraining(states[i - 1], acts[i - 1]);
      }
      StopStepFrame(states[i - 1], acts[i - 1], 0);
    }
  }

  /** A worker takes one stop token to exit, and no other: one that had exited before takes none. */
  lemma {:induction false} ExitedTookOneToken(states: seq<Pool>, acts: seq<Action>, w: nat, i: nat)
    requires StopExecution(states, acts) && i <= |acts|
    requires BeforeRespawn(states, i) && w < |states[0].workers|
    ensures |states[i].workers| == |states[0].workers|
    ensures StopsTaken(acts[..i], w) ==
            if states[i].workers[w] == Exited && states[0].workers[w] != Exited then 1 else 0
    ensures states[0].workers[w] == Exited ==> states[i].workers[w] == Exited
  {
    if i > 0 {
      var p, a := states[i - 1], acts[i - 1];
      hide Inv, InStop;
      ExitedTookOneToken(states, acts, w, i - 1);
      assert acts[..i][..i - 1] == acts[..i - 1];
      assert Follows(states, acts, i - 1);
      StopStepFrame(p, a, w);
    }
  }

  lemma NothingRunsStep(p: Pool, a: Action)
    requires AllExited(p.workers) && Enabled(p, a) && (p.control.Stopping? || p.control.Joining?) && !a.AddCommand?
    ensures a == PushStop || a == Join
    ensures !Do(p, a).control.Spawning? ==> AllExited(Do(p, a).workers)
    ensures forall c | c != StopToken :: Do(p, a).queue[c] == p.queue[c]
  {
  }

  /** With no worker left, a Stop only adds stop tokens. */
  lemma {:induction false} NothingRuns(states: seq<Pool>, acts: seq<Action>, i: nat)
    requires StopExecution(states, acts) && i <= |acts| && BeforeRespawn(states, i)
    requires AllExited(states[0].workers)
    ensures AllExited(states[i].workers)
    ensures forall c | c != StopToken :: states[i].queue[c] == states[0].queue[c]
  {
    if i > 0 {
      hide Inv, Do, Enabled, AllExited;
      NothingRuns(states, acts, i - 1);
      assert Follows(states, acts, i - 1);
      NothingRunsStep(states[i - 1], acts[i - 1]);
    }
  }

  /** When Stop has returned: every worker that was live took exactly one stop token and no other did,
      and the tokens left are the stale ones. */
  lemma StopReturns(states: seq<Pool>, acts: seq<Action>)
    requires StopExecution(states, acts) && BeforeRespawn(states, |acts|) && states[|acts|].control == Stopped
    ensures var p := states[|acts|];
            && AllExited(p.workers) && p.queue[StopToken] == p.stale == states[0].stale
            && p.submitted == states[0].submitted && |p.workers| == |states[0].workers|
            && forall w: nat | w < |p.workers| ::
                 StopsTaken(acts, w) == if states[0].workers[w] == Exited then 0 else 1
  {
    var n := |acts|;
    var p := states[n];
    StopDrains(states, acts, n);
    CountsBounded(p.workers);
    assert acts[..n] == acts;
    forall w: nat | w < |p.workers|
      ensures StopsTaken(acts, w) == if states[0].workers[w] == Exited then 0 else 1
    {
      ExitedTookOneToken(states, acts, w, n);
    }
  }

  /** No task above Low is queued. */
  predicate NoTaskAboveLow(queue: multiset<Command>) {
    forall c | c in queue && c.Execute? :: c.task.priority == Low
  }

  /** Every task above Low was executed as often as it was submitted. */
  ghost predicate AllDone(p: Pool) {
    forall t: Task | t.priority != Low :: multiset(p.done)[t] == p.submitted[t]
  }

  /** With every worker gone, a task is done unless it is still queued. */
  lemma DoneUnlessQueued(p: Pool)
    requires Conserved(p) && AllExited(p.workers)
    ensures AllDone(p) <==> NoTaskAboveLow(p.queue)
  {
    forall t: Task
      ensures p.submitted[t] == p.queue[Execute(t)] + multiset(p.done)[t]
    {
      NoneRunning(p.workers, t);
    }
    if AllDone(p) {
      forall c | c in p.queue && c.Execute?
        ensures c.task.priority == Low
      {
        assert p.queue[Execute(c.task)] > 0;
      }
    } else {
      var t: Task :| t.priority != Low && multiset(p.done)[t] != p.submitted[t];
      assert Execute(t) in p.queue;
    }
  }

  /** Shutdown drain. Take any execution of a Stop, of a running pool or one that was stopped before,
      in which nothing is submitted after Stop begins. It is at most Measure long; as long as Stop
      has not returned some step is enabled; and when it has, every worker that was live has taken
      exactly one stop token, and only stale tokens are left. Every leftover is Low if and only if
      some worker was live when Stop began or only Low commands were queued; every task above Low
      has been executed as often as it was submitted if and only if some worker was live or none was
      queued. */
  lemma ShutdownDrain(states: seq<Pool>, acts: seq<Action>)
    requires StopExecution(states, acts) && states[0].control == AfterStopPush(|states[0].workers|, 0)
    ensures |acts| <= Measure(states[0])
    ensures var s, p := states[0], states[|acts|];
            && (p.control == Stopped || exists a :: Enabled(p, a) && !a.AddCommand?)
            && (p.control == Stopped ==>
                  && AllExited(p.workers) && p.queue[StopToken] == s.stale && p.submitted == s.submitted
                  && (forall w: nat | w < |s.workers| :: StopsTaken(acts, w) == if s.workers[w] == Exited then 0 else 1)
                  && (OnlyLow(p.queue) <==> !AllExited(s.workers) || OnlyLow(s.queue))
                  && (AllDone(p) <==> !AllExited(s.workers) || NoTaskAboveLow(s.queue)))
  {
    hide Measure, Conserved, StopsCounted, SuspendsCounted, Enabled, Do, AllDone;
    var n := |acts|;
    var s, p := states[0], states[n];
    StopTerminates(states, acts, n);
    PlainStopControls(states, acts, n);
    StopDrains(states, acts, n);
    if p.control == Stopped {
      StopReturns(states, acts);
      DoneUnlessQueued(p);
      if AllExited(s.workers) {
        NothingRuns(states, acts, n);
        SameAboveLow(s.queue, p.queue);
      }
    } else {
      var a := NeverStuck(p);
    }
  }

  /** Stop tokens are Low and no tasks. */
  lemma SameAboveLow(a: multiset<Command>, b: multiset<Command>)
    requires forall c | c != StopToken :: b[c] == a[c]
    ensures OnlyLow(a) <==> OnlyLow(b)
    ensures NoTaskAboveLow(a) <==> NoTaskAboveLow(b)
  {
    assert forall c | c != StopToken :: c in a <==> c in b;
  }

  lemma {:induction false} PlainStopControls(states: seq<Pool>, acts: seq<Action>, i: nat)
    requires StopExecution(states, acts) && i <= |acts|
    requires states[0].control == AfterStopPush(|states[0].workers|, 0)
    ensures forall k | 0 <= k <= i ::
              || (states[k].control.Stopping? && states[k].control.resize == 0)
              || states[k].control == Joining(0) || states[k].control == Stopped
  {
    if i > 0 {
      PlainStopControls(states, acts, i - 1);
      assert Follows(states, acts, i - 1);
    }
  }

  lemma {:induction false} SetSizeControls(states: seq<Pool>, acts: seq<Action>, n: nat, i: nat)
    requires Execution(states, acts) && Inv(states[0]) && n > 0 && i <= |acts|
    requires states[0].control == AfterStopPush(|states[0].workers|, n)
    requires forall k | 0 <= k < i :: InStop(states[k])
    ensures Inv(states[i])
    ensures var c := states[i].control;
            if c == Ready then |states[i].workers| == n
            else InStop(states[i]) && c.resize == n
  {
    hide Conserved, StopsCounted, SuspendsCounted, Do, Enabled;
    ExecutionKeepsInv(states, acts, i);
    if i > 0 {
      assert Follows(states, acts, i - 1);
      SetSizeControls(states, acts, n, i - 1);
      hide *;
      StopStepControls(states[i - 1], acts[i - 1], n);
    }
  }

  lemma StopStepControls(p: Pool, a: Action, n: nat)
    requires Inv(p) && InStop(p) && p.control.resize == n && n > 0 && Enabled(p, a)
    ensures var c := Do(p, a).control;
            if c == Ready then |Do(p, a).workers| == n else InStop(Do(p, a)) && c.resize == n
  {
    hide Conserved, SuspendsCounted, IsTop;
  }

  /** Resizing loses nothing: when SetSize(n) returns there are n workers, every task ever submitted,
      before or during the call, is done, running or queued, and the stop tokens, queued or taken by
      a new worker, are the stale ones: all workers are live and no token is queued if and only if
      no Stop of a stopped pool came before. */
  lemma ResizingLosesNothing(states: seq<Pool>, acts: seq<Action>, n: nat)
    requires Execution(states, acts) && Inv(states[0]) && n > 0
    requires states[0].control == AfterStopPush(|states[0].workers|, n)
    requires forall k | 0 <= k < |acts| :: InStop(states[k])
    ensures var p := states[|acts|];
            && (!InStop(p) <==> p.control == Ready)
            && (p.control == Ready ==>
                  && |p.workers| == n && !p.suspendFlag && states[0].submitted <= p.submitted
                  && p.queue[StopToken] + Count(p.workers, Exited) == states[0].stale
                  && (Count(p.workers, Exited) == 0 && p.queue[StopToken] == 0 <==> states[0].stale == 0)
                  && forall t: Task ::
                       p.submitted[t] == p.queue[Execute(t)] + Count(p.workers, Running(t)) + multiset(p.done)[t])
  {
    SetSizeControls(states, acts, n, |acts|);
    FlagStaysDown(states, acts, |acts|);
  }

  lemma {:induction false} FlagStaysDown(states: seq<Pool>, acts: seq<Action>, i: nat)
    requires Execution(states, acts) && Inv(states[0]) && InStop(states[0]) && i <= |acts|
    requires forall k | 0 <= k < i :: InStop(states[k])
    ensures !states[i].suspendFlag && states[0].submitted <= states[i].submitted
    ensures states[i].stale == states[0].stale
  {
    if i > 0 {
      FlagStaysDown(states, acts, i - 1);
      assert Follows(states, acts, i - 1);
    }
  }
}
