/** The worker pool over the blocking queue: one thread distributes tasks and finally one
    poison pill per worker; each worker takes tasks until it takes a pill. */
module ThreadPool {
  import opened Naturals
  import opened BlockQueue

  predicate IsPill(task: Task) { task.fd == -1 }

  datatype Taken = Taken(worker: nat, task: Task)

  /** The queue and its threads (0 distributes, the others work), what is still to be
      distributed, and who took what, in order. */
  datatype Pool = Pool(q: State, todo: seq<Task>, log: seq<Taken>)

  ghost function Pills(n: nat): seq<Task> {
    seq(n, _ => Task(-1, 0, ""))
  }

  /** Everything the distributing thread pushes, `thread_pool_exit` included. */
  ghost function Script(tasks: seq<Task>, n: nat): seq<Task> {
    tasks + Pills(n)
  }

  ghost predicate Tasks(tasks: seq<Task>) {
    forall i :: 0 <= i < |tasks| ==> !IsPill(tasks[i])
  }

  ghost function Initial(tasks: seq<Task>, n: nat): Pool {
    Pool(State([], seq(n + 1, _ => Outside)), Script(tasks, n), [])
  }

  ghost predicate CanStep(capacity: nat, p: Pool, step: Step) {
    && Enabled(capacity, p.q, step)
    && match step
       case Pop(t, _) => t > 0
       case Push(t, item, _) => t == 0 && p.todo != [] && item == p.todo[0]
       case Spurious(_) => true
  }

  ghost function StepPool(capacity: nat, p: Pool, step: Step): Pool
    requires CanStep(capacity, p, step)
  {
    var q := Next(capacity, p.q, step);
    match step
    case Pop(t, _) =>
      if p.q.queue == [] then p.(q := q)
      else
        var task := p.q.queue[0];
        p.(q := if IsPill(task) then q.(threads := q.threads[t := Exited]) else q,
           log := p.log + [Taken(t, task)])
    case Push(_, _, _) =>
      if |p.q.queue| == capacity then p.(q := q) else p.(q := q, todo := p.todo[1..])
    case Spurious(_) => p.(q := q)
  }

  /** Whatever the queue allows a worker to take, or the distributing thread to add of what it
      has still to distribute, is a step of the pool; and so is a spurious wake-up. */
  lemma PoolSteps(capacity: nat, p: Pool, t: nat, wake: set<nat>)
    ensures t > 0 && Enabled(capacity, p.q, Pop(t, wake)) ==> CanStep(capacity, p, Pop(t, wake))
    ensures p.todo != [] && Enabled(capacity, p.q, Push(0, p.todo[0], wake)) ==>
      CanStep(capacity, p, Push(0, p.todo[0], wake))
    ensures Enabled(capacity, p.q, Spurious(t)) ==> CanStep(capacity, p, Spurious(t))
  {}

  /** The first worker can take the first task as soon as it is there. */
  lemma FirstTaskTaken(capacity: nat, tasks: seq<Task>, n: nat)
    requires capacity > 0 && n > 0 && tasks != []
    ensures var p0 := Initial(tasks, n);
      && CanStep(capacity, p0, Push(0, tasks[0], {}))
      && var p1 := StepPool(capacity, p0, Push(0, tasks[0], {}));
         && CanStep(capacity, p1, Pop(1, {}))
         && StepPool(capacity, p1, Pop(1, {})).log == [Taken(1, tasks[0])]
  {}

  // ---------------------------------------------------------------- the invariant

  ghost function TakenTasks(log: seq<Taken>): (r: seq<Task>)
    ensures |r| == |log|
  {
    seq(|log|, i requires 0 <= i < |log| => log[i].task)
  }

  ghost function PillCount(tasks: seq<Task>): nat {
    if tasks == [] then 0
    else PillCount(tasks[..|tasks| - 1]) + if IsPill(tasks[|tasks| - 1]) then 1 else 0
  }

  ghost function PillsBy(log: seq<Taken>, t: nat): nat {
    if log == [] then 0
    else
      var last := log[|log| - 1];
      PillsBy(log[..|log| - 1], t) + if last.worker == t && IsPill(last.task) then 1 else 0
  }

  ghost function ExitedThreads(threads: seq<Status>): set<nat> {
    set t: nat | t < |threads| && threads[t].Exited?
  }

  ghost predicate RoleFits(threads: seq<Status>, todo: seq<Task>, t: nat)
    requires t < |threads|
  {
    match threads[t]
    case Outside => true
    case AsleepEmpty => t > 0
    case WokenEmpty => t > 0
    case Exited => t > 0
    case AsleepFull(item) => t == 0 && todo != [] && item == todo[0]
    case WokenFull(item) => t == 0 && todo != [] && item == todo[0]
  }

  /** Threads 0 to n are only ever in the states of their roles. */
  ghost predicate RolesFit(n: nat, threads: seq<Status>, todo: seq<Task>) {
    |threads| == n + 1 && forall t :: 0 <= t <= n ==> RoleFits(threads, todo, t)
  }

  /** What is taken, queued and still to come is the script, in order. */
  ghost predicate Flow(log: seq<Taken>, queue: seq<Task>, todo: seq<Task>, script: seq<Task>) {
    TakenTasks(log) + (queue + todo) == script
  }

  /** A thread has exited exactly if it took a pill, and then it took one only. */
  ghost predicate Ledger(log: seq<Taken>, exited: set<nat>) {
    && (forall t: nat :: PillsBy(log, t) == if t in exited then 1 else 0)
    && PillCount(TakenTasks(log)) == |exited|
  }

  ghost predicate Inv(capacity: nat, tasks: seq<Task>, n: nat, p: Pool) {
    && RolesFit(n, p.q.threads, p.todo)
    && NoLostWakeUp(capacity, p.q)
    && Flow(p.log, p.q.queue, p.todo, Script(tasks, n))
    && Ledger(p.log, ExitedThreads(p.q.threads))
  }

  lemma InitialInv(capacity: nat, tasks: seq<Task>, n: nat)
    ensures Inv(capacity, tasks, n, Initial(tasks, n))
  {
    NoLostWakeUpInitially(capacity, Initial(tasks, n).q.threads);
    assert ExitedThreads(Initial(tasks, n).q.threads) == {};
    assert TakenTasks([]) + ([] + Script(tasks, n)) == Script(tasks, n);
  }

  lemma TakenAppended(log: seq<Taken>, e: Taken)
    ensures TakenTasks(log + [e]) == TakenTasks(log) + [e.task]
    ensures PillCount(TakenTasks(log + [e])) == PillCount(TakenTasks(log)) + if IsPill(e.task) then 1 else 0
    ensures forall t :: PillsBy(log + [e], t) == PillsBy(log, t) + (if e.worker == t && IsPill(e.task) then 1 else 0)
  {
    assert TakenTasks(log + [e]) == TakenTasks(log) + [e.task];
    assert (TakenTasks(log) + [e.task])[..|log|] == TakenTasks(log);
    assert (log + [e])[..|log|] == log;
  }

  lemma FlowTaken(log: seq<Taken>, queue: seq<Task>, todo: seq<Task>, script: seq<Task>, t: nat)
    requires Flow(log, queue, todo, script) && queue != []
    ensures Flow(log + [Taken(t, queue[0])], queue[1..], todo, script)
  {
    TakenAppended(log, Taken(t, queue[0]));
    assert queue + todo == [queue[0]] + (queue[1..] + todo);
  }

  lemma LedgerTaken(log: seq<Taken>, exited: set<nat>, t: nat, task: Task)
    requires Ledger(log, exited) && t !in exited
    ensures Ledger(log + [Taken(t, task)], if IsPill(task) then exited + {t} else exited)
  {
    TakenAppended(log, Taken(t, task));
  }

  /** The threads after one of them has been served, some have been woken, and the one that
      was served has perhaps exited. */
  ghost function Served(threads: seq<Status>, t: nat, wake: set<nat>, exits: bool): seq<Status>
    requires t < |threads|
  {
    var threads' := WakeAll(threads[t := Outside], wake);
    if exits then threads'[t := Exited] else threads'
  }

  lemma ServedRolesFit(n: nat, threads: seq<Status>, todo: seq<Task>, t: nat, wake: set<nat>, exits: bool)
    requires RolesFit(n, threads, todo) && t <= n && (exits ==> t > 0)
    ensures RolesFit(n, Served(threads, t, wake, exits), todo)
  {
    forall u | 0 <= u <= n ensures RoleFits(Served(threads, t, wake, exits), todo, u) {
      assert RoleFits(threads, todo, u);
    }
  }

  lemma ServedExits(threads: seq<Status>, t: nat, wake: set<nat>, exits: bool)
    requires t < |threads| && !threads[t].Exited?
    ensures ExitedThreads(Served(threads, t, wake, exits)) == ExitedThreads(threads) + (if exits then {t} else {})
    ensures t !in ExitedThreads(threads)
  {}

  lemma ExitKeepsWakeUps(capacity: nat, q: State, t: nat)
    requires NoLostWakeUp(capacity, q) && t < |q.threads| && q.threads[t].Outside?
    ensures NoLostWakeUp(capacity, q.(threads := q.threads[t := Exited]))
  {
    var threads := q.threads[t := Exited];
    assert SleepersEmpty(threads) == SleepersEmpty(q.threads);
    assert SleepersFull(threads) == SleepersFull(q.threads);
    assert WokenOnEmpty(threads) == WokenOnEmpty(q.threads);
    assert WokenOnFull(threads) == WokenOnFull(q.threads);
  }

  lemma TakeInv(capacity: nat, tasks: seq<Task>, n: nat, p: Pool, t: nat, wake: set<nat>)
    requires Inv(capacity, tasks, n, p) && CanStep(capacity, p, Pop(t, wake)) && p.q.queue != []
    ensures Inv(capacity, tasks, n, StepPool(capacity, p, Pop(t, wake)))
  {
    var task := p.q.queue[0];
    NoLostWakeUpKept(capacity, p.q, Pop(t, wake));
    ServedRolesFit(n, p.q.threads, p.todo, t, wake, IsPill(task));
    ServedExits(p.q.threads, t, wake, IsPill(task));
    FlowTaken(p.log, p.q.queue, p.todo, Script(tasks, n), t);
    LedgerTaken(p.log, ExitedThreads(p.q.threads), t, task);
    if IsPill(task) {
      ExitKeepsWakeUps(capacity, Next(capacity, p.q, Pop(t, wake)), t);
    }
    var p' := StepPool(capacity, p, Pop(t, wake));
    assert p'.q.threads == Served(p.q.threads, t, wake, IsPill(task));
    assert p'.q.queue == p.q.queue[1..] && p'.todo == p.todo;
  }

  lemma PushInv(capacity: nat, tasks: seq<Task>, n: nat, p: Pool, item: Task, wake: set<nat>)
    requires Inv(capacity, tasks, n, p) && CanStep(capacity, p, Push(0, item, wake)) && |p.q.queue| < capacity
    ensures Inv(capacity, tasks, n, StepPool(capacity, p, Push(0, item, wake)))
  {
    NoLostWakeUpKept(capacity, p.q, Push(0, item, wake));
    ServedExits(p.q.threads, 0, wake, false);
    var threads := Served(p.q.threads, 0, wake, false);
    forall u | 0 <= u <= n ensures RoleFits(threads, p.todo[1..], u) {
      assert RoleFits(p.q.threads, p.todo, u);
    }
    assert (p.q.queue + [item]) + p.todo[1..] == p.q.queue + p.todo;
  }

  /** A step that only puts one thread to sleep, or wakes one. */
  lemma MoodInv(capacity: nat, tasks: seq<Task>, n: nat, p: Pool, step: Step)
    requires Inv(capacity, tasks, n, p) && CanStep(capacity, p, step)
    requires step.Pop? ==> p.q.queue == []
    requires step.Push? ==> |p.q.queue| == capacity
    ensures Inv(capacity, tasks, n, StepPool(capacity, p, step))
  {
    var threads' := Next(capacity, p.q, step).threads;
    NoLostWakeUpKept(capacity, p.q, step);
    assert ExitedThreads(threads') == ExitedThreads(p.q.threads);
    forall u | 0 <= u <= n ensures RoleFits(threads', p.todo, u) {
      assert RoleFits(p.q.threads, p.todo, u);
    }
  }

  lemma StepInv(capacity: nat, tasks: seq<Task>, n: nat, p: Pool, step: Step)
    requires Inv(capacity, tasks, n, p) && CanStep(capacity, p, step)
    ensures Inv(capacity, tasks, n, StepPool(capacity, p, step))
  {
    if step.Pop? && p.q.queue != [] {
      TakeInv(capacity, tasks, n, p, step.t, step.wake);
    } else if step.Push? && |p.q.queue| < capacity {
      PushInv(capacity, tasks, n, p, step.item, step.wake);
    } else {
      MoodInv(capacity, tasks, n, p, step);
    }
  }

  // ---------------------------------------------------------------- clean shutdown

  ghost predicate AllExited(n: nat, p: Pool) {
    |p.q.threads| == n + 1 && forall t :: 1 <= t <= n ==> p.q.threads[t].Exited?
  }

  /** No thread that is awake can do anything. */
  ghost predicate Stuck(capacity: nat, p: Pool) {
    forall step :: CanStep(capacity, p, step) ==> step.Spurious?
  }

  lemma AwakeWorkerCanStep(capacity: nat, p: Pool, t: nat)
    requires Stuck(capacity, p) && 0 < t < |p.q.threads|
    ensures !p.q.threads[t].Outside? && !p.q.threads[t].WokenEmpty?
  {
    var step := Pop(t, if p.q.queue == [] then {} else SleepersFull(p.q.threads));
    assert !CanStep(capacity, p, step);
  }

  lemma AwakeDistributorCanStep(capacity: nat, p: Pool)
    requires Stuck(capacity, p) && |p.q.threads| > 0 && p.todo != []
    ensures !p.q.threads[0].Outside? && p.q.threads[0] != WokenFull(p.todo[0])
  {
    var step := Push(0, p.todo[0], if |p.q.queue| == capacity then {} else SleepersEmpty(p.q.threads));
    assert !CanStep(capacity, p, step);
  }

  lemma {:induction false} PillCountAppend(a: seq<Task>, b: seq<Task>)
    ensures PillCount(a + b) == PillCount(a) + PillCount(b)
  {
    if b == [] {
      assert a + b == a;
    } else {
      var b' := b[..|b| - 1];
      assert (a + b)[..|a + b| - 1] == a + b';
      PillCountAppend(a, b');
    }
  }

  lemma {:induction false} ScriptPills(tasks: seq<Task>, n: nat)
    requires Tasks(tasks)
    ensures PillCount(Script(tasks, n)) == n
  {
    var script := Script(tasks, n);
    if n > 0 {
      ScriptPills(tasks, n - 1);
      assert script[..|script| - 1] == Script(tasks, n - 1);
    } else if tasks != [] {
      ScriptPills(tasks[..|tasks| - 1], 0);
      assert script[..|script| - 1] == Script(tasks[..|tasks| - 1], 0);
    }
  }

  lemma LastIsPill(a: seq<Task>, b: seq<Task>, tasks: seq<Task>, n: nat)
    requires a + b == Script(tasks, n) && n > 0 && b != []
    ensures PillCount(b) > 0
  {
    assert b[|b| - 1] == (a + b)[|a + b| - 1];
  }

  /** Once every worker has exited, nothing is left in the queue or to be distributed. */
  lemma AllExitedMeansDrained(capacity: nat, tasks: seq<Task>, n: nat, p: Pool)
    requires Inv(capacity, tasks, n, p) && Tasks(tasks) && n > 0 && AllExited(n, p)
    ensures p.q.queue == [] && p.todo == [] && TakenTasks(p.log) == Script(tasks, n)
  {
    var taken, rest := TakenTasks(p.log), p.q.queue + p.todo;
    assert taken + rest == Script(tasks, n);
    ScriptPills(tasks, n);
    PillCountAppend(taken, rest);
    assert RoleFits(p.q.threads, p.todo, 0);
    WorkerCount(n, ExitedThreads(p.q.threads));
    if rest != [] {
      LastIsPill(taken, rest, tasks, n);
    }
  }

  /** Once everything has been taken, every worker has had its pill. */
  lemma DrainedMeansAllExited(capacity: nat, tasks: seq<Task>, n: nat, p: Pool)
    requires Inv(capacity, tasks, n, p) && Tasks(tasks) && p.q.queue == [] && p.todo == []
    ensures AllExited(n, p)
  {
    assert TakenTasks(p.log) == Script(tasks, n);
    ScriptPills(tasks, n);
    assert RoleFits(p.q.threads, p.todo, 0);
    WorkerCount(n, ExitedThreads(p.q.threads));
    forall t | 1 <= t <= n ensures p.q.threads[t].Exited? {
      assert t in ExitedThreads(p.q.threads);
    }
  }

  lemma {:induction false} WorkerCount(n: nat, exited: set<nat>)
    requires forall t :: t in exited ==> 1 <= t <= n
    ensures |exited| <= n
    ensures (forall t :: 1 <= t <= n ==> t in exited) <==> |exited| == n
  {
    if n == 0 {
      assert exited == {};
    } else {
      WorkerCount(n - 1, exited - {n});
      assert n in exited ==> exited == (exited - {n}) + {n};
      assert n !in exited ==> exited - {n} == exited;
      assert |exited| == n ==> n in exited && |exited - {n}| == n - 1;
    }
  }

  /** Shutdown is over: every worker has exited with one pill, nothing is queued or left to
      distribute, and every task was taken once, in order, before any pill. */
  ghost predicate Done(tasks: seq<Task>, n: nat, p: Pool) {
    && AllExited(n, p) && p.q.queue == [] && p.todo == []
    && TakenTasks(p.log) == tasks + Pills(n)
    && forall t :: 1 <= t <= n ==> PillsBy(p.log, t) == 1
  }

  /** The pool is never stuck before it is done: no awake thread can act only when shutdown
      is over. */
  lemma CleanShutdown(capacity: nat, tasks: seq<Task>, n: nat, p: Pool)
    requires Inv(capacity, tasks, n, p) && Tasks(tasks) && n > 0 && capacity > 0
    requires Stuck(capacity, p)
    ensures Done(tasks, n, p)
  {
    forall t | 1 <= t <= n
      ensures p.q.threads[t].AsleepEmpty? || p.q.threads[t].Exited?
    {
      assert RoleFits(p.q.threads, p.todo, t);
      AwakeWorkerCanStep(capacity, p, t);
    }
    assert RoleFits(p.q.threads, p.todo, 0);
    assert WokenOnEmpty(p.q.threads) == {};
    if p.todo != [] {
      AwakeDistributorCanStep(capacity, p);
      assert 0 in SleepersFull(p.q.threads);
      assert WokenOnFull(p.q.threads) == {} by {
        assert forall t :: 1 <= t <= n ==> !p.q.threads[t].WokenFull?;
      }
      assert p.q.queue != [];
    }
    if SleepersEmpty(p.q.threads) == {} {
      forall t | 1 <= t <= n ensures p.q.threads[t].Exited? {
        assert t !in SleepersEmpty(p.q.threads);
      }
    } else {
      DrainedMeansAllExited(capacity, tasks, n, p);
    }
    AllExitedMeansDrained(capacity, tasks, n, p);
  }

  // ---------------------------------------------------------------- whole runs

  ghost function Awake(threads: seq<Status>): set<nat> {
    set t: nat | t < |threads| && !threads[t].AsleepEmpty? && !threads[t].AsleepFull? && !threads[t].Exited?
  }

  /** The pushes and takes still to come. */
  ghost function Actions(p: Pool): nat {
    |p.todo| + |p.todo| + |p.q.queue|
  }

  /** How much the awake threads can still do at most without a spurious wake-up: a push or
      a take is worth more than waking all n + 1 threads. */
  ghost function Work(n: nat, p: Pool): nat {
    Actions(p) * (n + 2) + |Awake(p.q.threads)|
  }

  lemma {:induction false} AwakeBound(threads: seq<Status>)
    ensures |Awake(threads)| <= |threads|
  {
    if threads == [] {
      assert Awake(threads) == {};
    } else {
      var front := threads[..|threads| - 1];
      AwakeBound(front);
      Contained(Awake(threads), Awake(front) + {|threads| - 1});
    }
  }

  /** A step that pushes or takes something leaves one action fewer; a failed attempt puts
      its thread to sleep. */
  lemma StepUses(capacity: nat, p: Pool, step: Step)
    requires CanStep(capacity, p, step) && |p.q.queue| <= capacity
    ensures var p' := StepPool(capacity, p, step);
      var awake, awake' := Awake(p.q.threads), Awake(p'.q.threads);
      match step
      case Spurious(t) => Actions(p') == Actions(p) && awake' == awake + {t} && t !in awake
      case Pop(t, _) =>
        t in awake && (if p.q.queue == [] then Actions(p') == Actions(p) && awake' == awake - {t}
                       else Actions(p') == Actions(p) - 1)
      case Push(t, _, _) =>
        t in awake && (if |p.q.queue| == capacity then Actions(p') == Actions(p) && awake' == awake - {t}
                       else Actions(p') == Actions(p) - 1)
  {}

  lemma WorkArithmetic(n: nat, a: nat, a': nat)
    requires a' == a - 1
    ensures a' * (n + 2) == a * (n + 2) - (n + 2)
  {}

  /** Every step of an awake thread uses up work; a spurious wake-up adds one unit. */
  lemma WorkUsed(capacity: nat, tasks: seq<Task>, n: nat, p: Pool, step: Step)
    requires Inv(capacity, tasks, n, p) && CanStep(capacity, p, step)
    ensures var p' := StepPool(capacity, p, step);
      if step.Spurious? then Work(n, p') == Work(n, p) + 1 else Work(n, p') < Work(n, p)
  {
    var p' := StepPool(capacity, p, step);
    StepUses(capacity, p, step);
    var awake := Awake(p.q.threads);
    if Actions(p') == Actions(p) - 1 {
      assert |p'.q.threads| == n + 1;
      AwakeBound(p'.q.threads);
      WorkArithmetic(n, Actions(p), Actions(p'));
    } else if step.Pop? {
      assert awake == (awake - {step.t}) + {step.t};
    } else if step.Push? {
      assert awake == (awake - {step.t}) + {step.t};
    }
  }

  ghost predicate IsRun(capacity: nat, p: Pool, steps: seq<Step>)
    decreases |steps|
  {
    steps == [] || (CanStep(capacity, p, steps[0]) && IsRun(capacity, StepPool(capacity, p, steps[0]), steps[1..]))
  }

  ghost function End(capacity: nat, p: Pool, steps: seq<Step>): Pool
    requires IsRun(capacity, p, steps)
    decreases |steps|
  {
    if steps == [] then p else End(capacity, StepPool(capacity, p, steps[0]), steps[1..])
  }

  ghost function SpuriousIn(steps: seq<Step>): nat {
    if steps == [] then 0 else (if steps[0].Spurious? then 1 else 0) + SpuriousIn(steps[1..])
  }

  /** Every run keeps the invariant, and its length is bounded by the initial work and the
      number of spurious wake-ups. */
  lemma {:induction false} RunBounded(capacity: nat, tasks: seq<Task>, n: nat, p: Pool, steps: seq<Step>)
    requires Inv(capacity, tasks, n, p) && IsRun(capacity, p, steps)
    ensures var p' := End(capacity, p, steps);
      && Inv(capacity, tasks, n, p')
      && |steps| + Work(n, p') <= Work(n, p) + 2 * SpuriousIn(steps)
    decreases |steps|
  {
    if steps != [] {
      StepInv(capacity, tasks, n, p, steps[0]);
      WorkUsed(capacity, tasks, n, p, steps[0]);
      RunBounded(capacity, tasks, n, StepPool(capacity, p, steps[0]), steps[1..]);
    }
  }

  lemma TakenInOrder(capacity: nat, tasks: seq<Task>, n: nat, p: Pool)
    requires Inv(capacity, tasks, n, p)
    ensures TakenTasks(p.log) <= Script(tasks, n)
  {
  }

  /** Whatever the interleaving: a run from the start has boundedly many steps beside the
      spurious ones, tasks are taken in the order distributed, and when no awake thread can
      go on, shutdown is over. */
  lemma ShutdownUnderEveryInterleaving(capacity: nat, tasks: seq<Task>, n: nat, steps: seq<Step>)
    requires capacity > 0 && n > 0 && Tasks(tasks)
    requires IsRun(capacity, Initial(tasks, n), steps)
    ensures var p := End(capacity, Initial(tasks, n), steps);
      && TakenTasks(p.log) <= Script(tasks, n)
      && |steps| <= Work(n, Initial(tasks, n)) + 2 * SpuriousIn(steps)
      && (Stuck(capacity, p) ==> Done(tasks, n, p))
  {
    InitialInv(capacity, tasks, n);
    RunBounded(capacity, tasks, n, Initial(tasks, n), steps);
    var p := End(capacity, Initial(tasks, n), steps);
    TakenInOrder(capacity, tasks, n, p);
    if Stuck(capacity, p) {
      CleanShutdown(capacity, tasks, n, p);
    }
  }

  // ---------------------------------------------------------------- on the ring buffer

  /** One turn of a worker's loop: a pill makes it exit. */
  method WorkerSection(q: RingQueue, t: nat, wake: set<nat>) returns (taken: seq<Taken>)
    requires q.Valid() && Enabled(q.taskQueue.Length, q.View(), Pop(t, wake))
    modifies q, q.threads
    ensures q.Valid()
    ensures var p := Pool(old(q.View()), [], []);
      t > 0 ==> Pool(q.View(), [], taken) == StepPool(q.taskQueue.Length, p, Pop(t, wake))
  {
    var ok, newTask := q.PopSection(t, wake);
    if !ok {
      return [];
    }
    if newTask.fd == -1 {
      q.threads[t] := Exited;
    }
    taken := [Taken(t, newTask)];
  }

  /** One step of the pool, performed in the heap. */
  method PoolSection(q: RingQueue, todo: seq<Task>, log: seq<Taken>, step: Step)
    returns (todo': seq<Task>, log': seq<Taken>)
    requires q.Valid() && CanStep(q.taskQueue.Length, Pool(q.View(), todo, log), step)
    modifies q, q.taskQueue, q.threads
    ensures q.Valid()
    ensures Pool(q.View(), todo', log') == StepPool(q.taskQueue.Length, Pool(old(q.View()), todo, log), step)
  {
    todo', log' := todo, log;
    match step
    case Pop(t, wake) =>
      var taken := WorkerSection(q, t, wake);
      log' := log + taken;
    case Push(t, item, wake) =>
      var done := q.PushSection(t, item, wake);
      if done {
        todo' := todo[1..];
      }
    case Spurious(t) =>
      q.threads[t] := Wake(q.threads[t]);
  }

  /** The pool in the heap follows every run step by step. */
  method RunPool(capacity: nat, tasks: seq<Task>, n: nat, steps: seq<Step>)
    returns (q: RingQueue, todo: seq<Task>, log: seq<Taken>)
    requires capacity > 0 && IsRun(capacity, Initial(tasks, n), steps)
    ensures q.Valid() && q.taskQueue.Length == capacity
    ensures Pool(q.View(), todo, log) == End(capacity, Initial(tasks, n), steps)
  {
    q := new RingQueue(capacity, n + 1);
    todo, log := tasks + seq(n, _ => Task(-1, 0, "")), [];
    var rest := steps;
    while rest != []
      invariant q.Valid() && fresh(q) && fresh(q.taskQueue) && fresh(q.threads)
      invariant q.taskQueue.Length == capacity
      invariant IsRun(capacity, Pool(q.View(), todo, log), rest)
      invariant End(capacity, Pool(q.View(), todo, log), rest) == End(capacity, Initial(tasks, n), steps)
      decreases |rest|
    {
      todo, log := PoolSection(q, todo, log, rest[0]);
      rest := rest[1..];
    }
  }
}
