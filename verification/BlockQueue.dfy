/** The bounded blocking queue: a ring buffer under one mutex with two condition variables.
    A critical section, from taking the mutex to releasing it or to going to sleep on a
    condition, is one step; threads interleave between steps in any order. */
module BlockQueue {
  import opened Naturals

  datatype Task = Task(fd: int, state: int, info: string)

  /** Where a thread stands: not in a queue operation, asleep on a condition, or woken but
      not yet holding the mutex again; a producer carries the task it wants to add. */
  datatype Status =
    | Outside
    | AsleepEmpty
    | WokenEmpty
    | AsleepFull(item: Task)
    | WokenFull(item: Task)
    | Exited

  // ---------------------------------------------------------------- the steps

  datatype State = State(queue: seq<Task>, threads: seq<Status>)

  /** `wake` is the set of threads that the step's signal wakes. */
  datatype Step =
    | Pop(t: nat, wake: set<nat>)
    | Push(t: nat, item: Task, wake: set<nat>)
    | Spurious(t: nat)

  ghost function SleepersEmpty(threads: seq<Status>): set<nat> {
    set t: nat | t < |threads| && threads[t].AsleepEmpty?
  }

  ghost function SleepersFull(threads: seq<Status>): set<nat> {
    set t: nat | t < |threads| && threads[t].AsleepFull?
  }

  ghost function WokenOnEmpty(threads: seq<Status>): set<nat> {
    set t: nat | t < |threads| && threads[t].WokenEmpty?
  }

  ghost function WokenOnFull(threads: seq<Status>): set<nat> {
    set t: nat | t < |threads| && threads[t].WokenFull?
  }

  function Wake(s: Status): Status {
    match s
    case AsleepEmpty => WokenEmpty
    case AsleepFull(item) => WokenFull(item)
    case _ => s
  }

  function WakeAll(threads: seq<Status>, wake: set<nat>): (r: seq<Status>)
    ensures |r| == |threads|
    ensures forall t :: 0 <= t < |r| ==> r[t] == if t in wake then Wake(threads[t]) else threads[t]
  {
    seq(|threads|, t requires 0 <= t < |threads| => if t in wake then Wake(threads[t]) else threads[t])
  }

  /** `pthread_cond_signal` wakes at least one thread if any is asleep on the condition. */
  ghost predicate Signals(wake: set<nat>, sleepers: set<nat>) {
    wake <= sleepers && (sleepers != {} ==> wake != {})
  }

  ghost predicate Enabled(capacity: nat, s: State, step: Step) {
    match step
    case Pop(t, wake) =>
      && t < |s.threads| && (s.threads[t].Outside? || s.threads[t].WokenEmpty?)
      && (if s.queue == [] then wake == {} else Signals(wake, SleepersFull(s.threads)))
    case Push(t, item, wake) =>
      && t < |s.threads| && (s.threads[t].Outside? || s.threads[t] == WokenFull(item))
      && (if |s.queue| == capacity then wake == {} else Signals(wake, SleepersEmpty(s.threads)))
    case Spurious(t) =>
      t < |s.threads| && (s.threads[t].AsleepEmpty? || s.threads[t].AsleepFull?)
  }

  ghost function Next(capacity: nat, s: State, step: Step): State
    requires Enabled(capacity, s, step)
  {
    match step
    case Pop(t, wake) =>
      if s.queue == [] then s.(threads := s.threads[t := AsleepEmpty])
      else State(s.queue[1..], WakeAll(s.threads[t := Outside], wake))
    case Push(t, item, wake) =>
      if |s.queue| == capacity then s.(threads := s.threads[t := AsleepFull(item)])
      else State(s.queue + [item], WakeAll(s.threads[t := Outside], wake))
    case Spurious(t) =>
      s.(threads := s.threads[t := Wake(s.threads[t])])
  }

  /** What may happen next: a thread that is awake may pop, or push anything it has not begun to
      push, and its signal may wake any sleepers, one of them or several; and any sleeper may
      wake of itself. */
  lemma StepsAllowed(capacity: nat, s: State, t: nat, item: Task, wake: set<nat>)
    requires t < |s.threads|
    ensures s.threads[t].Outside? || s.threads[t].WokenEmpty? ==>
      && (s.queue == [] ==> Enabled(capacity, s, Pop(t, {})))
      && (s.queue != [] && wake <= SleepersFull(s.threads) && (wake != {} || SleepersFull(s.threads) == {}) ==>
            Enabled(capacity, s, Pop(t, wake)))
    ensures s.threads[t].Outside? || s.threads[t] == WokenFull(item) ==>
      && (|s.queue| == capacity ==> Enabled(capacity, s, Push(t, item, {})))
      && (|s.queue| != capacity && wake <= SleepersEmpty(s.threads) && (wake != {} || SleepersEmpty(s.threads) == {}) ==>
            Enabled(capacity, s, Push(t, item, wake)))
    ensures s.threads[t].AsleepEmpty? || s.threads[t].AsleepFull? ==> Enabled(capacity, s, Spurious(t))
  {}

  /** What a step does: a task taken is the first, a task added is the last, and a step that
      can do neither puts its thread to sleep. */
  lemma StepEffect(capacity: nat, s: State, step: Step)
    requires Enabled(capacity, s, step)
    ensures var s' := Next(capacity, s, step);
      && |s'.threads| == |s.threads|
      && match step
         case Pop(t, wake) =>
           if s.queue == [] then s'.queue == [] && s'.threads[t].AsleepEmpty?
           else s.queue == [s.queue[0]] + s'.queue && s'.threads[t].Outside?
                && forall u <- wake :: s'.threads[u].WokenFull?
         case Push(t, item, wake) =>
           if |s.queue| == capacity then s'.queue == s.queue && s'.threads[t] == AsleepFull(item)
           else s'.queue == s.queue + [item] && s'.threads[t].Outside?
                && forall u <- wake :: s'.threads[u].WokenEmpty?
         case Spurious(t) => s'.queue == s.queue && (s'.threads[t].WokenEmpty? || s'.threads[t].WokenFull?)
  {}

  // ---------------------------------------------------------------- no lost wake-up

  /** If anyone sleeps, at least `due` threads are awake that will serve what is due. */
  ghost predicate Covered(sleepers: set<nat>, woken: set<nat>, due: int) {
    sleepers != {} ==> due <= |woken|
  }

  /** Whoever sleeps although the queue could serve it is outnumbered by woken threads
      that will: tasks for consumers, free room for producers. */
  ghost predicate NoLostWakeUp(capacity: nat, s: State) {
    && |s.queue| <= capacity
    && Covered(SleepersEmpty(s.threads), WokenOnEmpty(s.threads), |s.queue|)
    && Covered(SleepersFull(s.threads), WokenOnFull(s.threads), capacity - |s.queue|)
  }

  lemma NoLostWakeUpInitially(capacity: nat, threads: seq<Status>)
    requires forall t :: 0 <= t < |threads| ==> threads[t] == Outside
    ensures NoLostWakeUp(capacity, State([], threads))
  {}

  /** No step of any thread loses a wake-up, spurious ones included. */
  lemma NoLostWakeUpKept(capacity: nat, s: State, step: Step)
    requires NoLostWakeUp(capacity, s) && Enabled(capacity, s, step)
    ensures NoLostWakeUp(capacity, Next(capacity, s, step))
  {
    match step
    case Pop(t, wake) => PopKeeps(capacity, s, t, wake);
    case Push(t, item, wake) => PushKeeps(capacity, s, t, item, wake);
    case Spurious(t) =>
      var s' := Next(capacity, s, step);
      Contained(WokenOnEmpty(s.threads), WokenOnEmpty(s'.threads));
      Contained(WokenOnFull(s.threads), WokenOnFull(s'.threads));
      assert SleepersEmpty(s'.threads) <= SleepersEmpty(s.threads);
      assert SleepersFull(s'.threads) <= SleepersFull(s.threads);
  }

  /** A woken thread may be the one that is served, and what is due goes down by one. */
  lemma CoveredOneLess(sleepers: set<nat>, woken: set<nat>, due: int, t: nat)
    requires Covered(sleepers, woken, due)
    ensures Covered(sleepers, woken - {t}, due - 1)
  {
    assert t in woken ==> woken == (woken - {t}) + {t};
    assert t !in woken ==> woken - {t} == woken;
  }

  /** One more is due, and the signal has woken a sleeper if there was any. */
  lemma CoveredOneMore(sleepers: set<nat>, woken: set<nat>, due: int, t: nat, wake: set<nat>)
    requires Covered(sleepers, woken, due) && Signals(wake, sleepers)
    requires t !in woken && wake !! woken
    ensures Covered(sleepers - wake, woken - {t} + wake, due + 1)
  {
    assert woken - {t} == woken;
    assert wake != {} ==> |wake| >= 1;
  }

  /** The four sets after an awake thread has been served and its signal has woken some
      sleepers on `not_full`. */
  lemma ServedWakingFull(threads: seq<Status>, t: nat, wake: set<nat>)
    requires t < |threads| && !threads[t].AsleepEmpty? && !threads[t].AsleepFull?
    requires wake <= SleepersFull(threads)
    ensures var threads' := WakeAll(threads[t := Outside], wake);
      && SleepersEmpty(threads') == SleepersEmpty(threads)
      && SleepersFull(threads') == SleepersFull(threads) - wake
      && WokenOnEmpty(threads') == WokenOnEmpty(threads) - {t}
      && WokenOnFull(threads') == WokenOnFull(threads) - {t} + wake
  {}

  lemma ServedWakingEmpty(threads: seq<Status>, t: nat, wake: set<nat>)
    requires t < |threads| && !threads[t].AsleepEmpty? && !threads[t].AsleepFull?
    requires wake <= SleepersEmpty(threads)
    ensures var threads' := WakeAll(threads[t := Outside], wake);
      && SleepersEmpty(threads') == SleepersEmpty(threads) - wake
      && SleepersFull(threads') == SleepersFull(threads)
      && WokenOnEmpty(threads') == WokenOnEmpty(threads) - {t} + wake
      && WokenOnFull(threads') == WokenOnFull(threads) - {t}
  {}

  lemma PopKeeps(capacity: nat, s: State, t: nat, wake: set<nat>)
    requires NoLostWakeUp(capacity, s) && Enabled(capacity, s, Pop(t, wake))
    ensures NoLostWakeUp(capacity, Next(capacity, s, Pop(t, wake)))
  {
    var s' := Next(capacity, s, Pop(t, wake));
    if s.queue == [] {
      Contained(WokenOnFull(s.threads), WokenOnFull(s'.threads));
      assert SleepersFull(s'.threads) == SleepersFull(s.threads);
    } else {
      ServedWakingFull(s.threads, t, wake);
      CoveredOneLess(SleepersEmpty(s.threads), WokenOnEmpty(s.threads), |s.queue|, t);
      CoveredOneMore(SleepersFull(s.threads), WokenOnFull(s.threads), capacity - |s.queue|, t, wake);
    }
  }

  lemma PushKeeps(capacity: nat, s: State, t: nat, item: Task, wake: set<nat>)
    requires NoLostWakeUp(capacity, s) && Enabled(capacity, s, Push(t, item, wake))
    ensures NoLostWakeUp(capacity, Next(capacity, s, Push(t, item, wake)))
  {
    var s' := Next(capacity, s, Push(t, item, wake));
    if |s.queue| == capacity {
      Contained(WokenOnEmpty(s.threads), WokenOnEmpty(s'.threads));
      assert SleepersEmpty(s'.threads) == SleepersEmpty(s.threads);
    } else {
      ServedWakingEmpty(s.threads, t, wake);
      CoveredOneLess(SleepersFull(s.threads), WokenOnFull(s.threads), capacity - |s.queue|, t);
      CoveredOneMore(SleepersEmpty(s.threads), WokenOnEmpty(s.threads), |s.queue|, t, wake);
    }
  }

  /** With a task queued and a consumer asleep, some consumer is awake and can take it;
      with room free and a producer asleep, some producer is awake and can fill it. */
  lemma SomeoneCanServe(capacity: nat, s: State)
    requires NoLostWakeUp(capacity, s)
    ensures SleepersEmpty(s.threads) != {} && s.queue != [] ==>
      exists t :: 0 <= t < |s.threads| && s.threads[t].WokenEmpty?
    ensures SleepersFull(s.threads) != {} && |s.queue| < capacity ==>
      exists t :: 0 <= t < |s.threads| && s.threads[t].WokenFull?
  {
    if SleepersEmpty(s.threads) != {} && s.queue != [] {
      var t :| t in WokenOnEmpty(s.threads);
      assert s.threads[t].WokenEmpty?;
    }
    if SleepersFull(s.threads) != {} && |s.queue| < capacity {
      var t :| t in WokenOnFull(s.threads);
      assert s.threads[t].WokenFull?;
    }
  }

  // ---------------------------------------------------------------- the ring buffer

  class RingQueue {
    var front: nat
    var rear: nat
    var size: nat
    const taskQueue: array<Task>
    // The state of every thread that uses the queue, and with it the two wait sets.
    const threads: array<Status>

    ghost predicate Valid()
      reads this
    {
      && 0 < taskQueue.Length
      && front < taskQueue.Length && size <= taskQueue.Length
      && rear == Wrap(front + size, taskQueue.Length)
    }

    /** Position p of a ring of n slots, for p no more than one lap ahead. */
    static function Wrap(p: nat, n: nat): int {
      if p < n then p else p - n
    }

    /** The tasks in queue order, from `front` around the ring. */
    ghost function Contents(): (q: seq<Task>)
      requires Valid()
      reads this, taskQueue
      ensures |q| == size
    {
      if front + size <= taskQueue.Length then taskQueue[front..front + size]
      else taskQueue[front..] + taskQueue[..front + size - taskQueue.Length]
    }

    ghost function View(): State
      requires Valid()
      reads this, taskQueue, threads
    {
      State(Contents(), threads[..])
    }

    constructor (capacity: nat, threadNum: nat)
      requires capacity > 0
      ensures Valid() && fresh(taskQueue) && fresh(threads)
      ensures taskQueue.Length == capacity
      ensures View() == State([], seq(threadNum, _ => Outside))
    {
      front, rear, size := 0, 0, 0;
      taskQueue := new Task[capacity](_ => Task(0, 0, ""));
      threads := new Status[threadNum](_ => Outside);
      new;
      assert threads[..] == seq(threadNum, _ => Outside);
    }

    /** `pthread_cond_signal`: `wake` are the sleepers that the system chooses. */
    method Signal(wake: set<nat>)
      requires forall t <- wake :: t < threads.Length
      modifies threads
      ensures threads[..] == WakeAll(old(threads[..]), wake)
    {
      ghost var before := threads[..];
      for i := 0 to threads.Length
        invariant forall t :: 0 <= t < threads.Length ==>
          threads[t] == if t in wake && t < i then Wake(before[t]) else before[t]
      {
        if i in wake {
          threads[i] := Wake(threads[i]);
        }
      }
    }

    /** The position after p on a ring of n slots. */
    static method NextPosition(p: nat, n: nat) returns (r: nat)
      requires p < n
      ensures r == if p + 1 == n then 0 else p + 1
    {
      RingStep(p, n);
      r := (p + 1) % n;
    }

    method TakeFront() returns (task: Task)
      requires Valid() && size > 0
      modifies this`front, this`size
      ensures Valid()
      ensures task == old(Contents())[0] && Contents() == old(Contents())[1..]
    {
      task := taskQueue[front];
      front := NextPosition(front, taskQueue.Length);
      size := size - 1;
    }

    method AddRear(task: Task)
      requires Valid() && size < taskQueue.Length
      modifies this`rear, this`size, taskQueue
      ensures Valid()
      ensures Contents() == old(Contents()) + [task]
    {
      taskQueue[rear] := task;
      rear := NextPosition(rear, taskQueue.Length);
      size := size + 1;
    }

    /** One critical section of a consumer: take the front task, or go to sleep. */
    method PopSection(t: nat, wake: set<nat>) returns (taken: bool, curTask: Task)
      requires Valid() && Enabled(taskQueue.Length, View(), Pop(t, wake))
      modifies this`front, this`size, threads
      ensures Valid() && View() == Next(taskQueue.Length, old(View()), Pop(t, wake))
      ensures taken <==> old(Contents()) != []
      ensures taken ==> curTask == old(Contents())[0]
    {
      taken := size != 0;
      if taken {
        curTask := TakeFront();
        threads[t] := Outside;
        Signal(wake);
      } else {
        curTask := Task(0, 0, "");
        threads[t] := AsleepEmpty;
      }
    }

    /** One critical section of a producer: add a task at the rear, or go to sleep. */
    method PushSection(t: nat, newTask: Task, wake: set<nat>) returns (done: bool)
      requires Valid() && Enabled(taskQueue.Length, View(), Push(t, newTask, wake))
      modifies this`rear, this`size, taskQueue, threads
      ensures Valid() && View() == Next(taskQueue.Length, old(View()), Push(t, newTask, wake))
      ensures done <==> |old(Contents())| < taskQueue.Length
    {
      done := size != taskQueue.Length;
      if done {
        AddRear(newTask);
        threads[t] := Outside;
        Signal(wake);
      } else {
        threads[t] := AsleepFull(newTask);
      }
    }
  }
}
