/** Whole runs of the client manager: the wheel and the map refine a simple table of idle
    clocks, and a client is evicted on exactly the tick that fills its time-out. */
module IdleEviction {
  import opened Naturals
  import opened Clients
  import opened TimeQueue
  import opened ClientManager

  datatype Event = Connect(fd: Fd) | Activity(fd: Fd) | Depart(fd: Fd) | Tick

  /** `accept` hands out a descriptor that is not open; the other events concern clients
      that are still connected. */
  ghost predicate Legal(m: Manager, e: Event) {
    match e
    case Connect(fd) => fd !in m.index && fd != NO_FD
    case Activity(fd) => fd in m.index
    case Depart(fd) => fd in m.index
    case Tick => true
  }

  ghost function Next(m: Manager, e: Event): Manager
    requires Inv(m) && Legal(m, e)
  {
    match e
    case Connect(fd) => Added(m, fd)
    case Activity(fd) => Touched(m, fd)
    case Depart(fd) => Deleted(m, fd)
    case Tick => Ticked(m)
  }

  lemma NextInv(m: Manager, e: Event)
    requires Inv(m) && Legal(m, e)
    ensures Inv(Next(m, e)) && |Next(m, e).wheel.slots| == |m.wheel.slots|
  {
    match e
    case Connect(fd) => AddedInv(m, fd);
    case Activity(fd) => TouchedIsDeletedAdded(m, fd);
    case Depart(fd) => DeletedInv(m, fd);
    case Tick => TickedInv(m);
  }

  // ---------------------------------------------------------------- idle clocks

  /** Seconds since each connected client was last heard from. */
  type Clocks = map<Fd, nat>

  ghost function NextClocks(timeOut: nat, c: Clocks, e: Event): Clocks {
    match e
    case Connect(fd) => c[fd := 0]
    case Activity(fd) => c[fd := 0]
    case Depart(fd) => c - {fd}
    case Tick => map fd | fd in c && c[fd] + 1 < timeOut :: c[fd] + 1
  }

  /** How many ticks ago the wheel stood at slot s. */
  ghost function Age(w: Wheel, s: int): (age: nat)
    requires WheelValid(w) && 0 <= s < |w.slots|
    ensures age < |w.slots|
  {
    if s <= w.cur then w.cur - s else w.cur - s + |w.slots|
  }

  ghost function ClocksOf(m: Manager): Clocks
    requires Inv(m)
  {
    map fd | fd in m.index :: Age(m.wheel, m.index[fd])
  }

  /** What a tick does to one client. */
  lemma TickAges(m: Manager, fd: Fd)
    requires Inv(m) && Inv(Ticked(m)) && fd in m.index
    ensures fd in Ticked(m).index <==> ClocksOf(m)[fd] + 1 < |m.wheel.slots|
    ensures fd in Ticked(m).index ==> ClocksOf(Ticked(m))[fd] == ClocksOf(m)[fd] + 1
  {
    var n, cur' := |m.wheel.slots|, Advanced(m.wheel).cur;
    RingStep(m.wheel.cur, n);
    assert SlotAgrees(m, cur') && SlotAgrees(m, m.index[fd]);
    assert m.index[fd] == cur' <==> ClocksOf(m)[fd] + 1 == n;
  }

  lemma TickRefines(m: Manager)
    requires Inv(m) && Inv(Ticked(m))
    ensures ClocksOf(Ticked(m)) == NextClocks(|m.wheel.slots|, ClocksOf(m), Tick)
  {
    var c, c' := ClocksOf(m), ClocksOf(Ticked(m));
    forall fd <- m.index
      ensures fd in c' <==> c[fd] + 1 < |m.wheel.slots|
      ensures fd in c' ==> c'[fd] == c[fd] + 1
    {
      TickAges(m, fd);
    }
    assert c'.Keys <= c.Keys;
  }

  lemma AddedRefines(m: Manager, fd: Fd)
    requires Inv(m) && Inv(Added(m, fd))
    ensures ClocksOf(Added(m, fd)) == ClocksOf(m)[fd := 0]
  {}

  lemma DeletedRefines(m: Manager, fd: Fd)
    requires Inv(m) && fd in m.index && Inv(Deleted(m, fd))
    ensures ClocksOf(Deleted(m, fd)) == ClocksOf(m) - {fd}
  {}

  lemma TouchedRefines(m: Manager, fd: Fd)
    requires Inv(m) && fd in m.index
    ensures Inv(Touched(m, fd)) && ClocksOf(Touched(m, fd)) == ClocksOf(m)[fd := 0]
  {
    DeletedInv(m, fd);
    TouchedIsDeletedAdded(m, fd);
    DeletedRefines(m, fd);
    AddedRefines(Deleted(m, fd), fd);
    assert (ClocksOf(m) - {fd})[fd := 0] == ClocksOf(m)[fd := 0];
  }

  /** The wheel refines the clocks: every event commutes with the abstraction. */
  lemma NextRefines(m: Manager, e: Event)
    requires Inv(m) && Legal(m, e)
    ensures Inv(Next(m, e))
    ensures ClocksOf(Next(m, e)) == NextClocks(|m.wheel.slots|, ClocksOf(m), e)
  {
    NextInv(m, e);
    match e
    case Tick => TickRefines(m);
    case Connect(fd) => AddedRefines(m, fd);
    case Activity(fd) => TouchedRefines(m, fd);
    case Depart(fd) => DeletedRefines(m, fd);
  }

  // ---------------------------------------------------------------- runs

  type History = seq<Event>

  /** The history is possible from an empty manager with the given time-out. */
  ghost predicate Possible(timeOut: nat, h: History)
    requires timeOut > 0
    decreases |h|, 0
  {
    h == [] ||
    (Possible(timeOut, h[..|h| - 1]) && Legal(After(timeOut, h[..|h| - 1]), h[|h| - 1]))
  }

  ghost function After(timeOut: nat, h: History): (m: Manager)
    requires timeOut > 0 && Possible(timeOut, h)
    ensures Inv(m) && |m.wheel.slots| == timeOut
    decreases |h|, 1
  {
    if h == [] then InitialInv(timeOut); Initial(timeOut)
    else
      var before := After(timeOut, h[..|h| - 1]);
      NextInv(before, h[|h| - 1]);
      Next(before, h[|h| - 1])
  }

  datatype Idle = Gone | For(ticks: nat)

  /** Read off the history alone: how many ticks have passed since the descriptor's last
      connection or activity, or that it never connected or has departed since. */
  ghost function IdleTime(h: History, fd: Fd): Idle {
    if h == [] then Gone else IdleStep(IdleTime(h[..|h| - 1], fd), h[|h| - 1], fd)
  }

  ghost function IdleStep(before: Idle, e: Event, fd: Fd): Idle {
    match e
    case Connect(f) => if f == fd then For(0) else before
    case Activity(f) => if f == fd then For(0) else before
    case Depart(f) => if f == fd then Gone else before
    case Tick => if before == Gone then Gone else For(before.ticks + 1)
  }

  ghost predicate Tracks(timeOut: nat, c: Clocks, idle: Idle, fd: Fd) {
    && (fd in c <==> idle.For? && idle.ticks < timeOut)
    && (fd in c ==> c[fd] == idle.ticks)
  }

  lemma TracksStep(timeOut: nat, c: Clocks, idle: Idle, e: Event, fd: Fd)
    requires timeOut > 0 && Tracks(timeOut, c, idle, fd)
    ensures Tracks(timeOut, NextClocks(timeOut, c, e), IdleStep(idle, e, fd), fd)
  {}

  /** In every run a client is connected exactly while fewer than time-out ticks have
      passed since it was last heard from, and its clock is the number of those ticks. */
  lemma {:induction false} ConnectedWhileRecent(timeOut: nat, h: History, fd: Fd)
    requires timeOut > 0 && Possible(timeOut, h)
    ensures Tracks(timeOut, ClocksOf(After(timeOut, h)), IdleTime(h, fd), fd)
  {
    if h != [] {
      var before, e := h[..|h| - 1], h[|h| - 1];
      var m := After(timeOut, before);
      ConnectedWhileRecent(timeOut, before, fd);
      TracksStep(timeOut, ClocksOf(m), IdleTime(before, fd), e, fd);
      NextRefines(m, e);
    }
  }

  /** Which histories are possible, read off the history alone: a client can connect if it is not
      connected, can be heard from or leave if it is, and time can pass at any moment. */
  lemma PossibleIff(timeOut: nat, h: History, e: Event)
    requires timeOut > 0 && Possible(timeOut, h)
    ensures Possible(timeOut, h + [e]) <==> MayHappen(timeOut, h, e)
  {
    assert (h + [e])[..|h + [e]| - 1] == h;
    if !e.Tick? {
      ConnectedWhileRecent(timeOut, h, e.fd);
    }
  }

  ghost predicate MayHappen(timeOut: nat, h: History, e: Event) {
    match e
    case Connect(fd) => fd != NO_FD && !Recent(timeOut, IdleTime(h, fd))
    case Activity(fd) => Recent(timeOut, IdleTime(h, fd))
    case Depart(fd) => Recent(timeOut, IdleTime(h, fd))
    case Tick => true
  }

  ghost predicate Recent(timeOut: nat, idle: Idle) {
    idle.For? && idle.ticks < timeOut
  }

  /** A tick evicts exactly the clients for which it is the time-out-th tick since they
      were last heard from; they are the descriptors that the clean-up closes. */
  lemma EvictedOnExactTick(timeOut: nat, h: History, fd: Fd)
    requires timeOut > 0 && Possible(timeOut, h)
    ensures var m := After(timeOut, h); var m' := Ticked(m);
      && (fd in m.index && fd !in m'.index <==> IdleTime(h, fd) == For(timeOut - 1))
      && (fd in Cleanable(Advanced(m.wheel)) <==> IdleTime(h, fd) == For(timeOut - 1))
      && (fd in m'.index ==> fd in m.index)
  {
    var m := After(timeOut, h);
    ConnectedWhileRecent(timeOut, h, fd);
    TickedInv(m);
    TickRefines(m);
    var c := NextClocks(timeOut, ClocksOf(m), Tick);
    assert fd in Ticked(m).index <==> fd in c;
    assert SlotAgrees(m, Advanced(m.wheel).cur);
  }

  /** An event that was fetched before a tick finds its client after it exactly if the tick was
      not the one that evicts the client. */
  lemma FetchedBeforeTick(timeOut: nat, h: History, fd: Fd)
    requires timeOut > 0 && Possible(timeOut, h) && Legal(After(timeOut, h), Activity(fd))
    ensures Legal(Ticked(After(timeOut, h)), Activity(fd)) <==> IdleTime(h, fd) != For(timeOut - 1)
  {
    EvictedOnExactTick(timeOut, h, fd);
  }

  /** A connection followed by n seconds of silence. */
  ghost function Silence(fd: Fd, n: nat): (h: History)
    ensures |h| == n + 1
  {
    if n == 0 then [Connect(fd)] else Silence(fd, n - 1) + [Tick]
  }

  lemma {:induction false} SilencePossible(timeOut: nat, fd: Fd, n: nat)
    requires timeOut > 0 && fd != NO_FD
    ensures Possible(timeOut, Silence(fd, n)) && IdleTime(Silence(fd, n), fd) == For(n)
  {
    var h := Silence(fd, n);
    if n > 0 {
      SilencePossible(timeOut, fd, n - 1);
      assert h[..|h| - 1] == Silence(fd, n - 1);
    } else {
      assert h[..|h| - 1] == [];
      assert After(timeOut, []) == Initial(timeOut);
    }
  }

  /** An input: after a connection and all but one of the seconds of the time-out, an event
      that was fetched before the next one finds its client only before it. */
  lemma FetchedTooEarly(timeOut: nat, fd: Fd)
    requires timeOut > 0 && fd != NO_FD
    ensures var h := Silence(fd, timeOut - 1);
      && Possible(timeOut, h) && Legal(After(timeOut, h), Activity(fd))
      && !Legal(Ticked(After(timeOut, h)), Activity(fd))
  {
    SilencePossible(timeOut, fd, timeOut - 1);
    EvictedOnExactTick(timeOut, Silence(fd, timeOut - 1), fd);
  }
}
