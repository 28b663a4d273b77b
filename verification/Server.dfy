/** The two halves of the event loop together: the client manager decides who is connected,
    and the commands of the connected clients work on their sessions and the table. */
module Server {
  import opened Clients
  import opened TimeQueue
  import opened ClientManager
  import IdleEviction
  import opened Vfs
  import opened VfsUpdates
  import opened VfsRuns

  datatype State = State(manager: Manager, world: World)

  /** A connection is accepted; a message arrives; a connection closes or its client asks to
      exit; a second passes. */
  datatype Input = Accept(fd: Fd) | Message(fd: Fd, cmd: Command) | Close(fd: Fd) | Second

  /** Only connected clients have sessions. */
  ghost predicate StateOk(s: State) {
    Inv(s.manager) && WorldOk(s.world) && s.world.sessions.Keys <= s.manager.index.Keys
  }

  /** What the client manager sees of an input. */
  ghost function Seen(i: Input): IdleEviction.Event {
    match i
    case Accept(fd) => IdleEviction.Connect(fd)
    case Message(fd, _) => IdleEviction.Activity(fd)
    case Close(fd) => IdleEviction.Depart(fd)
    case Second => IdleEviction.Tick
  }

  /** The clients that the next second evicts. */
  ghost function Due(m: Manager): set<Fd>
    requires Inv(m)
  {
    Members(Cleanable(Advanced(m.wheel)))
  }

  /** What the table and the sessions see of an input, if anything. */
  ghost function Done(m: Manager, i: Input): Option<VfsRuns.Event>
    requires Inv(m)
  {
    match i
    case Accept(_) => None
    case Message(fd, cmd) => Some(VfsRuns.Event(fd, cmd))
    case Close(fd) => Some(VfsRuns.Event(fd, DoExit))
    case Second => Some(VfsRuns.Event(NO_FD, DoTimeOut(Due(m))))
  }

  ghost predicate Possible(s: State, i: Input) {
    && Inv(s.manager) && IdleEviction.Legal(s.manager, Seen(i))
    && (i.Message? ==> !i.cmd.DoExit? && !i.cmd.DoTimeOut?)
    && (Done(s.manager, i).Some? ==> Legal(s.world, Done(s.manager, i).value))
  }

  ghost function Step(s: State, i: Input): State
    requires Possible(s, i)
  {
    var done := Done(s.manager, i);
    State(IdleEviction.Next(s.manager, Seen(i)), if done.Some? then Next(s.world, done.value) else s.world)
  }

  ghost function Start(timeOut: nat, next: nat): (s: State)
    requires timeOut > 0 && next > 0
    ensures StateOk(s)
  {
    InitialInv(timeOut);
    State(Initial(timeOut), EmptyWorld(next))
  }

  /** Every input keeps: map and wheel agree, the table is in order, every session's position
      is right, and only connected clients have sessions. */
  lemma StepOk(s: State, i: Input)
    requires StateOk(s) && Possible(s, i)
    ensures StateOk(Step(s, i))
  {
    var done := Done(s.manager, i);
    IdleEviction.NextInv(s.manager, Seen(i));
    if done.Some? {
      NextOk(s.world, done.value);
    }
  }

  // ---------------------------------------------------------------- what each input does

  /** A second passes: exactly the clients for which it is not the last of the time-out keep
      their sessions, as they were. */
  lemma SecondEffect(s: State, fd: Fd)
    requires StateOk(s) && fd in s.world.sessions
    ensures var s' := Step(s, Second); var clocks := IdleEviction.ClocksOf(s.manager);
      && fd in clocks
      && (fd in s'.world.sessions <==> clocks[fd] + 1 < |s.manager.wheel.slots|)
      && (fd in s'.world.sessions ==> s'.world.sessions[fd] == s.world.sessions[fd])
      && (fd in s'.world.sessions <==> fd in s'.manager.index)
  {
    TickedInv(s.manager);
    IdleEviction.TickAges(s.manager, fd);
    EvictedAreDue(s.manager, fd);
  }

  /** The clients that a second evicts are those that it takes out of the map. */
  lemma EvictedAreDue(m: Manager, fd: Fd)
    requires Inv(m) && fd in m.index
    ensures fd in Due(m) <==> fd !in Ticked(m).index
  {}

  /** A second brings nobody a session, and does not touch the table. */
  lemma SecondAddsNone(s: State)
    requires StateOk(s)
    ensures Step(s, Second).world.table == s.world.table
    ensures forall f <- Step(s, Second).world.sessions :: f in s.world.sessions
  {}

  /** Who connects has no session yet; who leaves has none any more. */
  lemma ComingAndGoing(s: State, fd: Fd)
    requires StateOk(s)
    ensures Possible(s, Accept(fd)) ==>
      Step(s, Accept(fd)).world == s.world && fd !in Step(s, Accept(fd)).world.sessions
    ensures Possible(s, Close(fd)) ==>
      && Step(s, Close(fd)).world.table == s.world.table
      && fd !in Step(s, Close(fd)).world.sessions
      && Step(s, Close(fd)).world.sessions.Keys == s.world.sessions.Keys - {fd}
  {}

  /** The session of a client that an input does not concern. */
  ghost predicate Untouched(s: State, s': State, f: Fd) {
    && (f in s'.world.sessions <==> f in s.world.sessions)
    && (f in s'.world.sessions ==> s'.world.sessions[f] == s.world.sessions[f])
  }

  ghost function Concerned(i: Input): Fd {
    match i
    case Accept(fd) => fd
    case Message(fd, _) => fd
    case Close(fd) => fd
    case Second => NO_FD
  }

  /** A connection, a message or a departure touches the session of no other client. */
  lemma OthersUntouched(s: State, i: Input, f: Fd)
    requires StateOk(s) && Possible(s, i) && !i.Second? && f != Concerned(i)
    ensures Untouched(s, Step(s, i), f)
  {
    if i.Message? {
      OtherSession(s.world, i.fd, i.cmd, f);
    }
  }

  lemma OtherSession(w: World, client: Fd, cmd: Command, f: Fd)
    requires HasSessions(w, VfsRuns.Event(client, cmd)) && !cmd.DoTimeOut? && f != client
    ensures var w' := Next(w, VfsRuns.Event(client, cmd));
      (f in w'.sessions <==> f in w.sessions) && (f in w'.sessions ==> w'.sessions[f] == w.sessions[f])
  {}

  /** A message keeps its client connected and its session, and starts one if it logs in or
      shows a token; the table and the session change as the command says. */
  lemma MessageEffect(s: State, fd: Fd, cmd: Command)
    requires StateOk(s) && Possible(s, Message(fd, cmd))
    ensures var s' := Step(s, Message(fd, cmd));
      && s'.world == Next(s.world, VfsRuns.Event(fd, cmd))
      && s'.manager.index.Keys == s.manager.index.Keys
      && (fd in s'.world.sessions <==> fd in s.world.sessions || cmd.DoLogin? || cmd.DoToken?)
  {}

  /** Which inputs are possible: a connection with a descriptor that is not open; a departure of
      a client that is connected; and a second at any time. */
  lemma PossibleIff(s: State, fd: Fd)
    requires StateOk(s)
    ensures Possible(s, Accept(fd)) <==> fd !in s.manager.index && fd != NO_FD
    ensures Possible(s, Close(fd)) <==> fd in s.manager.index
    ensures Possible(s, Second)
  {}

  /** And any message of a client that is connected, if its command is possible. */
  lemma MessagePossibleIff(s: State, fd: Fd, cmd: Command)
    requires StateOk(s)
    ensures Possible(s, Message(fd, cmd)) <==>
      fd in s.manager.index && !cmd.DoExit? && !cmd.DoTimeOut? && Legal(s.world, VfsRuns.Event(fd, cmd))
  {}

  // ---------------------------------------------------------------- runs

  ghost predicate IsRun(s: State, inputs: seq<Input>)
    decreases |inputs|, 0
  {
    inputs == [] ||
    (IsRun(s, inputs[..|inputs| - 1]) && Possible(End(s, inputs[..|inputs| - 1]), inputs[|inputs| - 1]))
  }

  ghost function End(s: State, inputs: seq<Input>): State
    requires IsRun(s, inputs)
    decreases |inputs|, 1
  {
    if inputs == [] then s else Step(End(s, inputs[..|inputs| - 1]), inputs[|inputs| - 1])
  }

  lemma {:induction false} RunOk(s: State, inputs: seq<Input>)
    requires StateOk(s) && IsRun(s, inputs)
    ensures StateOk(End(s, inputs))
  {
    if inputs != [] {
      var front := inputs[..|inputs| - 1];
      RunOk(s, front);
      StepOk(End(s, front), inputs[|inputs| - 1]);
    }
  }

  /** What the client manager sees of a run. */
  ghost function SeenOf(inputs: seq<Input>): (h: IdleEviction.History)
    ensures |h| == |inputs|
  {
    if inputs == [] then [] else SeenOf(inputs[..|inputs| - 1]) + [Seen(inputs[|inputs| - 1])]
  }

  /** The client manager goes through a possible history. */
  lemma {:induction false} RunSeen(timeOut: nat, next: nat, inputs: seq<Input>)
    requires timeOut > 0 && next > 0 && IsRun(Start(timeOut, next), inputs)
    ensures IdleEviction.Possible(timeOut, SeenOf(inputs))
    ensures IdleEviction.After(timeOut, SeenOf(inputs)) == End(Start(timeOut, next), inputs).manager
  {
    var h := SeenOf(inputs);
    if inputs != [] {
      RunSeen(timeOut, next, inputs[..|inputs| - 1]);
      assert h[..|h| - 1] == SeenOf(inputs[..|inputs| - 1]);
    }
  }

  /** Read off the inputs alone: the client has logged in, or shown a token, since it last
      connected, and has not left since. */
  ghost function LoggedIn(inputs: seq<Input>, fd: Fd): bool {
    inputs != [] && KeepsLogin(LoggedIn(inputs[..|inputs| - 1], fd), inputs[|inputs| - 1], fd)
  }

  ghost predicate KeepsLogin(before: bool, i: Input, fd: Fd) {
    match i
    case Accept(f) => f != fd && before
    case Message(f, cmd) => before || (f == fd && (cmd.DoLogin? || cmd.DoToken?))
    case Close(f) => f != fd && before
    case Second => before
  }

  /** Over every run a client has a session exactly if it has logged in and fewer seconds than
      the time-out have passed since it was last heard from. */
  lemma {:induction false} SessionWhileRecent(timeOut: nat, next: nat, inputs: seq<Input>, fd: Fd)
    requires timeOut > 0 && next > 0 && IsRun(Start(timeOut, next), inputs)
    ensures var idle := IdleEviction.IdleTime(SeenOf(inputs), fd);
      fd in End(Start(timeOut, next), inputs).world.sessions <==>
        LoggedIn(inputs, fd) && idle.For? && idle.ticks < timeOut
  {
    if inputs != [] {
      var front, i := inputs[..|inputs| - 1], inputs[|inputs| - 1];
      SessionWhileRecent(timeOut, next, front, fd);
      RunOk(Start(timeOut, next), front);
      RunSeen(timeOut, next, front);
      RunSeen(timeOut, next, inputs);
      IdleEviction.ConnectedWhileRecent(timeOut, SeenOf(front), fd);
      IdleEviction.ConnectedWhileRecent(timeOut, SeenOf(inputs), fd);
      SessionStep(End(Start(timeOut, next), front), i, fd);
    }
  }

  /** One input, on who is connected and who has a session. */
  lemma SessionStep(s: State, i: Input, fd: Fd)
    requires StateOk(s) && Possible(s, i)
    ensures fd in Step(s, i).world.sessions <==>
      KeepsLogin(fd in s.world.sessions, i, fd) && (i.Second? ==> fd in Step(s, i).manager.index)
  {
    match i
    case Accept(f) => ComingAndGoing(s, f);
    case Message(f, cmd) => MessageEffect(s, f, cmd); if f != fd { OthersUntouched(s, i, fd); }
    case Close(f) => ComingAndGoing(s, f);
    case Second => SecondAddsNone(s); if fd in s.world.sessions { SecondEffect(s, fd); }
  }

  /** The one assumption about `rmdir` excludes exactly the removals after which the session of
      some client that is still connected is wrong. */
  lemma RmdirPossibleIff(s: State, fd: Fd, name: string)
    requires StateOk(s) && fd in s.world.sessions
    ensures Possible(s, Message(fd, DoRmdir(name))) <==>
      forall f <- s.world.sessions :: SessionOk(Rmdir(s.world.table, s.world.sessions[fd], name).0, s.world.sessions[f])
  {
    var t, own := s.world.table, s.world.sessions[fd];
    if Rmdir(t, own, name).1 == 0 {
      forall f <- s.world.sessions
        ensures SessionOk(Rmdir(t, own, name).0, s.world.sessions[f]) <==>
          forall d :: Doomed(t, own, name, d) ==> d.code != s.world.sessions[f].code
      {
        RmdirKeepsSessionIff(t, own, name, s.world.sessions[f]);
      }
    }
  }
}
