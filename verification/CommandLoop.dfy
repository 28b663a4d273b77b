/** Runs of commands on the heap: the shared table and the records of the connected clients
    follow the runs of `VfsRuns` command by command. */
module CommandLoop {
  import opened Clients
  import opened Vfs
  import opened VfsUpdates
  import opened VfsRuns
  import opened RouteServer

  /** The records of the connections that have logged in or shown a token. */
  type Records = map<Fd, Client>

  ghost function Paths(clients: Records): set<array<char>> {
    set fd | fd in clients :: clients[fd].path
  }

  /** No two records share memory, and each path buffer holds a terminated string. */
  ghost predicate Separate(clients: Records)
    reads clients.Values, Paths(clients)
  {
    Apart(clients) && forall f <- clients :: Terminated(clients[f])
  }

  ghost function Sessions(clients: Records): map<Fd, Session>
    reads clients.Values, Paths(clients)
  {
    map fd | fd in clients :: SessionOf(clients[fd])
  }

  ghost function View(db: Database, clients: Records): World
    reads db, clients.Values, Paths(clients)
  {
    World(db.State(), Sessions(clients))
  }

  ghost predicate InStep(db: Database, clients: Records, w: World)
    reads db, clients.Values, Paths(clients)
  {
    Separate(clients) && View(db, clients) == w
  }

  /** What the buffers ask for: the path after a successful cd fits, and a token is that of
      another connection. */
  ghost predicate Fits(w: World, e: Event)
    requires HasSessions(w, e)
  {
    match e.cmd
    case DoCd(target) => '\0' !in target && PathFits(w.sessions[e.client].path, target, Cd(w.table, w.sessions[e.client], target))
    case DoToken(from) => from != e.client
    case _ => true
  }

  /** Only paths that grow too long, and a client that shows its own token, do not fit. */
  lemma FitsWhen(w: World, e: Event)
    requires HasSessions(w, e)
    ensures !e.cmd.DoCd? && !e.cmd.DoToken? ==> Fits(w, e)
    ensures e.cmd.DoToken? ==> (Fits(w, e) <==> e.cmd.from != e.client)
    ensures e.cmd.DoCd? && '\0' !in e.cmd.target && w.sessions[e.client].path != "" ==>
      |w.sessions[e.client].path| + 1 + |e.cmd.target| < 128 ==>
        Fits(w, e)
  {}

  /** The records that the event needs are there, and their buffers can hold what it brings. */
  ghost predicate Allowed(w: World, e: Event) {
    HasSessions(w, e) && Fits(w, e)
  }

  /** A command works on the table, or only moves a session, or ends sessions. */
  predicate OnTable(cmd: Command) {
    cmd.DoMkdir? || cmd.DoRmdir? || cmd.DoRm? || cmd.DoPuts?
  }

  predicate Moves(cmd: Command) {
    cmd.DoLogin? || cmd.DoToken? || cmd.DoCd?
  }

  /** What a command does to the table. */
  ghost function Updated(t: Table, s: Session, cmd: Command): Table
    requires OnTable(cmd)
  {
    match cmd
    case DoMkdir(name) => Mkdir(t, s, name)
    case DoRmdir(name) => Rmdir(t, s, name).0
    case DoRm(name) => Rm(t, s, name).0
    case DoPuts(name, md5, info) => Puts(t, s, name, md5, info).0
  }

  /** The record is the client's own, or a new one that nobody else's shares memory with. */
  ghost predicate Own(clients: Records, fd: Fd, client: Client) {
    && client.path.Length == 128
    && if fd in clients then client == clients[fd] else client !in clients.Values && client.path !in Paths(clients)
  }

  /** The records are apart from each other. */
  ghost predicate Apart(clients: Records) {
    forall f, g :: f in clients && g in clients && f != g ==>
      clients[f] != clients[g] && clients[f].path != clients[g].path
  }

  lemma OwnApart(clients: Records, fd: Fd, client: Client)
    requires Apart(clients) && Own(clients, fd, client)
    ensures Apart(clients[fd := client])
    ensures forall f :: f in clients && f != fd ==> clients[f] != client && clients[f].path != client.path
  {
    forall f | f in clients && f != fd ensures clients[f] != client && clients[f].path != client.path {
      assert clients[f] in clients.Values && clients[f].path in Paths(clients);
    }
  }

  /** When only one record has changed, only one session has. */
  lemma OthersKept(clients: Records, fd: Fd, client: Client, before: map<Fd, Session>)
    requires before.Keys == clients.Keys
    requires forall f :: f in clients && f != fd ==> SessionOf(clients[f]) == before[f]
    ensures Sessions(clients[fd := client]) == before[fd := SessionOf(client)]
  {}

  lemma NextMoves(w: World, e: Event)
    requires Allowed(w, e) && Moves(e.cmd)
    ensures e.client in Next(w, e).sessions
    ensures Next(w, e) == World(w.table, w.sessions[e.client := Next(w, e).sessions[e.client]])
  {}

  /** A command that only moves the session of one client. */
  method PerformSession(db: Database, clients: Records, client: Client, e: Event, ghost w: World)
    requires InStep(db, clients, w) && Allowed(w, e)
    requires Moves(e.cmd) && Own(clients, e.client, client)
    modifies client, client.path
    ensures Terminated(client)
    ensures View(db, clients[e.client := client]) == Next(w, e)
    ensures Separate(clients[e.client := client])
  {
    ghost var before := Sessions(clients);
    NextMoves(w, e);
    OwnApart(clients, e.client, client);
    MoveSession(db, clients, client, e, w);
    forall f | f in clients && f != e.client
      ensures Terminated(clients[f]) && SessionOf(clients[f]) == before[f]
    {
      assert old(Terminated(clients[f]) && SessionOf(clients[f]) == before[f]);
    }
    OthersKept(clients, e.client, client, before);
  }

  method MoveSession(db: Database, clients: Records, client: Client, e: Event, ghost w: World)
    requires InStep(db, clients, w) && Allowed(w, e)
    requires Moves(e.cmd) && Own(clients, e.client, client)
    modifies client, client.path
    ensures Terminated(client)
    ensures SessionOf(client) == Next(w, e).sessions[e.client]
  {
    match e.cmd
    case DoLogin(uid) =>
      RouteServer.DoLogin(client, uid);
    case DoToken(from) =>
      assert SessionOf(clients[from]) == w.sessions[from];
      assert clients[from].path in Paths(clients);
      RouteServer.DoToken(client, clients[from]);
    case DoCd(target) =>
      assert SessionOf(client) == w.sessions[e.client];
      var reply := RouteServer.DoCd(client, db, target);
  }

  /** A command that changes the shared table. */
  method PerformTable(db: Database, clients: Records, e: Event, ghost w: World)
    requires InStep(db, clients, w) && Allowed(w, e) && OnTable(e.cmd)
    modifies db
    ensures View(db, clients) == Next(w, e)
  {
    var client := clients[e.client];
    assert SessionOf(client) == w.sessions[e.client];
    PerformUpdate(db, client, e.cmd);
    assert Sessions(clients) == w.sessions;
  }

  method PerformUpdate(db: Database, client: Client, cmd: Command)
    requires OnTable(cmd)
    modifies db
    ensures db.State() == Updated(old(db.State()), SessionOf(client), cmd)
  {
    match cmd
    case DoMkdir(name) =>
      var rc := RouteServer.DoMkdir(client, db, name);
    case DoRmdir(name) =>
      var rc := RouteServer.DoRmdir(client, db, name);
    case DoRm(name) =>
      var rc := RouteServer.DoRm(client, db, name);
    case DoPuts(name, md5, info) =>
      var quick := RouteServer.DoPuts(client, db, name, md5, info);
  }

  /** The client's record.  A connection that logs in or shows a token for the first time
      brings the one made when it was accepted. */
  method RecordOf(clients: Records, fd: Fd) returns (client: Client)
    requires Separate(clients)
    ensures Own(clients, fd, client)
    ensures fd !in clients ==> fresh(client) && fresh(client.path)
    ensures fd in clients ==> client in clients.Values && client.path in Paths(clients)
  {
    if fd in clients {
      client := clients[fd];
      assert Terminated(client);
    } else {
      client := new Client(fd);
    }
  }

  lemma RecordAdded(clients: Records, fd: Fd, client: Client)
    ensures clients[fd := client].Values - clients.Values <= {client}
    ensures Paths(clients[fd := client]) - Paths(clients) <= {client.path}
  {}

  /** A login, a token or a cd, with the record it concerns. */
  method PerformMove(db: Database, clients: Records, e: Event, ghost w: World) returns (clients': Records)
    requires InStep(db, clients, w) && Allowed(w, e) && Moves(e.cmd)
    modifies clients.Values, Paths(clients)
    ensures InStep(db, clients', Next(w, e))
    ensures fresh(clients'.Values - clients.Values) && fresh(Paths(clients') - Paths(clients))
  {
    var client := RecordOf(clients, e.client);
    RecordAdded(clients, e.client, client);
    PerformSession(db, clients, client, e, w);
    clients' := clients[e.client := client];
  }

  lemma RecordsDropped(clients: Records, gone: set<Fd>)
    requires Apart(clients)
    ensures Apart(clients - gone)
    ensures (clients - gone).Values <= clients.Values && Paths(clients - gone) <= Paths(clients)
    ensures Sessions(clients - gone) == Sessions(clients) - gone
  {}

  /** Clients leave; their records are no longer looked at. */
  method PerformLeave(db: Database, clients: Records, e: Event, ghost w: World) returns (clients': Records)
    requires InStep(db, clients, w) && (e.cmd.DoExit? || e.cmd.DoTimeOut?)
    ensures InStep(db, clients', Next(w, e))
    ensures clients'.Values <= clients.Values && Paths(clients') <= Paths(clients)
  {
    var gone := if e.cmd.DoExit? then {e.client} else e.cmd.closed;
    RecordsDropped(clients, gone);
    clients' := clients - gone;
    forall f <- clients' ensures Terminated(clients'[f]) {
      assert Terminated(clients[f]);
    }
  }

  /** One command of one client. */
  method Perform(db: Database, clients: Records, e: Event, ghost w: World) returns (clients': Records)
    requires InStep(db, clients, w) && Allowed(w, e)
    modifies db, clients.Values, Paths(clients)
    ensures InStep(db, clients', Next(w, e))
    ensures fresh(clients'.Values - clients.Values) && fresh(Paths(clients') - Paths(clients))
  {
    if OnTable(e.cmd) {
      PerformTable(db, clients, e, w);
      clients' := clients;
    } else if Moves(e.cmd) {
      clients' := PerformMove(db, clients, e, w);
    } else {
      clients' := PerformLeave(db, clients, e, w);
    }
  }

  ghost predicate RunFits(w: World, events: seq<Event>)
    requires WorldOk(w) && IsRun(w, events)
    decreases |events|
  {
    events == [] || (Fits(w, events[0]) && (NextOk(w, events[0]); RunFits(Next(w, events[0]), events[1..])))
  }

  /** The records that each command needs are there; nothing is asked of the table. */
  ghost predicate Performable(w: World, events: seq<Event>)
    decreases |events|
  {
    events == [] || (Allowed(w, events[0]) && Performable(Next(w, events[0]), events[1..]))
  }

  ghost function Outcome(w: World, events: seq<Event>): World
    requires Performable(w, events)
    decreases |events|
  {
    if events == [] then w else Outcome(Next(w, events[0]), events[1..])
  }

  lemma {:induction false} RunPerformable(w: World, events: seq<Event>)
    requires WorldOk(w) && IsRun(w, events) && RunFits(w, events)
    ensures Performable(w, events) && Outcome(w, events) == End(w, events)
    decreases |events|
  {
    if events != [] {
      NextOk(w, events[0]);
      RunPerformable(Next(w, events[0]), events[1..]);
    }
  }

  /** The loop over the commands. */
  method FollowRun(autoIncrement: nat, events: seq<Event>) returns (db: Database, clients: Records)
    requires Performable(World(Table([], autoIncrement), map[]), events)
    ensures InStep(db, clients, Outcome(World(Table([], autoIncrement), map[]), events))
  {
    db := new Database(autoIncrement);
    clients := map[];
    ghost var w := World(Table([], autoIncrement), map[]);
    var rest := events;
    while rest != []
      invariant fresh(db) && fresh(clients.Values) && fresh(Paths(clients))
      invariant InStep(db, clients, w) && Performable(w, rest)
      invariant Outcome(w, rest) == Outcome(World(Table([], autoIncrement), map[]), events)
      decreases |rest|
    {
      clients := Perform(db, clients, rest[0], w);
      w, rest := Next(w, rest[0]), rest[1..];
    }
  }

  /** From an empty table the heap follows every run of commands; so the table is in order
      and every record's position is right. */
  method ServeCommands(autoIncrement: nat, events: seq<Event>) returns (db: Database, clients: Records)
    requires autoIncrement > 0
    requires IsRun(EmptyWorld(autoIncrement), events) && RunFits(EmptyWorld(autoIncrement), events)
    ensures Separate(clients)
    ensures View(db, clients) == End(EmptyWorld(autoIncrement), events)
    ensures WorldOk(View(db, clients))
  {
    RunOk(EmptyWorld(autoIncrement), events);
    RunPerformable(EmptyWorld(autoIncrement), events);
    db, clients := FollowRun(autoIncrement, events);
  }
}
