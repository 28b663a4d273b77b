/** Runs of commands from any number of sessions on the shared table. */
module VfsRuns {
  import opened Clients
  import opened Vfs
  import opened VfsUpdates

  /** The commands of a client; its exit, by command or because the connection has closed; and
      a tick that closes the connections of some idle clients. */
  datatype Command =
    | DoLogin(uid: int)
    | DoToken(from: Fd)
    | DoCd(target: string)
    | DoMkdir(name: string)
    | DoRmdir(name: string)
    | DoRm(name: string)
    | DoPuts(name: string, md5: string, info: Info)
    | DoExit
    | DoTimeOut(closed: set<Fd>)

  datatype Event = Event(client: Fd, cmd: Command)

  datatype World = World(table: Table, sessions: map<Fd, Session>)

  ghost predicate WorldOk(w: World) {
    TableOk(w.table) && forall k <- w.sessions :: SessionOk(w.table, w.sessions[k])
  }

  /** The sessions that the command needs are there. */
  ghost predicate HasSessions(w: World, e: Event) {
    match e.cmd
    case DoLogin(_) => true
    case DoToken(from) => from in w.sessions
    case DoExit => true
    case DoTimeOut(_) => true
    case _ => e.client in w.sessions
  }

  /** What is assumed of the commands: a new directory gets a proper name, in use or not, and
      nobody deletes a directory that a session stands in. */
  ghost predicate Legal(w: World, e: Event) {
    && HasSessions(w, e)
    && match e.cmd
       case DoMkdir(name) => NameOk(name)
       case DoRmdir(name) => Rmdir(w.table, w.sessions[e.client], name).1 == 0 ==>
         forall k, d :: k in w.sessions && Doomed(w.table, w.sessions[e.client], name, d) ==> d.code != w.sessions[k].code
       case DoPuts(_, md5, _) => |md5| == 32
       case _ => true
  }

  ghost function Next(w: World, e: Event): World
    requires HasSessions(w, e)
  {
    match e.cmd
    case DoLogin(uid) => w.(sessions := w.sessions[e.client := Login(uid)])
    case DoToken(from) => w.(sessions := w.sessions[e.client := w.sessions[from]])
    case DoCd(target) => w.(sessions := w.sessions[e.client := Cd(w.table, w.sessions[e.client], target).0])
    case DoMkdir(name) => w.(table := Mkdir(w.table, w.sessions[e.client], name))
    case DoRmdir(name) => w.(table := Rmdir(w.table, w.sessions[e.client], name).0)
    case DoRm(name) => w.(table := Rm(w.table, w.sessions[e.client], name).0)
    case DoPuts(name, md5, info) => w.(table := Puts(w.table, w.sessions[e.client], name, md5, info).0)
    case DoExit => w.(sessions := w.sessions - {e.client})
    case DoTimeOut(closed) => w.(sessions := w.sessions - closed)
  }

  /** No file row ever goes away; only its count may change. */
  ghost predicate FilesStay(t: Table, t': Table) {
    forall r <- t.rows :: r.kind.Reg? ==> exists r' :: r' in t'.rows && r' == r.(count := r'.count)
  }

  lemma {:induction false} InsertOk(w: World, row: Row)
    requires WorldOk(w)
    ensures forall k <- w.sessions :: SessionOk(Insert(w.table, row), w.sessions[k])
    ensures FilesStay(w.table, Insert(w.table, row))
  {
    forall k <- w.sessions ensures SessionOk(Insert(w.table, row), w.sessions[k]) {
      InsertKeepsSession(w.table, row, w.sessions[k]);
    }
    forall r <- w.table.rows ensures r in Insert(w.table, row).rows && r == r.(count := r.count) {
      var i := RowIndex(w.table.rows, r);
      assert Insert(w.table, row).rows[i] == r;
    }
  }

  lemma RmdirOk(w: World, s: Session, name: string)
    requires WorldOk(w)
    requires Rmdir(w.table, s, name).1 == 0 ==>
      forall k, d :: k in w.sessions && Doomed(w.table, s, name, d) ==> d.code != w.sessions[k].code
    ensures WorldOk(w.(table := Rmdir(w.table, s, name).0))
    ensures FilesStay(w.table, Rmdir(w.table, s, name).0)
  {
    RmdirKeeps(w.table, s, name);
    if Rmdir(w.table, s, name).1 == 0 {
      forall k <- w.sessions ensures SessionOk(Rmdir(w.table, s, name).0, w.sessions[k]) {
        RmdirKeepsSessionIff(w.table, s, name, w.sessions[k]);
      }
    }
    assert forall r: Row :: r == r.(count := r.count);
  }

  lemma RmOk(w: World, s: Session, name: string)
    requires WorldOk(w)
    ensures WorldOk(w.(table := Rm(w.table, s, name).0))
    ensures FilesStay(w.table, Rm(w.table, s, name).0)
  {
    RmKeeps(w.table, s, name);
    var t' := Rm(w.table, s, name).0;
    forall r <- w.table.rows ensures exists r' :: r' in t'.rows && r' == r.(count := r'.count) {
      var i := RowIndex(w.table.rows, r);
      assert t'.rows[i] in t'.rows && t'.rows[i] == r.(count := t'.rows[i].count);
    }
  }

  /** Every command of every session keeps the table in order, every session's position
      right, and every file row. */
  lemma NextOk(w: World, e: Event)
    requires WorldOk(w) && Legal(w, e)
    ensures WorldOk(Next(w, e)) && FilesStay(w.table, Next(w, e).table)
  {
    assert forall r: Row :: r == r.(count := r.count);
    match e.cmd
    case DoLogin(uid) => LoginOk(w.table, uid);
    case DoToken(_) =>
    case DoExit =>
    case DoTimeOut(_) =>
    case DoCd(target) => CdKeeps(w.table, w.sessions[e.client], target);
    case DoMkdir(name) =>
      var s := w.sessions[e.client];
      MkdirKeeps(w.table, s, name);
      InsertOk(w, DirRow(s, name));
    case DoRmdir(name) => RmdirOk(w, w.sessions[e.client], name);
    case DoRm(name) => RmOk(w, w.sessions[e.client], name);
    case DoPuts(name, md5, info) =>
      var s := w.sessions[e.client];
      PutsKeeps(w.table, s, name, md5, info);
      var known := First(w.table.rows, HasMd5(md5));
      InsertOk(w, FileRow(s, name, md5, if known.Some? then known.value.info else info));
  }

  // ---------------------------------------------------------------- what each command does

  /** All sessions but the client's are as they were. */
  ghost predicate OthersSame(w: World, w': World, client: Fd) {
    w'.sessions - {client} == w.sessions - {client}
  }

  lemma LoginEffect(w: World, client: Fd, uid: int)
    ensures var w' := Next(w, Event(client, DoLogin(uid)));
      && w'.table == w.table && OthersSame(w, w', client)
      && client in w'.sessions && w'.sessions[client].uid == uid
      && w'.sessions[client].code == 0 && w'.sessions[client].path == "~"
  {}

  lemma TokenEffect(w: World, client: Fd, from: Fd)
    requires from in w.sessions
    ensures var w' := Next(w, Event(client, DoToken(from)));
      && w'.table == w.table && OthersSame(w, w', client)
      && client in w'.sessions && w'.sessions[client] == w.sessions[from]
  {}

  /** The session moves to where the target leads, if it leads anywhere: down to the directory
      of that name, or up by one; its code is that of the place where its path then leads. */
  lemma CdEffect(w: World, client: Fd, target: string)
    requires WorldOk(w) && client in w.sessions
    ensures var w', s := Next(w, Event(client, DoCd(target))), w.sessions[client];
      && w'.table == w.table && OthersSame(w, w', client) && client in w'.sessions
      && Moved(w.table, s, w'.sessions[client], target)
  {
    CdMoves(w.table, w.sessions[client], target);
    OneSession(w, client, Cd(w.table, w.sessions[client], target).0);
  }

  lemma OneSession(w: World, client: Fd, s: Session)
    ensures OthersSame(w, w.(sessions := w.sessions[client := s]), client)
  {}

  lemma CdMoves(t: Table, s: Session, target: string)
    requires TableOk(t) && SessionOk(t, s)
    ensures Moved(t, s, Cd(t, s, target).0, target)
  {
    CdKeeps(t, s, target);
    SessionNames(t, s, Components(s.path));
  }

  ghost predicate Moved(t: Table, s: Session, s': Session, target: string) {
    var names := Components(s.path);
    && s'.uid == s.uid
    && Components(s'.path) ==
         (if target == ".." then (if names == [] then [] else names[..|names| - 1])
          else if Walk(t, s.uid, names + [target]).Some? then names + [target]
          else names)
    && Walk(t, s.uid, Components(s'.path)) == Some(s'.code)
  }

  /** One directory more, below that in which the session stands. */
  lemma MkdirEffect(w: World, client: Fd, name: string)
    requires client in w.sessions
    ensures var w', s := Next(w, Event(client, DoMkdir(name))), w.sessions[client];
      && w'.sessions == w.sessions
      && |w'.table.rows| == |w.table.rows| + 1 && w'.table.rows[..|w.table.rows|] == w.table.rows
      && DirHere(w'.table.rows[|w.table.rows|], s.uid, s.code, name)
  {
    MkdirAdds(w.table, w.sessions[client], name);
  }

  /** One file more, in the directory in which the session stands; described as the md5 is if it
      is known, and as given if it is not. */
  ghost predicate OneFileMore(t: Table, t': Table, s: Session, name: string, md5: string, info: Info) {
    && |t'.rows| == |t.rows| + 1 && t'.rows[..|t.rows|] == t.rows
    && var row := t'.rows[|t.rows|];
       && FileHere(row, s, name) && row.md5 == md5
       && ((forall r <- t.rows :: r.md5 != md5) ==> row.info == info)
       && forall r <- t.rows :: r.md5 == md5 ==> row.info == r.info
  }

  lemma PutsEffect(w: World, client: Fd, name: string, md5: string, info: Info)
    requires WorldOk(w) && client in w.sessions && |md5| == 32
    ensures var w' := Next(w, Event(client, DoPuts(name, md5, info)));
      w'.sessions == w.sessions && OneFileMore(w.table, w'.table, w.sessions[client], name, md5, info)
  {
    PutsAdds(w.table, w.sessions[client], name, md5, info);
  }

  lemma PutsAdds(t: Table, s: Session, name: string, md5: string, info: Info)
    requires TableOk(t) && SessionOk(t, s) && |md5| == 32
    ensures OneFileMore(t, Puts(t, s, name, md5, info).0, s, name, md5, info)
  {
    PutsKeeps(t, s, name, md5, info);
  }

  /** The file is no longer listed; all others are, and no row has gone. */
  lemma RmEffect(w: World, client: Fd, name: string)
    requires WorldOk(w) && client in w.sessions
    ensures var w', s := Next(w, Event(client, DoRm(name))), w.sessions[client];
      && w'.sessions == w.sessions && SameButCounts(w.table, w'.table)
      && forall uid, preCode, other :: Listed(w'.table, uid, preCode, other) <==>
           Listed(w.table, uid, preCode, other) && (uid, preCode, other) != (s.uid, ParentCode(s.code), name)
  {
    var s := w.sessions[client];
    RmKeeps(w.table, s, name);
    forall uid, preCode, other
      ensures Listed(Rm(w.table, s, name).0, uid, preCode, other) <==>
        Listed(w.table, uid, preCode, other) && (uid, preCode, other) != (s.uid, ParentCode(s.code), name)
    {
      RmHides(w.table, s, name, uid, preCode, other);
    }
  }

  /** The directories of the name go if all of them are empty; otherwise nothing changes. */
  ghost predicate Cleared(t: Table, t': Table, s: Session, name: string) {
    && t'.next == t.next
    && (!AllEmpty(t, s, name) ==> t' == t)
    && (AllEmpty(t, s, name) ==> forall r :: r in t'.rows <==> r in t.rows && !DirHere(r, s.uid, s.code, name))
  }

  lemma RmdirEffect(w: World, client: Fd, name: string)
    requires WorldOk(w) && client in w.sessions
    ensures var w' := Next(w, Event(client, DoRmdir(name)));
      w'.sessions == w.sessions && Cleared(w.table, w'.table, w.sessions[client], name)
  {
    RmdirClears(w.table, w.sessions[client], name);
  }

  lemma RmdirClears(t: Table, s: Session, name: string)
    requires TableOk(t)
    ensures Cleared(t, Rmdir(t, s, name).0, s, name)
  {
    RmdirVerdict(t, s, name);
    RmdirZeroIff(t, s, name);
    forall r <- t.rows ensures Doomed(t, s, name, r) <==> DirHere(r, s.uid, s.code, name) {}
  }

  /** Exactly the clients that leave lose their sessions. */
  lemma LeaveEffect(w: World, client: Fd, closed: set<Fd>)
    ensures var w' := Next(w, Event(client, DoExit));
      w'.table == w.table && client !in w'.sessions && OthersSame(w, w', client)
    ensures var w' := Next(w, Event(client, DoTimeOut(closed)));
      && w'.table == w.table
      && forall f :: (f in w'.sessions <==> f in w.sessions && f !in closed)
           && (f in w'.sessions ==> w'.sessions[f] == w.sessions[f])
  {}

  /** When a command is possible. */
  lemma LegalIff(w: World, client: Fd, name: string, uid: int, from: Fd, closed: set<Fd>)
    ensures Legal(w, Event(client, DoLogin(uid)))
    ensures Legal(w, Event(client, DoToken(from))) <==> from in w.sessions
    ensures Legal(w, Event(client, DoCd(name))) <==> client in w.sessions
    ensures Legal(w, Event(client, DoRm(name))) <==> client in w.sessions
    ensures Legal(w, Event(client, DoMkdir(name))) <==> client in w.sessions && name != "" && '/' !in name && '\0' !in name
    ensures Legal(w, Event(client, DoPuts(name, name, NO_INFO))) <==> client in w.sessions && |name| == 32
    ensures Legal(w, Event(client, DoExit)) && Legal(w, Event(client, DoTimeOut(closed)))
  {}

  ghost predicate IsRun(w: World, events: seq<Event>)
    requires WorldOk(w)
    decreases |events|
  {
    if events == [] then true
    else if !Legal(w, events[0]) then false
    else NextOk(w, events[0]); IsRun(Next(w, events[0]), events[1..])
  }

  ghost function End(w: World, events: seq<Event>): World
    requires WorldOk(w) && IsRun(w, events)
    decreases |events|
  {
    if events == [] then w
    else NextOk(w, events[0]); End(Next(w, events[0]), events[1..])
  }

  /** Over every run: the table stays a forest with one description per md5, every session's
      code is what its path resolves to, and what was once uploaded stays known. */
  lemma {:induction false} RunOk(w: World, events: seq<Event>)
    requires WorldOk(w) && IsRun(w, events)
    ensures WorldOk(End(w, events)) && FilesStay(w.table, End(w, events).table)
    decreases |events|
  {
    if events == [] {
      assert forall r: Row :: r == r.(count := r.count);
    } else {
      var w1 := Next(w, events[0]);
      NextOk(w, events[0]);
      RunOk(w1, events[1..]);
      FilesStayTransitive(w.table, w1.table, End(w, events).table);
    }
  }

  lemma FilesStayTransitive(a: Table, b: Table, c: Table)
    requires FilesStay(a, b) && FilesStay(b, c)
    ensures FilesStay(a, c)
  {
    forall r <- a.rows | r.kind.Reg? ensures exists q :: q in c.rows && q == r.(count := q.count) {
      var r' :| r' in b.rows && r' == r.(count := r'.count);
      var q :| q in c.rows && q == r'.(count := q.count);
      assert q == r.(count := q.count);
    }
  }

  /** Whether an upload is quick, and how its new row describes the file. */
  ghost predicate QuickAs(t: Table, s: Session, name: string, md5: string, given: Info, info: Info) {
    var (t', quick) := Puts(t, s, name, md5, given);
    quick && |t'.rows| == |t.rows| + 1 && t'.rows[|t.rows|].info == info
  }

  lemma KnownIsQuick(t0: Table, t: Table, s: Session, name: string, r: Row, given: Info)
    requires TableOk(t) && SessionOk(t, s) && FilesStay(t0, t) && r in t0.rows && r.kind.Reg?
    ensures QuickAs(t, s, name, r.md5, given, r.info)
  {
    var q :| q in t.rows && q == r.(count := q.count);
    assert |q.md5| == 32;
    PutsKeeps(t, s, name, q.md5, given);
  }

  /** A file once uploaded, even if removed since, decides how every later upload of its md5
      is described: by the same sizes and the same servers, without a transfer. */
  lemma OnceKnownAlwaysKnown(w: World, events: seq<Event>, r: Row, s: Session, name: string, given: Info)
    requires WorldOk(w) && IsRun(w, events) && r in w.table.rows && r.kind.Reg?
    requires SessionOk(End(w, events).table, s)
    ensures QuickAs(End(w, events).table, s, name, r.md5, given, r.info)
  {
    RunOk(w, events);
    KnownIsQuick(w.table, End(w, events).table, s, name, r, given);
  }

  /** An empty table with no sessions. */
  ghost function EmptyWorld(next: nat): (w: World)
    requires next > 0
    ensures WorldOk(w)
  {
    World(Table([], next), map[])
  }

  lemma FirstEvent(w: World, e: Event, rest: seq<Event>)
    requires WorldOk(w) && Legal(w, e)
    ensures WorldOk(Next(w, e))
    ensures IsRun(Next(w, e), rest) ==> IsRun(w, [e] + rest) && End(w, [e] + rest) == End(Next(w, e), rest)
  {
    NextOk(w, e);
    assert ([e] + rest)[1..] == rest;
  }

  /** A run from any table: a client logs in, makes a directory and enters it.  It then stands in
      a directory of that name below the root. */
  lemma LoginMkdirCd(w: World, client: Fd, uid: int, name: string)
    requires WorldOk(w) && NameOk(name) && name != ".."
    ensures var events := [Event(client, DoLogin(uid))] + ([Event(client, DoMkdir(name))] + ([Event(client, DoCd(name))] + []));
      && IsRun(w, events)
      && client in End(w, events).sessions
      && Components(End(w, events).sessions[client].path) == [name]
  {
    var e1, e2, e3 := Event(client, DoLogin(uid)), Event(client, DoMkdir(name)), Event(client, DoCd(name));
    var w1 := Next(w, e1);
    FirstEvent(w, e1, [e2] + ([e3] + []));
    var w2 := Next(w1, e2);
    FirstEvent(w1, e2, [e3] + []);
    FirstEvent(w2, e3, []);
    EntersMade(w1, client, name);
  }

  /** A client at the root that makes a directory can enter it. */
  lemma EntersMade(w: World, client: Fd, name: string)
    requires WorldOk(w) && client in w.sessions && Components(w.sessions[client].path) == [] && name != ".."
    requires WorldOk(Next(w, Event(client, DoMkdir(name))))
    ensures var w' := Next(Next(w, Event(client, DoMkdir(name))), Event(client, DoCd(name)));
      client in w'.sessions && Components(w'.sessions[client].path) == [name]
  {
    var t, s := w.table, w.sessions[client];
    CdEntersMkdir(t, s, name);
    InsertKeepsSession(t, DirRow(s, name), s);
    MadeEntered(Mkdir(t, s, name), s, name);
    assert Next(w, Event(client, DoMkdir(name))).sessions[client] == s;
  }

  lemma MadeEntered(t: Table, s: Session, name: string)
    requires TableOk(t) && SessionOk(t, s) && Components(s.path) == [] && name != ".." && Cd(t, s, name).1
    ensures Components(Cd(t, s, name).0.path) == [name]
  {
    CdKeeps(t, s, name);
    assert [] + [name] == [name];
  }
}
