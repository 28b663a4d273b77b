/** The commands of the route server: on the shared table, and on the client record with its
    path buffer. */
module RouteServer {
  import opened Clients
  import opened Vfs
  import opened VfsUpdates

  // ---------------------------------------------------------------- the path buffer

  /** The C string at the start of a buffer. */
  ghost function Str(buf: seq<char>): string {
    if buf == [] || buf[0] == '\0' then "" else [buf[0]] + Str(buf[1..])
  }

  /** `s` is the string in the buffer, with its terminator inside the buffer. */
  ghost predicate HoldsStr(buf: seq<char>, s: string) {
    |s| < |buf| && buf[..|s|] == s && buf[|s|] == '\0' && '\0' !in s
  }

  lemma {:induction false} StrHeld(buf: seq<char>, s: string)
    requires HoldsStr(buf, s)
    ensures Str(buf) == s
  {
    if s != "" {
      assert buf[0] == s[0] && s[0] in s;
      assert buf[1..][..|s| - 1] == buf[..|s|][1..] == s[1..];
      StrHeld(buf[1..], s[1..]);
      assert s == [s[0]] + s[1..];
    }
  }

  ghost predicate Terminated(c: Client)
    reads c, c.path
  {
    c.path.Length == 128 && HoldsStr(c.path[..], Str(c.path[..]))
  }

  ghost function SessionOf(c: Client): Session
    reads c, c.path
  {
    Session(c.uid, c.code, c.preCode, Str(c.path[..]))
  }

  method Strlen(path: array<char>, ghost s: string) returns (n: nat)
    requires HoldsStr(path[..], s)
    ensures n == |s|
  {
    n := 0;
    assert forall k :: 0 <= k < |s| ==> path[k] == path[..][..|s|][k] == s[k] && s[k] in s;
    while path[n] != '\0'
      invariant n <= |s|
      decreases |s| - n
    {
      n := n + 1;
    }
  }

  /** Cuts the last name off the path, scanning back to its slash. */
  method CutPath(path: array<char>, ghost s: string)
    requires HoldsStr(path[..], s) && s != ""
    modifies path
    ensures HoldsStr(path[..], CutLast(s))
  {
    var pathLen := Strlen(path, s);
    ghost var before := path[..];
    assert forall k :: 0 <= k < |s| ==> path[k] == before[..|s|][k] == s[k];
    var i := pathLen - 1;
    assert s[..i + 1] == s;
    while i > 0 && path[i] != '/'
      invariant 0 <= i < |s|
      invariant LastSlash(s) == LastSlash(s[..i + 1])
    {
      assert s[..i + 1][..i] == s[..i];
      i := i - 1;
    }
    for j := i to pathLen
      invariant forall k :: 0 <= k < path.Length ==> path[k] == if i <= k < j then '\0' else before[k]
    {
      path[j] := '\0';
    }
    assert LastSlash(s) == i;
    assert path[..][..i] == s[..i];
  }

  /** Appends a string to the path. */
  method StrCat(path: array<char>, more: string, ghost s: string)
    requires HoldsStr(path[..], s) && |s| + |more| < path.Length && '\0' !in more
    modifies path
    ensures HoldsStr(path[..], s + more)
  {
    var n := Strlen(path, s);
    ghost var before := path[..];
    for i := 0 to |more|
      invariant forall k :: 0 <= k < path.Length ==> path[k] == if n <= k < n + i then more[k - n] else before[k]
    {
      path[n + i] := more[i];
    }
    path[n + |more|] := '\0';
    assert path[..][..n + |more|] == before[..n] + more;
  }

  method StrCpy(path: array<char>, s: string)
    requires |s| < path.Length && '\0' !in s
    modifies path
    ensures HoldsStr(path[..], s)
  {
    for i := 0 to |s|
      invariant forall k :: 0 <= k < i ==> path[k] == s[k]
    {
      path[i] := s[i];
    }
    path[|s|] := '\0';
    assert path[..][..|s|] == s;
  }

  // ---------------------------------------------------------------- the database

  class Database {
    // The table VFS and the code that its next row gets.
    var vfs: seq<Row>
    var autoIncrement: int

    ghost function State(): Table
      reads this
    {
      Table(vfs, autoIncrement)
    }

    /** An empty table. */
    constructor (autoIncrement: int)
      ensures State() == Table([], autoIncrement)
    {
      vfs, this.autoIncrement := [], autoIncrement;
    }

    /** A SELECT: the rows that match, in order of their codes. */
    method Select(p: Row -> bool) returns (rows: seq<Row>)
      ensures rows == Keep(vfs, p)
      ensures rows == [] <==> First(vfs, p).None?
      ensures rows != [] ==> First(vfs, p) == Some(rows[0])
    {
      rows := Keep(vfs, p);
      KeepFirst(vfs, p);
    }

    method InsertRow(row: Row)
      modifies this
      ensures State() == Insert(old(State()), row)
    {
      vfs := vfs + [row.(code := autoIncrement)];
      autoIncrement := autoIncrement + 1;
    }
  }

  lemma {:induction false} KeepFirst(rows: seq<Row>, p: Row -> bool)
    ensures Keep(rows, p) == [] <==> First(rows, p).None?
    ensures Keep(rows, p) != [] ==> First(rows, p) == Some(Keep(rows, p)[0])
  {
    if rows != [] {
      KeepFirst(rows[1..], p);
    }
  }

  // ---------------------------------------------------------------- commands

  method SqlDoCd(client: Client, db: Database, targetDir: string) returns (rc: int)
    requires Terminated(client)
    modifies client`code, client`preCode
    ensures var (s', ok) := Cd(db.State(), old(SessionOf(client)), targetDir);
      client.code == s'.code && client.preCode == s'.preCode && rc == if ok then 0 else -1
  {
    var rows;
    if targetDir == ".." {
      if client.code == 0 {
        return -1;
      }
      if client.preCode == 0 {
        client.preCode := -1;
        client.code := 0;
        return 0;
      }
      var uid, above := client.uid, client.preCode;
      rows := db.Select((r: Row) => r.owner == uid && r.code == above && r.kind.Dir?);
      if rows == [] {
        return -1;
      }
      client.code := rows[0].code;
      client.preCode := rows[0].preCode;
      if client.preCode == -1 {
        client.preCode := 0;
      }
      return 0;
    }
    var atRoot := client.code == 0;
    if atRoot {
      client.preCode := 0;
    }
    rows := db.Select(IsChild(client.uid, client.code, targetDir));
    if rows == [] {
      return -1;
    }
    client.code := rows[0].code;
    if !atRoot {
      client.preCode := rows[0].preCode;
    }
    return 0;
  }

  /** What a cd makes of the path. */
  ghost function Moved(path: string, targetDir: string): string {
    if targetDir == ".." then CutLast(path) else path + "/" + targetDir
  }

  lemma CdPath(t: Table, s: Session, targetDir: string)
    ensures var (s', ok) := Cd(t, s, targetDir);
      s'.uid == s.uid && s'.path == if ok then Moved(s.path, targetDir) else s.path
  {}

  /** Edits the path in its buffer, and copies it out. */
  method MovePath(path: array<char>, targetDir: string, ghost s: string) returns (copy: string)
    requires HoldsStr(path[..], s) && (targetDir == ".." ==> s != "") && '\0' !in targetDir && |Moved(s, targetDir)| < path.Length
    modifies path
    ensures copy == Moved(s, targetDir) && HoldsStr(path[..], copy) && Str(path[..]) == copy
  {
    if targetDir == ".." {
      CutPath(path, s);
    } else {
      StrCat(path, "/", s);
      StrCat(path, targetDir, s + "/");
      assert s + "/" + targetDir == (s + "/") + targetDir;
    }
    StrHeld(path[..], Moved(s, targetDir));
    var n := Strlen(path, Moved(s, targetDir));
    copy := path[..n];
  }

  /** The path after a successful cd has to fit its buffer; and a path that is to be shortened
      must not be empty, as it is before a login. */
  ghost predicate PathFits(path: string, targetDir: string, result: (Session, bool)) {
    result.1 ==> |result.0.path| < 128 && (targetDir == ".." ==> path != "")
  }

  /** The reply to the client: its path, or "ERROR". */
  method DoCd(client: Client, db: Database, targetDir: string) returns (reply: string)
    requires Terminated(client) && '\0' !in targetDir
    requires PathFits(SessionOf(client).path, targetDir, Cd(db.State(), SessionOf(client), targetDir))
    modifies client, client.path
    ensures Terminated(client)
    ensures var (s', ok) := Cd(db.State(), old(SessionOf(client)), targetDir);
      SessionOf(client) == s' && reply == if ok then s'.path else "ERROR"
  {
    ghost var s := SessionOf(client);
    ghost var s' := Cd(db.State(), s, targetDir).0;
    CdPath(db.State(), s, targetDir);
    var rc := SqlDoCd(client, db, targetDir);
    if rc != 0 {
      assert SessionOf(client) == s';
      return "ERROR";
    }
    reply := MovePath(client.path, targetDir, s.path);
    assert SessionOf(client) == s';
  }

  /** A successful login puts the session at the root of its user's tree. */
  method DoLogin(client: Client, uid: int)
    requires client.path.Length == 128
    modifies client, client.path
    ensures Terminated(client) && SessionOf(client) == Login(uid)
  {
    client.uid := uid;
    client.code := 0;
    client.preCode := -1;
    StrCpy(client.path, "~");
    StrHeld(client.path[..], "~");
  }

  /** A transfer connection takes over the position of the connection whose token it shows. */
  method DoToken(client: Client, mainThread: Client)
    requires client.path != mainThread.path && client.path.Length == 128 && Terminated(mainThread)
    modifies client, client.path
    ensures Terminated(client) && SessionOf(client) == old(SessionOf(mainThread))
  {
    ghost var s := Str(mainThread.path[..]);
    client.code := mainThread.code;
    client.preCode := mainThread.preCode;
    client.uid := mainThread.uid;
    var n := Strlen(mainThread.path, s);
    var copy := mainThread.path[..n];
    assert copy == s;
    StrCpy(client.path, copy);
    StrHeld(client.path[..], s);
  }

  method DoMkdir(client: Client, db: Database, targetDir: string) returns (rc: int)
    modifies db
    ensures rc == 0 && db.State() == Mkdir(old(db.State()), SessionOf(client), targetDir)
  {
    var preCode := if client.code == 0 then -1 else client.code;
    db.InsertRow(Row(0, preCode, targetDir, Dir, client.uid, "0", 1, NO_INFO));
    return 0;
  }

  /** 0: deleted; 1: not empty; 2: no such directory. */
  method DoRmdir(client: Client, db: Database, targetDir: string) returns (rc: int)
    modifies db
    ensures (db.State(), rc) == Rmdir(old(db.State()), SessionOf(client), targetDir)
  {
    ghost var s := SessionOf(client);
    var p := IsSubdirOf(client, targetDir);
    ghost var q := IsSubdir(s, targetDir);
    var rows := db.Select((r: Row) => p(r) && r.count == 1);
    FirstSame(db.vfs, (r: Row) => p(r) && r.count == 1, (r: Row) => q(r) && r.count == 1);
    if rows == [] {
      return 2;
    }
    var targetDirCode := rows[0].code;
    rows := db.Select(IsUnder(targetDirCode, client.uid));
    if rows != [] {
      return 1;
    }
    KeepSame(db.vfs, (r: Row) => !p(r), Others(s, targetDir));
    db.vfs := Keep(db.vfs, (r: Row) => !p(r));
    return 0;
  }

  function IsSubdirOf(client: Client, name: string): Row -> bool
    reads client
  {
    var preCode, uid := if client.code == 0 then -1 else client.code, client.uid;
    (r: Row) => r.preCode == preCode && r.name == name && r.owner == uid && r.kind.Dir?
  }

  lemma {:induction false} FirstSame(rows: seq<Row>, p: Row -> bool, q: Row -> bool)
    requires forall r: Row :: p(r) <==> q(r)
    ensures First(rows, p) == First(rows, q)
  {
    if rows != [] {
      FirstSame(rows[1..], p, q);
    }
  }

  lemma {:induction false} KeepSame(rows: seq<Row>, p: Row -> bool, q: Row -> bool)
    requires forall r: Row :: p(r) <==> q(r)
    ensures Keep(rows, p) == Keep(rows, q)
  {
    if rows != [] {
      KeepSame(rows[1..], p, q);
    }
  }

  /** Marks the file as removed; its rows stay. */
  method DoRm(client: Client, db: Database, targetFile: string) returns (rc: int)
    modifies db
    ensures (db.State(), rc) == Rm(old(db.State()), SessionOf(client), targetFile)
  {
    ghost var s := SessionOf(client);
    var preCode, uid := if client.code == 0 then -1 else client.code, client.uid;
    var p := (r: Row) => r.preCode == preCode && r.name == targetFile && r.owner == uid && r.kind.Reg?;
    ghost var q := IsFile(s, targetFile);
    var rows := db.Select((r: Row) => p(r) && r.count == 1);
    FirstSame(db.vfs, (r: Row) => p(r) && r.count == 1, (r: Row) => q(r) && r.count == 1);
    if rows == [] {
      return -1;
    }
    assert Unlink(db.vfs, p) == Unlink(db.vfs, q);
    db.vfs := Unlink(db.vfs, p);
    return 0;
  }

  /** Records an upload.  `given` is what the client reports if it has to transfer the file. */
  method DoPuts(client: Client, db: Database, fileName: string, md5sum: string, given: Info)
    returns (quickTrans: bool)
    modifies db
    ensures (db.State(), quickTrans) == Puts(old(db.State()), SessionOf(client), fileName, md5sum, given)
  {
    var rows := db.Select(HasMd5(md5sum));
    var preCode := if client.code == 0 then -1 else client.code;
    quickTrans := rows != [];
    var info := if quickTrans then rows[0].info else given;
    db.InsertRow(Row(0, preCode, fileName, Reg, client.uid, md5sum, 1, info));
  }

  /** Where a download is to be made from; every matching row overwrites the one before. */
  method SqlDoGets(client: Client, db: Database, targetFile: string) returns (found: bool, md5sum: string, info: Info)
    ensures var row := Gets(db.State(), SessionOf(client), targetFile);
      && (found <==> row.Some?)
      && (found ==> md5sum == row.value.md5 && info == row.value.info)
  {
    var preCode, uid := if client.code == 0 then -1 else client.code, client.uid;
    var p := (r: Row) => r.preCode == preCode && r.name == targetFile && r.owner == uid && r.kind.Reg?;
    var rows := db.Select(p);
    KeepSame(db.vfs, p, IsFile(SessionOf(client), targetFile));
    md5sum, info, found := "", NO_INFO, rows != [];
    for i := 0 to |rows|
      invariant i > 0 ==> md5sum == rows[i - 1].md5 && info == rows[i - 1].info
    {
      md5sum, info := rows[i].md5, rows[i].info;
    }
  }
}
