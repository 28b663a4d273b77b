/** The flat table of the virtual file system, its four queries and its updates, and what a
    session's cached position in it means. */
module Vfs {

  datatype Option<T> = None | Some(value: T)

  datatype Kind = Dir | Reg

  /** Size, part sizes and the two servers of an uploaded file. */
  datatype Info = Info(size: int, part1: int, part2: int, server1: string, server2: string)

  const NO_INFO := Info(0, 0, 0, "", "")

  /** `count` is 0 once a file has been removed; its row stays. */
  datatype Row = Row(code: int, preCode: int, name: string, kind: Kind, owner: int,
                     md5: string, count: int, info: Info)

  /** `next` is the code that the next row gets. */
  datatype Table = Table(rows: seq<Row>, next: int)

  datatype Session = Session(uid: int, code: int, preCode: int, path: string)

  // ---------------------------------------------------------------- queries

  /** The first row that a query returns. */
  function First(rows: seq<Row>, p: Row -> bool): (r: Option<Row>)
    ensures r.Some? ==> p(r.value) && r.value in rows
    ensures r.None? ==> forall row <- rows :: !p(row)
  {
    if rows == [] then None
    else if p(rows[0]) then Some(rows[0])
    else First(rows[1..], p)
  }

  function Keep(rows: seq<Row>, p: Row -> bool): (r: seq<Row>)
    ensures forall row :: row in r <==> row in rows && p(row)
  {
    if rows == [] then []
    else (if p(rows[0]) then [rows[0]] else []) + Keep(rows[1..], p)
  }

  lemma {:induction false} FirstAppend(rows: seq<Row>, row: Row, p: Row -> bool)
    ensures First(rows + [row], p) ==
      if First(rows, p).Some? then First(rows, p) else if p(row) then Some(row) else None
  {
    if rows != [] {
      assert (rows + [row])[1..] == rows[1..] + [row];
      FirstAppend(rows[1..], row, p);
    }
  }

  /** Dropping other rows does not change which row comes first. */
  lemma {:induction false} FirstKept(rows: seq<Row>, keep: Row -> bool, p: Row -> bool)
    requires First(rows, p).Some? && keep(First(rows, p).value)
    ensures First(Keep(rows, keep), p) == First(rows, p)
  {
    if !p(rows[0]) {
      FirstKept(rows[1..], keep, p);
      assert keep(rows[0]) ==> ([rows[0]] + Keep(rows[1..], keep))[1..] == Keep(rows[1..], keep);
      assert !keep(rows[0]) ==> [] + Keep(rows[1..], keep) == Keep(rows[1..], keep);
    } else {
      assert Keep(rows, keep)[0] == rows[0];
    }
  }

  lemma {:induction false} FirstIsLowest(rows: seq<Row>, p: Row -> bool, q: Row)
    requires Sorted(rows) && q in rows && p(q)
    ensures First(rows, p).Some? && First(rows, p).value.code <= q.code
  {
    if !p(rows[0]) {
      FirstIsLowest(rows[1..], p, q);
    } else {
      var i := RowIndex(rows, q);
    }
  }

  ghost predicate Sorted(rows: seq<Row>) {
    forall i, j :: 0 <= i < j < |rows| ==> rows[i].code < rows[j].code
  }

  /** How a directory refers to itself in the rows below it: the root, 0 in a session, is -1
      in the table. */
  function ParentCode(code: int): int { if code == 0 then -1 else code }

  /** The directories of the given name under `code`; the query for the root asks for any
      negative parent. */
  function IsChild(uid: int, code: int, name: string): Row -> bool {
    (r: Row) => r.owner == uid && r.name == name && r.kind.Dir? && (if code == 0 then r.preCode < 0 else r.preCode == code)
  }

  function Child(t: Table, uid: int, code: int, name: string): Option<Row> {
    First(t.rows, IsChild(uid, code, name))
  }

  // ---------------------------------------------------------------- well-formed tables

  predicate NameOk(name: string) {
    name != "" && '/' !in name && '\0' !in name
  }

  ghost predicate ParentBefore(rows: seq<Row>, i: nat)
    requires i < |rows|
  {
    rows[i].preCode == -1 ||
    exists j :: 0 <= j < i && rows[j].code == rows[i].preCode && rows[j].kind.Dir? && rows[j].owner == rows[i].owner
  }

  /** Codes increase from row to row, and every row hangs below the root or below an earlier
      directory of the same owner: the parent links form a forest. */
  ghost predicate Forest(t: Table) {
    && t.next > 0
    && (forall i :: 0 <= i < |t.rows| ==> 0 < t.rows[i].code < t.next)
    && (forall i, j :: 0 <= i < j < |t.rows| ==> t.rows[i].code < t.rows[j].code)
    && (forall i :: 0 <= i < |t.rows| ==> ParentBefore(t.rows, i))
  }

  ghost predicate SameDir(a: Row, b: Row) {
    a.kind.Dir? && b.kind.Dir? && a.owner == b.owner && a.preCode == b.preCode && a.name == b.name
  }

  ghost predicate NoTwins(rows: seq<Row>) {
    forall i, j :: 0 <= i < j < |rows| ==> !SameDir(rows[i], rows[j])
  }

  /** No directory has two subdirectories of one name. */
  ghost predicate UniqueDirs(t: Table) {
    NoTwins(t.rows)
  }

  ghost predicate NamesOk(t: Table) {
    forall r <- t.rows :: r.kind.Dir? ==> NameOk(r.name)
  }

  // ---------------------------------------------------------------- paths

  function Render(names: seq<string>): (path: string)
    ensures path != ""
  {
    if names == [] then "~" else Render(names[..|names| - 1]) + "/" + names[|names| - 1]
  }

  /** Where the last '/' is, searched from the end down to position 1; 0 if there is none. */
  function LastSlash(path: string): (i: nat)
    ensures i <= |path| && (path != "" ==> i < |path|)
  {
    if |path| <= 1 then 0
    else if path[|path| - 1] == '/' then |path| - 1
    else LastSlash(path[..|path| - 1])
  }

  function CutLast(path: string): string {
    path[..LastSlash(path)]
  }

  /** The names that a path consists of. */
  function Components(path: string): seq<string>
    decreases |path|
  {
    var i := LastSlash(path);
    if i == 0 then [] else Components(path[..i]) + [path[i + 1..]]
  }

  ghost predicate AllNamesOk(names: seq<string>) {
    forall n <- names :: NameOk(n)
  }

  lemma {:induction false} LastSlashAt(p: string, n: string)
    requires p != "" && '/' !in n
    ensures LastSlash(p + "/" + n) == |p|
  {
    var path := p + "/" + n;
    if n != "" {
      assert path[..|path| - 1] == p + "/" + n[..|n| - 1];
      LastSlashAt(p, n[..|n| - 1]);
    }
  }

  lemma CutRender(names: seq<string>, n: string)
    requires '/' !in n
    ensures CutLast(Render(names + [n])) == Render(names)
  {
    assert (names + [n])[..|names|] == names;
    LastSlashAt(Render(names), n);
  }

  lemma {:induction false} ComponentsRender(names: seq<string>)
    requires AllNamesOk(names)
    ensures Components(Render(names)) == names
  {
    if names != [] {
      var front, n := names[..|names| - 1], names[|names| - 1];
      assert n in names && NameOk(n);
      ComponentsRender(front);
      LastSlashAt(Render(front), n);
      var path, i := Render(names), |Render(front)|;
      assert path[..i] == Render(front) && path[i + 1..] == n;
      assert names == front + [n];
    }
  }

  /** Follows the names down from the root as `cd` would. */
  function Walk(t: Table, uid: int, names: seq<string>): Option<int> {
    if names == [] then Some(0)
    else
      var above := Walk(t, uid, names[..|names| - 1]);
      if above.None? then None
      else
        var child := Child(t, uid, above.value, names[|names| - 1]);
        if child.None? then None else Some(child.value.code)
  }

  function Resolve(t: Table, uid: int, path: string): Option<int> {
    Walk(t, uid, Components(path))
  }

  // ---------------------------------------------------------------- sessions

  /** The parent as a session caches it: 0 for a child of the root; at the root itself the
      login's -1, or the 0 that a failed cd leaves. */
  ghost predicate ParentCached(t: Table, s: Session) {
    if s.code == 0 then s.preCode == -1 || s.preCode == 0
    else forall r <- t.rows :: r.code == s.code ==> s.preCode == if r.preCode == -1 then 0 else r.preCode
  }

  /** The position that the names lead to from the root. */
  ghost predicate SessionAt(t: Table, s: Session, names: seq<string>) {
    && s.path == Render(names) && AllNamesOk(names)
    && Walk(t, s.uid, names) == Some(s.code)
    && ParentCached(t, s)
  }

  /** The cached position: the path is a proper one, the code is what it resolves to from the
      root, and the parent is the parent of that. */
  ghost predicate SessionOk(t: Table, s: Session) {
    && s.path == Render(Components(s.path)) && AllNamesOk(Components(s.path))
    && Resolve(t, s.uid, s.path) == Some(s.code)
    && ParentCached(t, s)
  }

  lemma SessionNames(t: Table, s: Session, names: seq<string>)
    requires SessionAt(t, s, names)
    ensures SessionOk(t, s) && Components(s.path) == names
  {
    ComponentsRender(names);
  }

  function Login(uid: int): Session { Session(uid, 0, -1, "~") }

  /** The new session, and whether the command succeeded. */
  function Cd(t: Table, s: Session, target: string): (Session, bool) {
    if target == ".." then
      if s.code == 0 then (s, false)
      else if s.preCode == 0 then (s.(code := 0, preCode := -1, path := CutLast(s.path)), true)
      else
        var r := First(t.rows, (r: Row) => r.owner == s.uid && r.code == s.preCode && r.kind.Dir?);
        if r.None? then (s, false)
        else (s.(code := r.value.code, preCode := if r.value.preCode == -1 then 0 else r.value.preCode,
                 path := CutLast(s.path)), true)
    else
      var r := Child(t, s.uid, s.code, target);
      if s.code == 0 then
        if r.None? then (s.(preCode := 0), false)
        else (s.(code := r.value.code, preCode := 0, path := s.path + "/" + target), true)
      else
        if r.None? then (s, false)
        else (s.(code := r.value.code, preCode := r.value.preCode, path := s.path + "/" + target), true)
  }

  lemma LoginOk(t: Table, uid: int)
    ensures SessionOk(t, Login(uid))
    ensures Login(uid).uid == uid && Login(uid).path == "~" && Components(Login(uid).path) == []
  {
    assert Components("~") == [];
  }

  /** Two paths as they are written. */
  lemma PathExamples()
    ensures Render([]) == "~" && Render(["docs"]) == "~/docs" && Render(["docs", "old"]) == "~/docs/old"
  {
    assert ["docs"][..0] == [] && ["docs", "old"][..1] == ["docs"];
  }

  lemma RowIndex(rows: seq<Row>, row: Row) returns (i: nat)
    requires row in rows
    ensures i < |rows| && rows[i] == row
  {
    i :| i < |rows| && rows[i] == row;
  }

  lemma CodeUnique(t: Table, a: Row, b: Row)
    requires Forest(t) && a in t.rows && b in t.rows && a.code == b.code
    ensures a == b
  {
    var i := RowIndex(t.rows, a);
    var j := RowIndex(t.rows, b);
  }

  lemma ParentExists(t: Table, r: Row) returns (p: Row)
    requires Forest(t) && r in t.rows && r.preCode != -1
    ensures p in t.rows && p.code == r.preCode && p.kind.Dir? && p.owner == r.owner && 0 < p.code < r.code
  {
    var i := RowIndex(t.rows, r);
    assert ParentBefore(t.rows, i);
    var j :| 0 <= j < i && t.rows[j].code == t.rows[i].preCode && t.rows[j].kind.Dir? && t.rows[j].owner == t.rows[i].owner;
    p := t.rows[j];
  }

  /** The last step of a walk that ends below the root. */
  lemma WalkLast(t: Table, uid: int, names: seq<string>) returns (row: Row)
    requires Forest(t) && Walk(t, uid, names).Some? && names != []
    ensures var front := names[..|names| - 1];
      && Walk(t, uid, front).Some?
      && Child(t, uid, Walk(t, uid, front).value, names[|names| - 1]) == Some(row)
      && Walk(t, uid, names) == Some(row.code)
      && row in t.rows && row.owner == uid && row.kind.Dir? && row.code > 0
      && row.preCode == ParentCode(Walk(t, uid, front).value)
  {
    row := Child(t, uid, Walk(t, uid, names[..|names| - 1]).value, names[|names| - 1]).value;
    var i := RowIndex(t.rows, row);
    assert ParentBefore(t.rows, i);
  }

  /** The directory that a name leads to: the one of the lowest code among those of the name, the
      owner and the parent. */
  lemma ChildIff(t: Table, uid: int, code: int, name: string)
    requires Forest(t) && code >= 0
    ensures Child(t, uid, code, name).Some? <==> exists r :: r in t.rows && DirHere(r, uid, code, name)
    ensures Child(t, uid, code, name).Some? ==>
      var d := Child(t, uid, code, name).value;
      && d in t.rows && DirHere(d, uid, code, name)
      && forall r <- t.rows :: DirHere(r, uid, code, name) ==> d.code <= r.code
  {
    var p := IsChild(uid, code, name);
    forall r <- t.rows ensures p(r) <==> DirHere(r, uid, code, name) {
      if r.preCode != -1 {
        var parent := ParentExists(t, r);
      }
    }
    forall r <- t.rows | DirHere(r, uid, code, name) ensures First(t.rows, p).Some? && First(t.rows, p).value.code <= r.code {
      FirstIsLowest(t.rows, p, r);
    }
  }

  ghost predicate DirHere(r: Row, uid: int, code: int, name: string) {
    r.kind == Dir && r.owner == uid && r.name == name && r.preCode == if code == 0 then -1 else code
  }

  /** Down into a child: the path gets one name longer. */
  lemma CdDown(t: Table, s: Session, names: seq<string>, target: string)
    requires Forest(t) && NamesOk(t) && SessionAt(t, s, names) && target != ".."
    ensures var (s', ok) := Cd(t, s, target);
      s'.uid == s.uid && SessionAt(t, s', if ok then names + [target] else names)
  {
    var (s', ok) := Cd(t, s, target);
    if ok {
      var names' := names + [target];
      var row := Child(t, s.uid, s.code, target).value;
      assert names'[..|names|] == names;
      assert Walk(t, s.uid, names') == Some(row.code);
      var last := WalkLast(t, s.uid, names');
      forall r <- t.rows | r.code == s'.code ensures r == row {
        CodeUnique(t, r, row);
      }
    }
  }

  /** Up to the parent: the path loses its last name; at the root nothing happens. */
  lemma CdUp(t: Table, s: Session, names: seq<string>)
    requires Forest(t) && NamesOk(t) && SessionAt(t, s, names)
    ensures names == [] <==> s.code == 0
    ensures var (s', ok) := Cd(t, s, "..");
      && s'.uid == s.uid && (ok <==> s.code != 0)
      && SessionAt(t, s', if ok then names[..|names| - 1] else names)
  {
    if names != [] {
      var front, n := names[..|names| - 1], names[|names| - 1];
      var row := WalkLast(t, s.uid, names);
      assert n in names && names == front + [n];
      CutRender(front, n);
      UpLands(t, s, front, row);
    }
  }

  /** The row that `cd ..` looks up is that of the directory above. */
  lemma UpLands(t: Table, s: Session, front: seq<string>, row: Row)
    requires Forest(t) && AllNamesOk(front) && ParentCached(t, s) && s.code == row.code != 0 && row in t.rows
    requires Walk(t, s.uid, front).Some? && row.preCode == ParentCode(Walk(t, s.uid, front).value)
    requires s.path != "" && CutLast(s.path) == Render(front)
    ensures Cd(t, s, "..").1 && SessionAt(t, Cd(t, s, "..").0, front)
  {
    var above := Walk(t, s.uid, front).value;
    if front != [] {
      var parent := WalkLast(t, s.uid, front);
      var p := (r: Row) => r.owner == s.uid && r.code == s.preCode && r.kind.Dir?;
      assert p(parent);
      var found := First(t.rows, p).value;
      CodeUnique(t, found, parent);
      forall r <- t.rows | r.code == above ensures r == parent {
        CodeUnique(t, r, parent);
      }
    }
  }

  /** Every cd keeps the cached position right.  A failed one changes neither code nor path;
      a successful one appends the target to the path or takes the last name off it.  It
      succeeds exactly if there is a directory there. */
  lemma CdKeeps(t: Table, s: Session, target: string)
    requires Forest(t) && NamesOk(t) && SessionOk(t, s)
    ensures var (s', ok) := Cd(t, s, target); var names, names' := Components(s.path), Components(s'.path);
      && SessionOk(t, s') && s'.uid == s.uid
      && (!ok ==> s'.code == s.code && s'.path == s.path)
      && (ok && target != ".." ==> names' == names + [target])
      && (ok && target == ".." ==> names != [] && names' == names[..|names| - 1])
      && (ok <==> if target == ".." then s.code != 0 else Walk(t, s.uid, names + [target]).Some?)
  {
    var names, s' := Components(s.path), Cd(t, s, target).0;
    assert (names + [target])[..|names|] == names;
    if target == ".." {
      CdUp(t, s, names);
      SessionNames(t, s', if Cd(t, s, target).1 then names[..|names| - 1] else names);
    } else {
      CdDown(t, s, names, target);
      SessionNames(t, s', if Cd(t, s, target).1 then names + [target] else names);
    }
  }

  // ---------------------------------------------------------------- walks

  ghost function CdAll(t: Table, s: Session, targets: seq<string>): Session
    requires Forest(t) && NamesOk(t) && SessionOk(t, s)
    decreases |targets|
  {
    if targets == [] then s
    else
      CdKeeps(t, s, targets[0]);
      CdAll(t, Cd(t, s, targets[0]).0, targets[1..])
  }

  ghost function Depth(s: Session): nat { |Components(s.path)| }

  /** The walk never climbs above depth d. */
  ghost predicate StaysBelow(t: Table, s: Session, targets: seq<string>, d: nat)
    requires Forest(t) && NamesOk(t) && SessionOk(t, s)
    decreases |targets|
  {
    if targets == [] then d <= Depth(s)
    else
      CdKeeps(t, s, targets[0]);
      d <= Depth(s) && StaysBelow(t, Cd(t, s, targets[0]).0, targets[1..], d)
  }

  lemma {:induction false} WalkKeepsPrefix(t: Table, s: Session, targets: seq<string>, d: nat)
    requires Forest(t) && NamesOk(t) && SessionOk(t, s) && StaysBelow(t, s, targets, d)
    ensures var s' := CdAll(t, s, targets);
      && SessionOk(t, s') && s'.uid == s.uid && d <= Depth(s')
      && Components(s'.path)[..d] == Components(s.path)[..d]
    decreases |targets|
  {
    if targets != [] {
      CdKeeps(t, s, targets[0]);
      var next := Cd(t, s, targets[0]).0;
      WalkKeepsPrefix(t, next, targets[1..], d);
      assert Components(next.path)[..d] == Components(s.path)[..d];
    }
  }

  /** A walk of any length that never climbs above its start and ends at the depth where it
      started ends where it started: same code, same path, and the same cached parent, up to
      the two ways of writing it at the root. */
  lemma BalancedWalkReturns(t: Table, s: Session, targets: seq<string>)
    requires Forest(t) && NamesOk(t) && SessionOk(t, s)
    requires StaysBelow(t, s, targets, Depth(s)) && Depth(CdAll(t, s, targets)) == Depth(s)
    ensures var s' := CdAll(t, s, targets);
      && s'.code == s.code && s'.path == s.path
      && (s.code != 0 ==> s'.preCode == s.preCode)
      && (s.code == 0 ==> s'.preCode == -1 || s'.preCode == 0)
  {
    var s' := CdAll(t, s, targets);
    WalkKeepsPrefix(t, s, targets, Depth(s));
    var names := Components(s.path);
    assert names == names[..Depth(s)] && Components(s'.path) == Components(s'.path)[..Depth(s)];
    if names != [] {
      var row := WalkLast(t, s.uid, names);
    }
  }

  /** A walk that begins with one step. */
  lemma FirstStep(t: Table, s: Session, targets: seq<string>, d: nat)
    requires Forest(t) && NamesOk(t) && SessionOk(t, s) && targets != []
    ensures var next := Cd(t, s, targets[0]).0;
      && SessionOk(t, next)
      && CdAll(t, s, targets) == CdAll(t, next, targets[1..])
      && (d <= Depth(s) && StaysBelow(t, next, targets[1..], d) ==> StaysBelow(t, s, targets, d))
  {
    CdKeeps(t, s, targets[0]);
  }

  /** Into a child and back. */
  lemma DownAndUp(t: Table, s: Session, child: string)
    requires Forest(t) && NamesOk(t) && SessionOk(t, s)
    requires child != ".." && Cd(t, s, child).1
    ensures var (back, ok) := Cd(t, Cd(t, s, child).0, "..");
      ok && back.code == s.code && back.path == s.path && (s.code != 0 ==> back.preCode == s.preCode)
  {
    var down := Cd(t, s, child).0;
    CdKeeps(t, s, child);
    CdKeeps(t, down, "..");
    var targets := [child, ".."];
    assert targets[1..] == [".."] && targets[1..][1..] == [];
    FirstStep(t, down, targets[1..], Depth(s));
    FirstStep(t, s, targets, Depth(s));
    BalancedWalkReturns(t, s, targets);
  }
}
