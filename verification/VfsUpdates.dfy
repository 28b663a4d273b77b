/** The commands that change the table: what each keeps, and when `rmdir` does not. */
module VfsUpdates {
  import opened Vfs

  // ---------------------------------------------------------------- the updates

  function Insert(t: Table, row: Row): Table {
    Table(t.rows + [row.(code := t.next)], t.next + 1)
  }

  function DirRow(s: Session, name: string): Row {
    Row(0, ParentCode(s.code), name, Dir, s.uid, "0", 1, NO_INFO)
  }

  function FileRow(s: Session, name: string, md5: string, info: Info): Row {
    Row(0, ParentCode(s.code), name, Reg, s.uid, md5, 1, info)
  }

  /** No check for a sibling of the same name. */
  function Mkdir(t: Table, s: Session, name: string): Table {
    Insert(t, DirRow(s, name))
  }

  function HasMd5(md5: string): Row -> bool {
    (r: Row) => r.md5 == md5
  }

  /** A known md5 is not uploaded again: the new row takes the first known row's data. */
  function Puts(t: Table, s: Session, name: string, md5: string, info: Info): (Table, bool) {
    var known := First(t.rows, HasMd5(md5));
    if known.Some? then (Insert(t, FileRow(s, name, md5, known.value.info)), true)
    else (Insert(t, FileRow(s, name, md5, info)), false)
  }

  /** The files of the given name in the session's directory, removed ones included. */
  function IsFile(s: Session, name: string): Row -> bool {
    (r: Row) => r.preCode == ParentCode(s.code) && r.name == name && r.owner == s.uid && r.kind.Reg?
  }

  /** The row that a download works from: the last of the name, removed or not. */
  function Gets(t: Table, s: Session, name: string): Option<Row> {
    var rows := Keep(t.rows, IsFile(s, name));
    if rows == [] then None else Some(rows[|rows| - 1])
  }

  function Unlink(rows: seq<Row>, p: Row -> bool): (r: seq<Row>)
    ensures |r| == |rows|
    ensures forall i :: 0 <= i < |r| ==> r[i] == if p(rows[i]) then rows[i].(count := 0) else rows[i]
  {
    seq(|rows|, i requires 0 <= i < |rows| => if p(rows[i]) then rows[i].(count := 0) else rows[i])
  }

  /** A removed file keeps its row, with count 0. */
  function Rm(t: Table, s: Session, name: string): (Table, int) {
    var p := IsFile(s, name);
    if First(t.rows, (r: Row) => p(r) && r.count == 1).Some? then (t.(rows := Unlink(t.rows, p)), 0)
    else (t, -1)
  }

  /** The directories of the given name in the session's directory. */
  function IsSubdir(s: Session, name: string): Row -> bool {
    (r: Row) => r.preCode == ParentCode(s.code) && r.name == name && r.owner == s.uid && r.kind.Dir?
  }

  function Others(s: Session, name: string): Row -> bool {
    (r: Row) => !IsSubdir(s, name)(r)
  }

  function IsUnder(code: int, uid: int): Row -> bool {
    (r: Row) => r.preCode == code && r.owner == uid
  }

  /** Looks at one directory of that name, refuses if it holds any row, and otherwise deletes
      every directory of that name. */
  function Rmdir(t: Table, s: Session, name: string): (Table, int) {
    var p := IsSubdir(s, name);
    var target := First(t.rows, (r: Row) => p(r) && r.count == 1);
    if target.None? then (t, 2)
    else if First(t.rows, IsUnder(target.value.code, s.uid)).Some? then (t, 1)
    else (t.(rows := Keep(t.rows, Others(s, name))), 0)
  }

  // ---------------------------------------------------------------- the invariant

  /** Rows with one md5 describe one stored file; a directory's marker is never an md5. */
  ghost predicate Deduplicated(t: Table) {
    && (forall r <- t.rows :: if r.kind.Dir? then r.md5 == "0" else |r.md5| == 32)
    && (forall a, b :: a in t.rows && b in t.rows && a.kind.Reg? && b.kind.Reg? && a.md5 == b.md5 ==> a.info == b.info)
  }

  ghost predicate DirsCounted(t: Table) {
    forall r <- t.rows :: r.kind.Dir? ==> r.count == 1
  }

  /** Sibling directories of one name are possible, since `mkdir` does not refuse them, but
      only the first of them holds anything: no query ever leads into another. */
  ghost predicate FirstsOnly(t: Table) {
    forall r, p {:trigger HeldBy(r, p)} :: HeldBy(r, p) && r in t.rows && p in t.rows ==> LeadsTwins(t, p)
  }

  ghost predicate HeldBy(r: Row, p: Row) { r.preCode == p.code && p.kind.Dir? }

  /** No directory of the same name in the same place comes before p. */
  ghost predicate LeadsTwins(t: Table, p: Row) {
    forall q {:trigger SameDir(p, q)} :: SameDir(p, q) && q in t.rows ==> p.code <= q.code
  }

  ghost predicate TableOk(t: Table) {
    Forest(t) && FirstsOnly(t) && NamesOk(t) && DirsCounted(t) && Deduplicated(t)
  }

  /** The directory that a session stands in is the root or a directory of its owner. */
  ghost predicate Stands(t: Table, s: Session) {
    s.code == 0 || exists i :: 0 <= i < |t.rows| && t.rows[i].code == s.code && t.rows[i].kind.Dir? && t.rows[i].owner == s.uid
  }

  lemma SessionStands(t: Table, s: Session)
    requires Forest(t) && SessionOk(t, s)
    ensures Stands(t, s) && 0 <= s.code < t.next
  {
    var names := Components(s.path);
    if names != [] {
      var row := WalkLast(t, s.uid, names);
      var i := RowIndex(t.rows, row);
    }
  }

  /** A session stands in the first directory of its name. */
  ghost predicate StandsInFirst(t: Table, s: Session) {
    forall p :: p in t.rows && p.code == s.code ==> LeadsTwins(t, p)
  }

  lemma SessionInFirst(t: Table, s: Session)
    requires Forest(t) && SessionOk(t, s)
    ensures StandsInFirst(t, s)
  {
    var names := Components(s.path);
    forall p, q | p in t.rows && q in t.rows && p.code == s.code && SameDir(p, q) ensures p.code <= q.code {
      var i := RowIndex(t.rows, p);
      var row := WalkLast(t, s.uid, names);
      CodeUnique(t, p, row);
      FirstIsLowest(t.rows, IsChild(s.uid, Walk(t, s.uid, names[..|names| - 1]).value, names[|names| - 1]), q);
    }
  }

  /** Inserting where a session stands puts nothing into a directory that is not the first. */
  lemma InsertKeepsFirsts(t: Table, s: Session, row: Row)
    requires Forest(t) && FirstsOnly(t) && StandsInFirst(t, s) && row.preCode == ParentCode(s.code)
    requires s.code < t.next
    ensures FirstsOnly(Insert(t, row))
  {
    var t' := Insert(t, row);
    forall r, p, q | HeldBy(r, p) && SameDir(p, q) && r in t'.rows && p in t'.rows && q in t'.rows
      ensures p.code <= q.code
    {
      var i := RowIndex(t'.rows, q);
      var j := RowIndex(t'.rows, p);
      var k := RowIndex(t'.rows, r);
      if k < |t.rows| && r.preCode != -1 {
        var parent := ParentExists(t, r);
      }
    }
  }

  /** Inserting below a directory that is there keeps the forest. */
  lemma InsertKeepsForest(t: Table, s: Session, row: Row)
    requires Forest(t) && Stands(t, s) && row.preCode == ParentCode(s.code) && row.owner == s.uid
    ensures Forest(Insert(t, row))
  {
    var t' := Insert(t, row);
    forall i | 0 <= i < |t'.rows| ensures ParentBefore(t'.rows, i) {
      if i < |t.rows| {
        assert ParentBefore(t.rows, i);
        if t.rows[i].preCode != -1 {
          var j :| 0 <= j < i && t.rows[j].code == t.rows[i].preCode && t.rows[j].kind.Dir? && t.rows[j].owner == t.rows[i].owner;
          assert t'.rows[j] == t.rows[j];
        }
      } else if s.code != 0 {
        var j :| 0 <= j < |t.rows| && t.rows[j].code == s.code && t.rows[j].kind.Dir? && t.rows[j].owner == s.uid;
        assert t'.rows[j] == t.rows[j];
      }
    }
  }

  /** New rows come last, so every session still finds its way. */
  lemma {:induction false} InsertKeepsWalk(t: Table, row: Row, uid: int, names: seq<string>)
    requires Walk(t, uid, names).Some?
    ensures Walk(Insert(t, row), uid, names) == Walk(t, uid, names)
  {
    if names != [] {
      var front, n := names[..|names| - 1], names[|names| - 1];
      InsertKeepsWalk(t, row, uid, front);
      FirstAppend(t.rows, row.(code := t.next), IsChild(uid, Walk(t, uid, front).value, n));
    }
  }

  lemma InsertKeepsSession(t: Table, row: Row, s: Session)
    requires Forest(t) && SessionOk(t, s)
    ensures SessionOk(Insert(t, row), s)
  {
    InsertKeepsWalk(t, row, s.uid, Components(s.path));
    SessionStands(t, s);
  }

  /** `mkdir` itself does not refuse a name that is in use: sibling names stay distinct
      exactly if the name is new among the directories there. */
  lemma MkdirKeepsUniqueIff(t: Table, s: Session, name: string)
    requires UniqueDirs(t)
    ensures UniqueDirs(Mkdir(t, s, name)) <==> forall r <- t.rows :: !IsSubdir(s, name)(r)
  {
    var t' := Mkdir(t, s, name);
    var last := |t.rows|;
    assert forall i :: 0 <= i < last ==> t'.rows[i] == t.rows[i];
    assert forall i :: 0 <= i < last ==> (SameDir(t'.rows[i], t'.rows[last]) <==> IsSubdir(s, name)(t.rows[i]));
    if UniqueDirs(t') {
      forall r <- t.rows ensures !IsSubdir(s, name)(r) {
        var i := RowIndex(t.rows, r);
        assert !SameDir(t'.rows[i], t'.rows[last]);
      }
    }
  }

  /** One directory more, and nothing else changes. */
  lemma MkdirAdds(t: Table, s: Session, name: string)
    ensures var t' := Mkdir(t, s, name);
      && |t'.rows| == |t.rows| + 1 && t'.rows[..|t.rows|] == t.rows && t'.next == t.next + 1
      && var row := t'.rows[|t.rows|];
         row.kind == Dir && row.name == name && row.owner == s.uid && row.code == t.next && row.count == 1
         && row.preCode == (if s.code == 0 then -1 else s.code) && row.md5 == "0" && row.info.size == 0
  {}

  /** Whether or not the name is in use. */
  lemma MkdirKeeps(t: Table, s: Session, name: string)
    requires TableOk(t) && SessionOk(t, s) && NameOk(name)
    ensures TableOk(Mkdir(t, s, name))
  {
    SessionStands(t, s);
    SessionInFirst(t, s);
    InsertKeepsForest(t, s, DirRow(s, name));
    InsertKeepsFirsts(t, s, DirRow(s, name));
  }

  lemma InsertKeepsDedup(t: Table, row: Row)
    requires Deduplicated(t) && row.kind.Reg? && |row.md5| == 32
    requires forall r <- t.rows :: r.md5 == row.md5 ==> r.info == row.info
    ensures Deduplicated(Insert(t, row))
  {}

  /** An upload keeps the table in order whether or not the md5 was known.  A known md5 is
      not uploaded again, and the new row describes the file that is stored already. */
  lemma PutsKeeps(t: Table, s: Session, name: string, md5: string, info: Info)
    requires TableOk(t) && SessionOk(t, s) && |md5| == 32
    ensures var (t', quick) := Puts(t, s, name, md5, info);
      && TableOk(t')
      && (quick <==> exists r :: r in t.rows && r.md5 == md5)
      && t'.rows[..|t.rows|] == t.rows && |t'.rows| == |t.rows| + 1
      && var row := t'.rows[|t.rows|];
         row.kind.Reg? && row.md5 == md5 && row.count == 1 && row.name == name && row.owner == s.uid
         && row.preCode == ParentCode(s.code) && row.code == t.next && t'.next == t.next + 1
         && (!quick ==> row.info == info)
         && forall r <- t.rows :: r.md5 == md5 ==> r.info == row.info
  {
    var (t', quick) := Puts(t, s, name, md5, info);
    var known := First(t.rows, HasMd5(md5));
    var row := FileRow(s, name, md5, if quick then known.value.info else info);
    SessionStands(t, s);
    SessionInFirst(t, s);
    InsertKeepsForest(t, s, row);
    InsertKeepsFirsts(t, s, row);
    InsertKeepsDedup(t, row);
  }

  lemma {:induction false} KeepEnd(rows: seq<Row>, row: Row, keep: Row -> bool)
    ensures Keep(rows + [row], keep) == Keep(rows, keep) + (if keep(row) then [row] else [])
  {
    if rows != [] {
      assert (rows + [row])[1..] == rows[1..] + [row];
      KeepEnd(rows[1..], row, keep);
    }
  }

  lemma {:induction false} KeepAll(rows: seq<Row>, keep: Row -> bool)
    requires forall r <- rows :: keep(r)
    ensures Keep(rows, keep) == rows
  {
    if rows != [] {
      KeepAll(rows[1..], keep);
    }
  }

  /** A file just uploaded is the one that a download finds. */
  lemma PutsThenGets(t: Table, s: Session, name: string, md5: string, info: Info)
    ensures var t' := Puts(t, s, name, md5, info).0;
      |t'.rows| == |t.rows| + 1 && Gets(t', s, name) == Some(t'.rows[|t.rows|])
  {
    var t' := Puts(t, s, name, md5, info).0;
    var row := t'.rows[|t.rows|];
    assert t'.rows == t.rows + [row];
    KeepEnd(t.rows, row, IsFile(s, name));
  }

  // ---------------------------------------------------------------- gets

  /** A file of the name in the directory in which the session stands, removed or not. */
  ghost predicate FileHere(r: Row, s: Session, name: string) {
    r.kind == Reg && r.owner == s.uid && r.name == name && r.preCode == if s.code == 0 then -1 else s.code
  }

  /** A download finds a row exactly if there is a file of the name, and then the last one. */
  lemma GetsIff(t: Table, s: Session, name: string)
    requires Forest(t)
    ensures Gets(t, s, name).Some? <==> exists r :: r in t.rows && FileHere(r, s, name)
    ensures Gets(t, s, name).Some? ==>
      var found := Gets(t, s, name).value;
      && found in t.rows && FileHere(found, s, name)
      && forall r <- t.rows :: FileHere(r, s, name) ==> r.code <= found.code
  {
    var rows := Keep(t.rows, IsFile(s, name));
    KeepSorted(t.rows, IsFile(s, name));
    forall r ensures r in rows <==> r in t.rows && FileHere(r, s, name) {
      IsFileHere(r, s, name);
    }
    forall r | r in t.rows && FileHere(r, s, name) ensures rows != [] && r.code <= rows[|rows| - 1].code {
      LastIsGreatest(rows, r);
    }
  }

  lemma IsFileHere(r: Row, s: Session, name: string)
    ensures IsFile(s, name)(r) <==> FileHere(r, s, name)
  {}

  lemma LastIsGreatest(rows: seq<Row>, r: Row)
    requires Sorted(rows) && r in rows
    ensures r.code <= rows[|rows| - 1].code
  {
    var i := RowIndex(rows, r);
  }

  /** A directory, or a file of another name or in another place, does not change what a
      download finds. */
  lemma GetsAfterInsert(t: Table, row: Row, s: Session, name: string)
    requires !FileHere(row, s, name)
    ensures Gets(Insert(t, row), s, name) == Gets(t, s, name)
  {
    KeepEnd(t.rows, row.(code := t.next), IsFile(s, name));
  }

  lemma {:induction false} KeepKeep(rows: seq<Row>, first: Row -> bool, keep: Row -> bool)
    requires forall r <- rows :: keep(r) ==> first(r)
    ensures Keep(Keep(rows, first), keep) == Keep(rows, keep)
  {
    if rows != [] {
      KeepKeep(rows[1..], first, keep);
      assert first(rows[0]) ==> ([rows[0]] + Keep(rows[1..], first))[1..] == Keep(rows[1..], first);
      assert !first(rows[0]) ==> [] + Keep(rows[1..], first) == Keep(rows[1..], first);
    }
  }

  lemma GetsAfterRmdir(t: Table, s: Session, dir: string, other: Session, name: string)
    ensures Gets(Rmdir(t, s, dir).0, other, name) == Gets(t, other, name)
  {
    forall r <- t.rows | IsFile(other, name)(r) ensures Others(s, dir)(r) {
      assert !IsSubdir(s, dir)(r);
    }
    KeepKeep(t.rows, Others(s, dir), IsFile(other, name));
  }

  lemma {:induction false} KeepUnlink(rows: seq<Row>, p: Row -> bool, keep: Row -> bool)
    requires forall i :: 0 <= i < |rows| ==> (keep(rows[i]) <==> keep(rows[i].(count := 0)))
    ensures var kept, kept' := Keep(rows, keep), Keep(Unlink(rows, p), keep);
      |kept'| == |kept| && forall i :: 0 <= i < |kept| ==> kept'[i] == kept[i].(count := kept'[i].count)
  {
    if rows != [] {
      var row' := Unlink(rows, p)[0];
      assert Unlink(rows, p)[1..] == Unlink(rows[1..], p);
      assert row' == rows[0].(count := row'.count);
      assert keep(row') <==> keep(rows[0]);
      KeepUnlink(rows[1..], p, keep);
    }
  }

  ghost predicate SameUpToCount(a: Option<Row>, b: Option<Row>) {
    (a.Some? <==> b.Some?) && (a.Some? ==> b.value == a.value.(count := b.value.count))
  }

  /** A removed file is still found, with the same md5 and the same servers. */
  lemma GetsAfterRm(t: Table, s: Session, file: string, other: Session, name: string)
    ensures SameUpToCount(Gets(t, other, name), Gets(Rm(t, s, file).0, other, name))
  {
    if Rm(t, s, file).1 == 0 {
      GetsUnlinked(t, IsFile(s, file), other, name);
    } else {
      SameItself(Gets(t, other, name));
    }
  }

  lemma SameItself(a: Option<Row>)
    ensures SameUpToCount(a, a)
  {
    assert a.Some? ==> a.value == a.value.(count := a.value.count);
  }

  lemma GetsUnlinked(t: Table, p: Row -> bool, s: Session, name: string)
    ensures SameUpToCount(Gets(t, s, name), Gets(t.(rows := Unlink(t.rows, p)), s, name))
  {
    CountUnseen(t.rows, s, name);
    KeepUnlink(t.rows, p, IsFile(s, name));
    var kept, kept' := Keep(t.rows, IsFile(s, name)), Keep(Unlink(t.rows, p), IsFile(s, name));
    assert kept != [] ==> kept'[|kept| - 1] == kept[|kept| - 1].(count := kept'[|kept| - 1].count);
  }

  lemma CountUnseen(rows: seq<Row>, s: Session, name: string)
    ensures forall i :: 0 <= i < |rows| ==> (IsFile(s, name)(rows[i]) <==> IsFile(s, name)(rows[i].(count := 0)))
  {}

  // ---------------------------------------------------------------- rm

  lemma {:induction false} UnlinkKeepsFirst(rows: seq<Row>, f: Row -> bool, p: Row -> bool)
    requires forall r: Row :: f(r) ==> !p(r) && !p(r.(count := 0))
    ensures First(Unlink(rows, f), p) == First(rows, p)
  {
    if rows != [] {
      assert Unlink(rows, f)[1..] == Unlink(rows[1..], f);
      UnlinkKeepsFirst(rows[1..], f, p);
    }
  }

  lemma {:induction false} RmKeepsWalk(t: Table, s: Session, name: string, uid: int, names: seq<string>)
    ensures Walk(Rm(t, s, name).0, uid, names) == Walk(t, uid, names)
  {
    if names != [] {
      var front, n := names[..|names| - 1], names[|names| - 1];
      RmKeepsWalk(t, s, name, uid, front);
      if Walk(t, uid, front).Some? {
        UnlinkKeepsFirst(t.rows, IsFile(s, name), IsChild(uid, Walk(t, uid, front).value, n));
      }
    }
  }

  /** Row by row, only counts of files differ. */
  ghost predicate SameButCounts(t: Table, t': Table) {
    && t'.next == t.next && |t'.rows| == |t.rows|
    && forall i :: 0 <= i < |t.rows| ==>
         t'.rows[i] == t.rows[i] || (t.rows[i].kind.Reg? && t'.rows[i] == t.rows[i].(count := 0))
  }

  lemma CountsKeepForest(t: Table, t': Table)
    requires Forest(t) && SameButCounts(t, t')
    ensures Forest(t')
  {
    forall i | 0 <= i < |t'.rows| ensures ParentBefore(t'.rows, i) {
      assert ParentBefore(t.rows, i);
      if t.rows[i].preCode != -1 {
        var j :| 0 <= j < i && t.rows[j].code == t.rows[i].preCode && t.rows[j].kind.Dir? && t.rows[j].owner == t.rows[i].owner;
        assert t'.rows[j].code == t.rows[j].code;
      }
    }
  }

  lemma SameRow(t: Table, t': Table, r: Row) returns (q: Row)
    requires SameButCounts(t, t') && r in t'.rows
    ensures q in t.rows && r == q.(count := r.count) && (r.kind.Dir? ==> r == q)
  {
    var i := RowIndex(t'.rows, r);
    q := t.rows[i];
  }

  lemma CountsKeepFirsts(t: Table, t': Table)
    requires FirstsOnly(t) && SameButCounts(t, t')
    ensures FirstsOnly(t')
  {
    forall r, p, q | HeldBy(r, p) && SameDir(p, q) && r in t'.rows && p in t'.rows && q in t'.rows
      ensures p.code <= q.code
    {
      var r0 := SameRow(t, t', r);
      var p0 := SameRow(t, t', p);
      var q0 := SameRow(t, t', q);
      assert HeldBy(r0, p0) && SameDir(p0, q0);
    }
  }

  lemma CountsKeepTable(t: Table, t': Table)
    requires TableOk(t) && SameButCounts(t, t')
    ensures TableOk(t')
  {
    CountsKeepForest(t, t');
    CountsKeepFirsts(t, t');
    forall r | r in t'.rows
      ensures if r.kind.Dir? then r.md5 == "0" && r.count == 1 && NameOk(r.name) else |r.md5| == 32
    {
      var q := SameRow(t, t', r);
    }
    forall a, b | a in t'.rows && b in t'.rows && a.kind.Reg? && b.kind.Reg? && a.md5 == b.md5
      ensures a.info == b.info
    {
      var a0 := SameRow(t, t', a);
      var b0 := SameRow(t, t', b);
    }
  }

  /** `rm` changes nothing but counts of files, and no session's position. */
  lemma RmKeeps(t: Table, s: Session, name: string)
    requires TableOk(t)
    ensures var t' := Rm(t, s, name).0;
      TableOk(t') && SameButCounts(t, t') && forall other :: SessionOk(t, other) ==> SessionOk(t', other)
  {
    var t' := Rm(t, s, name).0;
    CountsKeepTable(t, t');
    forall other | SessionOk(t, other) ensures SessionOk(t', other) {
      RmKeepsWalk(t, s, name, other.uid, Components(other.path));
      forall r | r in t'.rows ensures exists q :: q in t.rows && q.code == r.code && q.preCode == r.preCode {
        var q := SameRow(t, t', r);
      }
    }
  }

  /** A file that its owner sees: not removed. */
  ghost predicate Listed(t: Table, uid: int, preCode: int, name: string) {
    exists i :: 0 <= i < |t.rows| && ListedAt(t.rows[i], uid, preCode, name)
  }

  ghost predicate ListedAt(r: Row, uid: int, preCode: int, name: string) {
    r.kind.Reg? && r.count == 1 && r.owner == uid && r.preCode == preCode && r.name == name
  }

  /** `rm` succeeds exactly on a file that is listed, and hides that one and no other. */
  lemma RmHides(t: Table, s: Session, name: string, uid: int, preCode: int, other: string)
    ensures var (t', rc) := Rm(t, s, name);
      && (rc == 0 <==> Listed(t, s.uid, ParentCode(s.code), name))
      && (rc == -1 <==> !Listed(t, s.uid, ParentCode(s.code), name)) && (rc == -1 ==> t' == t)
      && (Listed(t', uid, preCode, other) <==>
            Listed(t, uid, preCode, other) && (uid, preCode, other) != (s.uid, ParentCode(s.code), name))
  {
    var p := IsFile(s, name);
    var (t', rc) := Rm(t, s, name);
    var found := First(t.rows, (r: Row) => p(r) && r.count == 1);
    if found.Some? {
      var i := RowIndex(t.rows, found.value);
      assert ListedAt(t.rows[i], s.uid, ParentCode(s.code), name);
      assert forall k :: 0 <= k < |t.rows| ==> (ListedAt(t'.rows[k], uid, preCode, other) <==>
        ListedAt(t.rows[k], uid, preCode, other) && !p(t.rows[k]));
    } else {
      forall r <- t.rows ensures !ListedAt(r, s.uid, ParentCode(s.code), name) {
        assert !(p(r) && r.count == 1);
      }
    }
  }

  /** An upload lists one more file and hides none, whether or not it had to be transferred. */
  lemma PutsLists(t: Table, s: Session, name: string, md5: string, info: Info, uid: int, preCode: int, other: string)
    ensures Listed(Puts(t, s, name, md5, info).0, uid, preCode, other) <==>
      Listed(t, uid, preCode, other) || (uid, preCode, other) == (s.uid, ParentCode(s.code), name)
  {
    var t' := Puts(t, s, name, md5, info).0;
    var last := |t.rows|;
    assert forall k :: 0 <= k < last ==> t'.rows[k] == t.rows[k];
    assert ListedAt(t'.rows[last], s.uid, ParentCode(s.code), name);
    if Listed(t, uid, preCode, other) {
      var k :| 0 <= k < last && ListedAt(t.rows[k], uid, preCode, other);
      assert ListedAt(t'.rows[k], uid, preCode, other);
    }
  }

  // ---------------------------------------------------------------- rmdir

  /** The rows that a successful `rmdir` deletes. */
  ghost predicate Doomed(t: Table, s: Session, name: string, r: Row) {
    r in t.rows && IsSubdir(s, name)(r)
  }

  /** None of the directories about to be deleted holds anything. */
  ghost predicate AllEmpty(t: Table, s: Session, name: string) {
    forall d, r :: Doomed(t, s, name, d) && r in t.rows ==> r.preCode != d.code
  }

  function Pruned(t: Table, s: Session, name: string): Table {
    t.(rows := Keep(t.rows, Others(s, name)))
  }

  lemma {:induction false} KeepSorted(rows: seq<Row>, keep: Row -> bool)
    requires Sorted(rows)
    ensures Sorted(Keep(rows, keep))
  {
    if rows != [] {
      KeepSorted(rows[1..], keep);
      var rest, all := Keep(rows[1..], keep), Keep(rows, keep);
      assert forall i :: 0 <= i < |rest| ==> rest[i] in rows[1..];
      if keep(rows[0]) {
        assert forall i :: 0 < i < |all| ==> all[i] == rest[i - 1];
      } else {
        assert all == rest;
      }
    }
  }

  /** In a pruned table the parents that are left still come first. */
  lemma PrunedParent(t: Table, s: Session, name: string, i: nat)
    requires Forest(t) && AllEmpty(t, s, name) && i < |Pruned(t, s, name).rows|
    ensures ParentBefore(Pruned(t, s, name).rows, i)
  {
    var rows' := Pruned(t, s, name).rows;
    var r := rows'[i];
    assert r in t.rows;
    if r.preCode != -1 {
      var p := ParentExists(t, r);
      assert !Doomed(t, s, name, p);
      var j := RowIndex(rows', p);
      KeepSorted(t.rows, Others(s, name));
      assert j < i;
    }
  }

  /** Deleting the directories of one name keeps the forest exactly if all of them are
      empty.  `rmdir` looks at one of them only. */
  lemma PrunedForestIff(t: Table, s: Session, name: string)
    requires Forest(t)
    ensures Forest(Pruned(t, s, name)) <==> AllEmpty(t, s, name)
  {
    if AllEmpty(t, s, name) {
      KeepSorted(t.rows, Others(s, name));
      forall i | 0 <= i < |Pruned(t, s, name).rows|
        ensures ParentBefore(Pruned(t, s, name).rows, i) && 0 < Pruned(t, s, name).rows[i].code < t.next
      {
        PrunedParent(t, s, name, i);
        var k := RowIndex(t.rows, Pruned(t, s, name).rows[i]);
      }
    } else {
      var d, r :| Doomed(t, s, name, d) && r in t.rows && r.preCode == d.code;
      OrphanBreaks(t, s, name, d, r);
    }
  }

  /** When `rmdir` keeps the forest, with no assumption on names: unless it succeeds while
      another directory of that name holds something. */
  lemma RmdirKeepsForestIff(t: Table, s: Session, name: string)
    requires Forest(t)
    ensures Forest(Rmdir(t, s, name).0) <==> Rmdir(t, s, name).1 != 0 || AllEmpty(t, s, name)
  {
    PrunedForestIff(t, s, name);
  }

  lemma OrphanBreaks(t: Table, s: Session, name: string, d: Row, r: Row)
    requires Forest(t) && Doomed(t, s, name, d) && r in t.rows && r.preCode == d.code
    ensures !Forest(Pruned(t, s, name))
  {
    var t' := Pruned(t, s, name);
    var i := RowIndex(t.rows, d);
    if d.preCode != -1 {
      var _ := ParentExists(t, d);
    }
    assert r in t'.rows;
    if Forest(t') {
      var p := ParentExists(t', r);
      CodeUnique(t, p, d);
    }
  }

  /** The one directory that `rmdir` looks at is the first of its name, and the others hold
      nothing: so all that it deletes is empty. */
  lemma RmdirSeesAll(t: Table, s: Session, name: string)
    requires TableOk(t) && Rmdir(t, s, name).1 == 0
    ensures AllEmpty(t, s, name)
  {
    var p := IsSubdir(s, name);
    var target := First(t.rows, (r: Row) => p(r) && r.count == 1).value;
    forall d, r | Doomed(t, s, name, d) && r in t.rows ensures r.preCode != d.code {
      FirstIsLowest(t.rows, (r: Row) => p(r) && r.count == 1, d);
      assert SameDir(d, target);
      assert !IsUnder(target.code, s.uid)(r);
      if r.preCode == d.code {
        var parent := ParentExists(t, r);
        CodeUnique(t, parent, d);
        assert HeldBy(r, d) && SameDir(d, target);
      }
    }
  }

  /** A session whose directory is not deleted still finds its way, if nothing deleted holds
      anything: the way leads through directories that are not empty. */
  lemma {:induction false} PrunedKeepsWalk(t: Table, s: Session, name: string, uid: int, names: seq<string>)
    requires Forest(t) && AllEmpty(t, s, name) && Walk(t, uid, names).Some?
    requires forall d :: Doomed(t, s, name, d) ==> d.code != Walk(t, uid, names).value
    ensures Walk(Pruned(t, s, name), uid, names) == Walk(t, uid, names)
  {
    if names != [] {
      var front, n := names[..|names| - 1], names[|names| - 1];
      var row := WalkLast(t, uid, names);
      assert !Doomed(t, s, name, row);
      PrunedKeepsWalk(t, s, name, uid, front);
      FirstKept(t.rows, Others(s, name), IsChild(uid, Walk(t, uid, front).value, n));
    }
  }

  /** After a successful `rmdir` another session's position is right exactly if it does not
      stand in a directory that was deleted. */
  lemma RmdirKeepsSessionIff(t: Table, s: Session, name: string, other: Session)
    requires TableOk(t) && SessionOk(t, other) && Rmdir(t, s, name).1 == 0
    ensures SessionOk(Rmdir(t, s, name).0, other) <==>
      forall d :: Doomed(t, s, name, d) ==> d.code != other.code
  {
    RmdirSeesAll(t, s, name);
    if forall d :: Doomed(t, s, name, d) ==> d.code != other.code {
      PrunedKeepsWalk(t, s, name, other.uid, Components(other.path));
    } else {
      var d :| Doomed(t, s, name, d) && d.code == other.code;
      PrunedStrands(t, s, name, other, d);
    }
  }

  lemma PrunedStrands(t: Table, s: Session, name: string, other: Session, d: Row)
    requires Forest(t) && AllEmpty(t, s, name) && Doomed(t, s, name, d) && d.code == other.code
    ensures !SessionOk(Pruned(t, s, name), other)
  {
    var t' := Pruned(t, s, name);
    PrunedForestIff(t, s, name);
    var i := RowIndex(t.rows, d);
    if SessionOk(t', other) {
      SessionStands(t', other);
      var k :| 0 <= k < |t'.rows| && t'.rows[k].code == other.code;
      CodeUnique(t, t'.rows[k], d);
    }
  }

  /** `rmdir` keeps the table in order, twins or not, and deletes no file row. */
  lemma RmdirKeeps(t: Table, s: Session, name: string)
    requires TableOk(t)
    ensures var t' := Rmdir(t, s, name).0;
      TableOk(t') && forall r <- t.rows :: r.kind.Reg? ==> r in t'.rows
  {
    if Rmdir(t, s, name).1 == 0 {
      RmdirSeesAll(t, s, name);
      PrunedForestIff(t, s, name);
    }
  }

  /** The three answers of `rmdir`, and what a successful one deletes: the directories of that
      name, all of them empty, and nothing else. */
  lemma RmdirVerdict(t: Table, s: Session, name: string)
    requires TableOk(t)
    ensures var (t', rc) := Rmdir(t, s, name);
      && (rc == 2 <==> forall d <- t.rows :: !IsSubdir(s, name)(d))
      && (rc == 1 <==> exists d, r :: Doomed(t, s, name, d) && r in t.rows && r.preCode == d.code)
      && (rc != 0 ==> t' == t)
      && (rc == 0 ==> t'.next == t.next && forall r :: r in t'.rows <==> r in t.rows && !Doomed(t, s, name, r))
  {
    var p := IsSubdir(s, name);
    var rc := Rmdir(t, s, name).1;
    var target := First(t.rows, (r: Row) => p(r) && r.count == 1);
    if rc == 0 {
      RmdirSeesAll(t, s, name);
    }
    if target.Some? {
      assert Doomed(t, s, name, target.value);
    }
  }

  /** An empty directory is deleted, and only then is the answer 0: there is one of the name, and
      none of them holds anything. */
  lemma RmdirZeroIff(t: Table, s: Session, name: string)
    requires TableOk(t)
    ensures Rmdir(t, s, name).1 == 0 <==> (exists d :: Doomed(t, s, name, d)) && AllEmpty(t, s, name)
    ensures Rmdir(t, s, name).1 in {0, 1, 2}
  {
    RmdirVerdict(t, s, name);
    if d :| Doomed(t, s, name, d) {
      assert IsSubdir(s, name)(d);
    }
    if Rmdir(t, s, name).1 == 0 {
      RmdirSeesAll(t, s, name);
    }
  }

  /** `rmdir` undoes `mkdir`, but for the code that is used up, exactly if the name was new. */
  lemma RmdirUndoesMkdirIff(t: Table, s: Session, name: string)
    requires TableOk(t) && SessionOk(t, s)
    ensures Rmdir(Mkdir(t, s, name), s, name) == (t.(next := t.next + 1), 0) <==>
      forall r <- t.rows :: !IsSubdir(s, name)(r)
  {
    if forall r <- t.rows :: !IsSubdir(s, name)(r) {
      RmdirUndoesMkdir(t, s, name);
    } else {
      var r :| r in t.rows && IsSubdir(s, name)(r);
      assert r !in Pruned(Mkdir(t, s, name), s, name).rows;
    }
  }

  lemma RmdirUndoesMkdir(t: Table, s: Session, name: string)
    requires TableOk(t) && SessionOk(t, s)
    requires forall r <- t.rows :: !IsSubdir(s, name)(r)
    ensures Rmdir(Mkdir(t, s, name), s, name) == (t.(next := t.next + 1), 0)
  {
    var p, row, t' := IsSubdir(s, name), DirRow(s, name).(code := t.next), Mkdir(t, s, name);
    FirstAppend(t.rows, row, (r: Row) => p(r) && r.count == 1);
    assert First(t'.rows, (r: Row) => p(r) && r.count == 1) == Some(row);
    NothingUnderNew(t, s, name);
    KeepEnd(t.rows, row, Others(s, name));
    KeepAll(t.rows, Others(s, name));
    assert Keep(t'.rows, Others(s, name)) == t.rows;
  }

  lemma NothingUnderNew(t: Table, s: Session, name: string)
    requires TableOk(t) && SessionOk(t, s)
    ensures First(Mkdir(t, s, name).rows, IsUnder(t.next, s.uid)).None?
  {
    SessionStands(t, s);
    forall r <- Mkdir(t, s, name).rows ensures !IsUnder(t.next, s.uid)(r) {
      if r in t.rows && r.preCode != -1 {
        var parent := ParentExists(t, r);
      }
    }
  }

  /** After `mkdir` a directory of that name can be entered, and it is the new one exactly if
      the name was new. */
  lemma CdEntersMkdir(t: Table, s: Session, name: string)
    requires TableOk(t) && SessionOk(t, s) && name != ".."
    ensures var (s', ok) := Cd(Mkdir(t, s, name), s, name);
      ok && (s'.code == t.next <==> forall r <- t.rows :: !IsSubdir(s, name)(r))
  {
    var row, p := DirRow(s, name).(code := t.next), IsChild(s.uid, s.code, name);
    SessionStands(t, s);
    forall r <- t.rows ensures p(r) <==> IsSubdir(s, name)(r) {
      if r.preCode != -1 {
        var parent := ParentExists(t, r);
      }
    }
    FirstAppend(t.rows, row, p);
    var first := First(t.rows, p);
    if first.Some? {
      var i := RowIndex(t.rows, first.value);
    }
  }

  // ---------------------------------------------------------------- what would go wrong

  /** Being a forest is not enough for `rmdir`: a table in which a second directory of a name
      holds something, which no run of commands reaches, is orphaned by it. */
  lemma ForestAloneOrphans()
    ensures exists t, s, name ::
      && Forest(t) && SessionOk(t, s) && !FirstsOnly(t)
      && Rmdir(t, s, name).1 == 0 && !Forest(Rmdir(t, s, name).0)
  {
    var s := Login(1);
    var a := Row(1, -1, "d", Dir, 1, "0", 1, NO_INFO);
    var b := a.(code := 2);
    var c := Row(3, 2, "e", Dir, 1, "0", 1, NO_INFO);
    var t := Table([a, b, c], 4);
    LoginOk(t, 1);
    assert ParentBefore(t.rows, 0) && ParentBefore(t.rows, 1) && t.rows[1].code == 2 && ParentBefore(t.rows, 2);
    var p := IsSubdir(s, "d");
    assert First(t.rows, (r: Row) => p(r) && r.count == 1) == Some(a);
    assert t.rows[1..][1..][1..] == [];
    assert First(t.rows, IsUnder(1, 1)).None?;
    assert Doomed(t, s, "d", b) && c in t.rows && a in t.rows;
    OrphanBreaks(t, s, "d", b, c);
    assert HeldBy(c, b) && SameDir(b, a);
    assert !LeadsTwins(t, b);
    assert Rmdir(t, s, "d") == (Pruned(t, s, "d"), 0);
  }

  /** Inserting for a session keeps the forest exactly if the directory in which it believes
      to stand is there. */
  lemma InsertForestIff(t: Table, s: Session, row: Row)
    requires Forest(t) && s.code >= 0 && row.preCode == ParentCode(s.code) && row.owner == s.uid
    ensures Forest(Insert(t, row)) <==> Stands(t, s)
  {
    var t' := Insert(t, row);
    if Stands(t, s) {
      InsertKeepsForest(t, s, row);
    } else {
      assert !ParentBefore(t'.rows, |t.rows|);
    }
  }

  lemma PrunedStandsIff(t: Table, s: Session, name: string, other: Session)
    requires Forest(t) && Stands(t, other) && other.code >= 0
    ensures Stands(Pruned(t, s, name), other) <==> forall d :: Doomed(t, s, name, d) ==> d.code != other.code
  {
    var rows' := Pruned(t, s, name).rows;
    if other.code != 0 {
      var i :| 0 <= i < |t.rows| && t.rows[i].code == other.code && t.rows[i].kind.Dir? && t.rows[i].owner == other.uid;
      var row := t.rows[i];
      forall r | r in t.rows && r.code == other.code ensures r == row {
        CodeUnique(t, r, row);
      }
      if row in rows' {
        var k := RowIndex(rows', row);
      }
    } else {
      forall d | Doomed(t, s, name, d) ensures d.code != 0 {
        var i := RowIndex(t.rows, d);
      }
    }
  }

  /** After a successful `rmdir`, what another session makes or uploads next is an orphan
      exactly if the session stood in a directory that was deleted. */
  lemma StrandedInsertIff(t: Table, s: Session, name: string, other: Session, row: Row)
    requires TableOk(t) && SessionOk(t, other) && Rmdir(t, s, name).1 == 0
    requires row.preCode == ParentCode(other.code) && row.owner == other.uid
    ensures Forest(Insert(Rmdir(t, s, name).0, row)) <==>
      forall d :: Doomed(t, s, name, d) ==> d.code != other.code
  {
    RmdirSeesAll(t, s, name);
    PrunedForestIff(t, s, name);
    SessionStands(t, other);
    PrunedStandsIff(t, s, name, other);
    InsertForestIff(Pruned(t, s, name), other, row);
  }

  /** From any table and for any new name: one session makes a directory, a second one that
      stands at the same place enters it, the first removes it, and the next directory of the
      second is an orphan. */
  lemma StrandedMkdirOrphans(t: Table, s: Session, name: string, other: Session, name': string)
    requires TableOk(t) && SessionOk(t, s) && SessionOk(t, other) && NameOk(name) && name != ".."
    requires other.uid == s.uid && other.code == s.code && forall r <- t.rows :: !IsSubdir(s, name)(r)
    ensures var t1 := Mkdir(t, s, name);
      var (inside, ok) := Cd(t1, other, name);
      var (t2, rc) := Rmdir(t1, s, name);
      ok && rc == 0 && !SessionOk(t2, inside) && !Forest(Mkdir(t2, inside, name'))
  {
    var t1 := Mkdir(t, s, name);
    var inside := Cd(t1, other, name).0;
    MkdirKeeps(t, s, name);
    InsertKeepsSession(t, DirRow(s, name), other);
    CdKeeps(t1, other, name);
    assert Mkdir(t, other, name) == t1;
    assert forall r: Row :: IsSubdir(other, name)(r) <==> IsSubdir(s, name)(r);
    CdEntersMkdir(t, other, name);
    RmdirUndoesMkdir(t, s, name);
    var d := DirRow(s, name).(code := t.next);
    assert t1.rows[|t.rows|] == d && Doomed(t1, s, name, d);
    RmdirKeepsSessionIff(t1, s, name, inside);
    StrandedInsertIff(t1, s, name, inside, DirRow(inside, name'));
  }
}
