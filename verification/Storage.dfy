/** The table of the route server and the repositories of the file servers together: what a
    row promises about the stored file, over every run of commands and uploads. */
module Storage {
  import opened Bytes
  import opened Channels
  import opened Clients
  import opened Files
  import opened TransFile
  import opened FileServer
  import opened NetClient
  import opened Vfs
  import opened VfsUpdates
  import opened VfsRuns
  import RouteServer

  // ---------------------------------------------------------------- md5 sums as file names

  predicate Md5Ok(md5: string) {
    |md5| == 32 && forall i :: 0 <= i < 32 ==> 0 < md5[i] as int < 256
  }

  /** The name under which a file server stores a file. */
  function NameFor(md5: string): (n: Name)
    requires Md5Ok(md5)
  {
    seq(32, i requires 0 <= i < 32 => md5[i] as int as byte)
  }

  lemma NameForInjective(a: string, b: string)
    requires Md5Ok(a) && Md5Ok(b) && NameFor(a) == NameFor(b)
    ensures a == b
  {
    forall i | 0 <= i < 32 ensures a[i] == b[i] {
      assert NameFor(a)[i] == NameFor(b)[i];
    }
  }

  // ---------------------------------------------------------------- the whole disk

  type Repository = map<seq<byte>, seq<byte>>

  /** The repository of each file server, by its address. */
  type Stores = map<string, Repository>

  datatype Disk = Disk(world: World, stores: Stores)

  ghost function StoreOf(stores: Stores, server: string): Repository {
    if server in stores then stores[server] else map[]
  }

  ghost function Put(stores: Stores, server: string, md5: string, content: seq<byte>): Stores
    requires Md5Ok(md5)
  {
    stores[server := StoreOf(stores, server)[NameFor(md5) := content]]
  }

  ghost function InfoOf(content: seq<byte>, server1: string, server2: string): Info {
    Info(|content|, Part1(|content|), Part2(|content|), server1, server2)
  }

  /** The servers that the row names hold all that a download of the content needs, and the row
      gives its size and its parts. */
  ghost predicate Describes(stores: Stores, r: Row, content: seq<byte>) {
    && Md5Ok(r.md5) && |content| < 0x8000_0000
    && r.info == InfoOf(content, r.info.server1, r.info.server2)
    && Available(StoreOf(stores, r.info.server1), StoreOf(stores, r.info.server2), NameFor(r.md5), content)
  }

  /** A row that describes a content gives its size, and the two parts that make it up. */
  lemma DescribedSize(stores: Stores, r: Row, content: seq<byte>)
    requires Describes(stores, r, content)
    ensures r.info.size == |content| && r.info.part1 + r.info.part2 == |content|
    ensures r.info.part2 == 0 <==> |content| < 100 * 1024 * 1024
  {
    SplitAgrees(|content|);
  }

  /** Whichever file row one downloads, there is something to get. */
  ghost predicate DiskOk(d: Disk) {
    WorldOk(d.world) && AllDescribed(d.stores, d.world.table)
  }

  ghost predicate AllDescribed(stores: Stores, t: Table) {
    forall r <- t.rows :: r.kind.Reg? ==> Described(stores, r)
  }

  ghost predicate Described(stores: Stores, r: Row) {
    exists content :: Describes(stores, r, content)
  }

  /** An empty table, with no sessions and whatever the servers hold. */
  ghost function EmptyDisk(next: nat, stores: Stores): (d: Disk)
    requires next > 0
    ensures DiskOk(d)
  {
    Disk(EmptyWorld(next), stores)
  }

  // ---------------------------------------------------------------- steps

  /** A command other than an upload; or an upload of some content, with the servers that it
      would go to and how many bytes of it each of them gets before its connection breaks. */
  datatype Action =
    | Command(e: Event)
    | Upload(client: Fd, name: string, md5: string, content: seq<byte>, server1: string, server2: string,
             arrived1: nat, arrived2: nat)

  /** Nothing breaks. */
  ghost predicate Whole(a: Action)
    requires a.Upload?
  {
    |a.content| <= a.arrived1 && |a.content| <= a.arrived2
  }

  ghost function PutsEvent(a: Action): Event
    requires a.Upload?
  {
    Event(a.client, DoPuts(a.name, a.md5, InfoOf(a.content, a.server1, a.server2)))
  }

  ghost predicate CanAct(d: Disk, a: Action) {
    match a
    case Command(e) => !e.cmd.DoPuts? && HasSessions(d.world, e) && Legal(d.world, e)
    case Upload(client, _, md5, content, _, _, _, _) =>
      client in d.world.sessions && Md5Ok(md5) && |content| < 0x8000_0000
  }

  /** An upload is possible for every client with a session, whatever arrives where; and every
      other command that the runs allow. */
  lemma CanActIff(d: Disk, client: Fd, name: string, md5: string, content: seq<byte>,
                  server1: string, server2: string, arrived1: nat, arrived2: nat, e: Event)
    ensures CanAct(d, Upload(client, name, md5, content, server1, server2, arrived1, arrived2)) <==>
      client in d.world.sessions && Md5Ok(md5) && |content| < 0x8000_0000
    ensures CanAct(d, Command(e)) <==> !e.cmd.DoPuts? && Legal(d.world, e)
  {}

  ghost predicate Known(t: Table, md5: string) {
    First(t.rows, HasMd5(md5)).Some?
  }

  /** What one server makes of an upload of which so much arrives. */
  ghost function SentTo(stores: Stores, server: string, md5: string, content: seq<byte>, arrived: nat): Stores
    requires Md5Ok(md5)
  {
    var n := |content|;
    Put(stores, server, md5,
        Stored(At(StoreOf(stores, server), NameFor(md5)), IsBig(n), n, content[..Min(arrived, n)]))
  }

  /** What the servers hold after an upload that is not quick. */
  ghost function Sent(stores: Stores, a: Action): Stores
    requires a.Upload? && Md5Ok(a.md5)
  {
    var first := SentTo(stores, a.server1, a.md5, a.content, a.arrived1);
    if IsBig(|a.content|) then SentTo(first, a.server2, a.md5, a.content, a.arrived2) else first
  }

  /** The contents are sent to the servers only if the md5 is not known. */
  ghost function Act(d: Disk, a: Action): Disk
    requires CanAct(d, a)
  {
    match a
    case Command(e) => d.(world := Next(d.world, e))
    case Upload(_, _, md5, _, _, _, _, _) =>
      Disk(Next(d.world, PutsEvent(a)), if Known(d.world.table, md5) then d.stores else Sent(d.stores, a))
  }

  /** The file that a download puts together after an upload that is not quick. */
  ghost function Kept(stores: Stores, a: Action): seq<byte>
    requires a.Upload? && Md5Ok(a.md5)
  {
    var name := NameFor(a.md5);
    var first, second := At(StoreOf(Sent(stores, a), a.server1), name), At(StoreOf(Sent(stores, a), a.server2), name);
    if IsBig(|a.content|) then Joined(first, second, Part1(|a.content|)) else first
  }

  /** The first part of one file and the second part of another. */
  ghost function Joined(one: seq<byte>, two: seq<byte>, part1: nat): seq<byte> {
    if part1 <= |one| && part1 <= |two| then one[..part1] + two[part1..] else one
  }

  lemma StoredLength(before: seq<byte>, isBig: bool, n: nat, body: seq<byte>)
    requires |body| <= n
    ensures |Stored(before, isBig, n, body)| == n
  {}

  /** Whatever arrives, what is kept has the announced length and can be downloaded. */
  lemma KeptAvailable(stores: Stores, a: Action)
    requires a.Upload? && Md5Ok(a.md5)
    ensures |Kept(stores, a)| == |a.content|
    ensures Available(StoreOf(Sent(stores, a), a.server1), StoreOf(Sent(stores, a), a.server2), NameFor(a.md5), Kept(stores, a))
  {
    var n, name, stores' := |a.content|, NameFor(a.md5), Sent(stores, a);
    var first := SentTo(stores, a.server1, a.md5, a.content, a.arrived1);
    StoredLength(At(StoreOf(stores, a.server1), name), IsBig(n), n, a.content[..Min(a.arrived1, n)]);
    StoredLength(At(StoreOf(first, a.server2), name), IsBig(n), n, a.content[..Min(a.arrived2, n)]);
    if IsBig(n) {
      JoinedAvailable(StoreOf(stores', a.server1), StoreOf(stores', a.server2), name);
    }
  }

  lemma JoinedAvailable(first: Repository, second: Repository, name: Name)
    requires name in first && name in second && |first[name]| == |second[name]| && IsBig(|first[name]|)
    ensures var kept := Joined(first[name], second[name], Part1(|first[name]|));
      |kept| == |first[name]| && Available(first, second, name, kept)
  {
    SplitAgrees(|first[name]|);
    PartsHeld(first[name], second[name], Part1(|first[name]|));
  }

  lemma PartsHeld(one: seq<byte>, two: seq<byte>, part1: nat)
    requires |one| == |two| && part1 <= |one|
    ensures var both := Joined(one, two, part1);
      && |both| == |one| && one[0..part1] == both[0..part1] && two[part1..|one|] == both[part1..|one|]
      && (one == two ==> both == one)
  {
    assert one == two ==> one[..part1] + one[part1..] == one;
  }

  /** When nothing breaks, what is kept is what was uploaded. */
  lemma WholeKept(stores: Stores, a: Action)
    requires a.Upload? && Md5Ok(a.md5) && Whole(a)
    ensures Kept(stores, a) == a.content
  {
    var n, name := |a.content|, NameFor(a.md5);
    var first := SentTo(stores, a.server1, a.md5, a.content, a.arrived1);
    assert a.content[..n] == a.content;
    WholeStored(At(StoreOf(stores, a.server1), name), IsBig(n), a.content);
    WholeStored(At(StoreOf(first, a.server2), name), IsBig(n), a.content);
    SplitAgrees(n);
    PartsHeld(a.content, a.content, Part1(n));
  }

  /** A small upload that breaks keeps the file exactly if every byte that the server did not
      write was right in what it had under the name before. */
  lemma SmallKeptIff(stores: Stores, a: Action)
    requires a.Upload? && Md5Ok(a.md5) && !IsBig(|a.content|)
    ensures var n, before := |a.content|, At(StoreOf(stores, a.server1), NameFor(a.md5));
      Kept(stores, a) == a.content <==>
        forall i :: Written(Min(a.arrived1, n), n) <= i < n ==> Resized(before, n)[i] == a.content[i]
  {
    CutBodyIff(At(StoreOf(stores, a.server1), NameFor(a.md5)), false, a.content, Min(a.arrived1, |a.content|));
  }

  /** The same for a big upload to two servers: each is asked for its part only. */
  lemma BigKeptIff(stores: Stores, a: Action)
    requires a.Upload? && Md5Ok(a.md5) && IsBig(|a.content|) && a.server1 != a.server2
    ensures var n, part1, name := |a.content|, Part1(|a.content|), NameFor(a.md5);
      var before1, before2 := At(StoreOf(stores, a.server1), name), At(StoreOf(stores, a.server2), name);
      Kept(stores, a) == a.content <==>
        && (forall i :: a.arrived1 <= i < part1 ==> Resized(before1, n)[i] == a.content[i])
        && (forall i :: part1 <= i < n && a.arrived2 <= i ==> Resized(before2, n)[i] == a.content[i])
  {
    var n, part1, name := |a.content|, Part1(|a.content|), NameFor(a.md5);
    var before1, before2 := At(StoreOf(stores, a.server1), name), At(StoreOf(stores, a.server2), name);
    SplitAgrees(n);
    StoredAt(before1, a.content, a.arrived1);
    StoredAt(before2, a.content, a.arrived2);
    var first := SentTo(stores, a.server1, a.md5, a.content, a.arrived1);
    assert At(StoreOf(first, a.server2), name) == before2;
    var one := Stored(before1, true, n, a.content[..Min(a.arrived1, n)]);
    var two := Stored(before2, true, n, a.content[..Min(a.arrived2, n)]);
    StoredLength(before1, true, n, a.content[..Min(a.arrived1, n)]);
    assert Kept(stores, a) == Joined(one, two, part1);
    JoinedIff(one, two, part1, a.content, Resized(before1, n), Resized(before2, n), a.arrived1, a.arrived2);
  }

  lemma JoinedIff(one: seq<byte>, two: seq<byte>, part1: nat, content: seq<byte>,
                  before1: seq<byte>, before2: seq<byte>, arrived1: nat, arrived2: nat)
    requires part1 <= |content| == |one| == |two| == |before1| == |before2|
    requires forall i :: 0 <= i < |one| ==> one[i] == if i < arrived1 then content[i] else before1[i]
    requires forall i :: 0 <= i < |two| ==> two[i] == if i < arrived2 then content[i] else before2[i]
    ensures one[..part1] + two[part1..] == content <==>
      && (forall i :: arrived1 <= i < part1 ==> before1[i] == content[i])
      && (forall i :: part1 <= i < |content| && arrived2 <= i ==> before2[i] == content[i])
  {
    var both := one[..part1] + two[part1..];
    assert |both| == |content|;
    forall i | 0 <= i < |content| ensures both[i] == if i < part1 then one[i] else two[i] {}
    if both == content {
      forall i | arrived1 <= i < part1 ensures before1[i] == content[i] {
        assert both[i] == one[i];
      }
      forall i | part1 <= i < |content| && arrived2 <= i ensures before2[i] == content[i] {
        assert both[i] == two[i];
      }
    }
  }

  lemma StoredAt(before: seq<byte>, content: seq<byte>, arrived: nat)
    ensures var n := |content|; var r := Stored(before, true, n, content[..Min(arrived, n)]);
      && |r| == n
      && forall i :: 0 <= i < n ==> r[i] == if i < arrived then content[i] else Resized(before, n)[i]
  {}

  // ---------------------------------------------------------------- what commands keep

  /** Every file row is an earlier one, up to its count. */
  ghost predicate RowsFrom(t: Table, t': Table) {
    forall r <- t'.rows :: r.kind.Reg? ==> exists q :: q in t.rows && r == q.(count := r.count)
  }

  lemma SelfRow(r: Row)
    ensures r == r.(count := r.count)
  {}

  lemma CommandRows(w: World, e: Event)
    requires WorldOk(w) && Legal(w, e) && !e.cmd.DoPuts?
    ensures RowsFrom(w.table, Next(w, e).table)
  {
    var t, t' := w.table, Next(w, e).table;
    forall r | r in t'.rows && r.kind.Reg? ensures exists q :: q in t.rows && r == q.(count := r.count) {
      SelfRow(r);
      if e.cmd.DoRm? {
        RmKeeps(t, w.sessions[e.client], e.cmd.name);
        var q := SameRow(t, t', r);
      } else {
        assert r in t.rows;
      }
    }
  }

  lemma RowsDescribed(stores: Stores, t: Table, t': Table)
    requires AllDescribed(stores, t) && RowsFrom(t, t')
    ensures AllDescribed(stores, t')
  {
    forall r <- t'.rows | r.kind.Reg? ensures Described(stores, r) {
      var q :| q in t.rows && r == q.(count := r.count);
      assert Described(stores, q);
      var content :| Describes(stores, q, content);
      assert Describes(stores, r, content);
    }
  }

  lemma CommandKeeps(d: Disk, e: Event)
    requires DiskOk(d) && CanAct(d, Command(e))
    ensures DiskOk(Act(d, Command(e)))
  {
    NextOk(d.world, e);
    CommandRows(d.world, e);
    RowsDescribed(d.stores, d.world.table, Next(d.world, e).table);
  }

  // ---------------------------------------------------------------- what uploads keep

  /** The repositories agree under a name. */
  ghost predicate SameUnder(a: Repository, b: Repository, name: Name) {
    (name in a <==> name in b) && (name in a ==> a[name] == b[name])
  }

  /** Sending one md5 touches no other. */
  lemma SentElsewhere(stores: Stores, a: Action, md5: string)
    requires a.Upload? && Md5Ok(a.md5) && Md5Ok(md5) && a.md5 != md5
    ensures forall server :: SameUnder(StoreOf(stores, server), StoreOf(Sent(stores, a), server), NameFor(md5))
  {
    if NameFor(a.md5) == NameFor(md5) {
      NameForInjective(a.md5, md5);
    }
  }

  /** An upload disturbs no content that an earlier row describes. */
  lemma UploadKeepsRow(d: Disk, a: Action, r: Row, content: seq<byte>)
    requires CanAct(d, a) && a.Upload? && r in d.world.table.rows && r.kind.Reg? && Describes(d.stores, r, content)
    ensures Describes(Act(d, a).stores, r, content)
  {
    if !Known(d.world.table, a.md5) {
      assert !HasMd5(a.md5)(r);
      SentElsewhere(d.stores, a, r.md5);
      var stores' := Sent(d.stores, a);
      assert SameUnder(StoreOf(d.stores, r.info.server1), StoreOf(stores', r.info.server1), NameFor(r.md5));
      assert SameUnder(StoreOf(d.stores, r.info.server2), StoreOf(stores', r.info.server2), NameFor(r.md5));
    }
  }

  /** The row that an upload adds. */
  ghost function NewRow(d: Disk, a: Action): Row
    requires CanAct(d, a) && a.Upload?
  {
    var s, known := d.world.sessions[a.client], First(d.world.table.rows, HasMd5(a.md5));
    FileRow(s, a.name, a.md5, if known.Some? then known.value.info else InfoOf(a.content, a.server1, a.server2))
      .(code := d.world.table.next)
  }

  lemma UploadRows(d: Disk, a: Action)
    requires CanAct(d, a) && a.Upload?
    ensures Act(d, a).world.table.rows == d.world.table.rows + [NewRow(d, a)]
    ensures Act(d, a).world.sessions == d.world.sessions
    ensures Act(d, a).world.table ==
      Puts(d.world.table, d.world.sessions[a.client], a.name, a.md5, InfoOf(a.content, a.server1, a.server2)).0
  {}

  /** Uploaded anew, the new row describes what is kept; quickly, it describes what the known
      row describes. */
  lemma NewRowDescribes(d: Disk, a: Action, content: seq<byte>)
    requires CanAct(d, a) && a.Upload?
    requires var known := First(d.world.table.rows, HasMd5(a.md5));
      if known.Some? then Describes(d.stores, known.value, content) else content == Kept(d.stores, a)
    ensures Describes(Act(d, a).stores, NewRow(d, a), content)
  {
    if !Known(d.world.table, a.md5) {
      KeptAvailable(d.stores, a);
    }
  }

  lemma KnownIsFile(d: Disk, md5: string)
    requires WorldOk(d.world) && |md5| == 32 && Known(d.world.table, md5)
    ensures var r := First(d.world.table.rows, HasMd5(md5)).value;
      r in d.world.table.rows && r.kind.Reg? && r.md5 == md5
  {}

  lemma UploadKeeps(d: Disk, a: Action)
    requires DiskOk(d) && CanAct(d, a) && a.Upload?
    ensures DiskOk(Act(d, a))
  {
    var d' := Act(d, a);
    NextOk(d.world, PutsEvent(a));
    UploadRows(d, a);
    forall r <- d'.world.table.rows | r.kind.Reg? ensures Described(d'.stores, r) {
      if r in d.world.table.rows {
        assert Described(d.stores, r);
        var content :| Describes(d.stores, r, content);
        UploadKeepsRow(d, a, r, content);
      } else {
        var content := Kept(d.stores, a);
        if Known(d.world.table, a.md5) {
          KnownIsFile(d, a.md5);
          assert Described(d.stores, First(d.world.table.rows, HasMd5(a.md5)).value);
          content :| Describes(d.stores, First(d.world.table.rows, HasMd5(a.md5)).value, content);
        }
        NewRowDescribes(d, a, content);
      }
    }
  }

  lemma ActKeeps(d: Disk, a: Action)
    requires DiskOk(d) && CanAct(d, a)
    ensures DiskOk(Act(d, a)) && FilesStay(d.world.table, Act(d, a).world.table)
  {
    match a
    case Command(e) => CommandKeeps(d, e); NextOk(d.world, e);
    case Upload(_, _, _, _, _, _, _, _) => UploadKeeps(d, a); NextOk(d.world, PutsEvent(a));
  }

  // ---------------------------------------------------------------- runs

  ghost predicate IsHistory(d: Disk, actions: seq<Action>)
    decreases |actions|
  {
    actions == [] || (CanAct(d, actions[0]) && IsHistory(Act(d, actions[0]), actions[1..]))
  }

  ghost function Finally(d: Disk, actions: seq<Action>): Disk
    requires IsHistory(d, actions)
    decreases |actions|
  {
    if actions == [] then d else Finally(Act(d, actions[0]), actions[1..])
  }

  /** The row, as it is in a later table. */
  lemma LaterRow(t: Table, t': Table, stores: Stores, r: Row, content: seq<byte>) returns (q: Row)
    requires FilesStay(t, t') && r in t.rows && r.kind.Reg? && Describes(stores, r, content)
    ensures q in t'.rows && q == r.(count := q.count) && Describes(stores, q, content)
  {
    q :| q in t'.rows && q == r.(count := q.count);
    CountIrrelevant(stores, r, q, content);
  }

  lemma StillDescribed(d: Disk, a: Action, r: Row, content: seq<byte>)
    requires CanAct(d, a)
    requires r in d.world.table.rows && r.kind.Reg? && Describes(d.stores, r, content)
    ensures Describes(Act(d, a).stores, r, content)
  {
    if a.Upload? {
      UploadKeepsRow(d, a, r, content);
    }
  }

  lemma CountIrrelevant(stores: Stores, r: Row, q: Row, content: seq<byte>)
    requires q == r.(count := q.count) && Describes(stores, r, content)
    ensures Describes(stores, q, content)
  {}

  /** Over every run: every file row describes something that its servers hold; and what a row
      once describes stays there, whatever is removed or uploaded. */
  lemma {:induction false} ContentStays(d: Disk, actions: seq<Action>, r: Row, content: seq<byte>)
    requires DiskOk(d) && IsHistory(d, actions)
    requires r in d.world.table.rows && r.kind.Reg? && Describes(d.stores, r, content)
    ensures DiskOk(Finally(d, actions)) && FilesStay(d.world.table, Finally(d, actions).world.table)
    ensures Describes(Finally(d, actions).stores, r, content)
    decreases |actions|
  {
    if actions != [] {
      var d1 := Act(d, actions[0]);
      ActKeeps(d, actions[0]);
      StillDescribed(d, actions[0], r, content);
      var q := LaterRow(d.world.table, d1.world.table, d1.stores, r, content);
      ContentStays(d1, actions[1..], q, content);
      FilesStayTransitive(d.world.table, d1.world.table, Finally(d, actions).world.table);
    } else {
      assert forall q: Row :: q == q.(count := q.count);
    }
  }

  /** The upload sends nothing, its row describes the content, and it is the row that a
      download by the same client finds. */
  ghost predicate Shares(d: Disk, a: Action, content: seq<byte>)
    requires CanAct(d, a) && a.Upload?
  {
    var d' := Act(d, a);
    && d'.stores == d.stores
    && Describes(d'.stores, NewRow(d, a), content)
    && a.client in d'.world.sessions
    && Gets(d'.world.table, d'.world.sessions[a.client], a.name) == Some(NewRow(d, a))
  }

  lemma KnownShares(d: Disk, a: Action, content: seq<byte>)
    requires CanAct(d, a) && a.Upload? && KnownAs(d, a.md5, content)
    ensures Shares(d, a, content)
  {
    NewRowDescribes(d, a, content);
    UploadRows(d, a);
    PutsThenGets(d.world.table, d.world.sessions[a.client], a.name, a.md5, InfoOf(a.content, a.server1, a.server2));
  }

  /** The first upload of an md5 decides, also if it broke off: after any run, a second upload
      of the md5 by anyone sends nothing, its row describes what was kept of the first, and a
      download of it is made from that row. */
  lemma SecondUploadShares(d: Disk, first: Action, actions: seq<Action>, second: Action)
    requires DiskOk(d) && first.Upload? && CanAct(d, first) && !Known(d.world.table, first.md5)
    requires IsHistory(Act(d, first), actions)
    requires second.Upload? && second.md5 == first.md5 && CanAct(Finally(Act(d, first), actions), second)
    ensures Shares(Finally(Act(d, first), actions), second, Kept(d.stores, first))
    ensures Whole(first) ==> Kept(d.stores, first) == first.content
  {
    FirstKnown(d, first, actions);
    KnownShares(Finally(Act(d, first), actions), second, Kept(d.stores, first));
    if Whole(first) {
      WholeKept(d.stores, first);
    }
  }

  /** After any run since the first upload its md5 is known as what was kept of it. */
  lemma FirstKnown(d: Disk, first: Action, actions: seq<Action>)
    requires DiskOk(d) && first.Upload? && CanAct(d, first) && !Known(d.world.table, first.md5)
    requires IsHistory(Act(d, first), actions)
    ensures KnownAs(Finally(Act(d, first), actions), first.md5, Kept(d.stores, first))
  {
    NewlyDescribed(d, first);
    ContentKnown(Act(d, first), actions, NewRow(d, first), Kept(d.stores, first));
  }

  lemma ContentKnown(d: Disk, actions: seq<Action>, r: Row, content: seq<byte>)
    requires DiskOk(d) && IsHistory(d, actions)
    requires r in d.world.table.rows && r.kind.Reg? && Describes(d.stores, r, content)
    ensures KnownAs(Finally(d, actions), r.md5, content)
  {
    ContentStays(d, actions, r, content);
    KnownDescribes(d.world.table, Finally(d, actions), r, content);
  }

  /** The md5 is known, and the row that a quick upload copies describes the content. */
  ghost predicate KnownAs(d: Disk, md5: string, content: seq<byte>) {
    && Known(d.world.table, md5)
    && Describes(d.stores, First(d.world.table.rows, HasMd5(md5)).value, content)
  }

  /** The row of a new upload describes what was kept. */
  lemma NewlyDescribed(d: Disk, first: Action)
    requires DiskOk(d) && first.Upload? && CanAct(d, first) && !Known(d.world.table, first.md5)
    ensures var d1, r := Act(d, first), NewRow(d, first);
      && DiskOk(d1) && r in d1.world.table.rows && r.kind.Reg? && r.md5 == first.md5
      && Describes(d1.stores, r, Kept(d.stores, first))
  {
    UploadKeeps(d, first);
    UploadRows(d, first);
    NewRowDescribes(d, first, Kept(d.stores, first));
    assert Act(d, first).world.table.rows[|d.world.table.rows|] == NewRow(d, first);
  }

  /** The known row of an md5 describes what any row of it does. */
  lemma KnownDescribes(t: Table, d: Disk, r: Row, content: seq<byte>)
    requires Deduplicated(d.world.table) && r in t.rows && r.kind.Reg?
    requires FilesStay(t, d.world.table) && Describes(d.stores, r, content)
    ensures KnownAs(d, r.md5, content)
  {
    var q :| q in d.world.table.rows && q == r.(count := q.count);
    assert HasMd5(r.md5)(q);
    var known := First(d.world.table.rows, HasMd5(r.md5)).value;
    assert known.kind.Reg? && known.info == q.info;
  }

  /** An input: a new file of one byte of which only the announcement arrives.  Everyone who
      uploads or downloads its md5 from then on gets a zero. */
  lemma BrokenUploadShared(d: Disk, first: Action, actions: seq<Action>, second: Action)
    requires DiskOk(d) && first.Upload? && CanAct(d, first) && !Known(d.world.table, first.md5)
    requires first.content == [1] && first.arrived1 == 0
    requires NameFor(first.md5) !in StoreOf(d.stores, first.server1)
    requires IsHistory(Act(d, first), actions)
    requires second.Upload? && second.md5 == first.md5 && CanAct(Finally(Act(d, first), actions), second)
    ensures Shares(Finally(Act(d, first), actions), second, [0])
  {
    SecondUploadShares(d, first, actions, second);
    ZeroKept(d.stores, first);
  }

  lemma ZeroKept(stores: Stores, a: Action)
    requires a.Upload? && Md5Ok(a.md5) && a.content == [1] && a.arrived1 == 0
    requires NameFor(a.md5) !in StoreOf(stores, a.server1)
    ensures Kept(stores, a) == [0]
  {
    OneByteLost();
    assert a.content[..Min(0, 1)] == [];
  }

  // ---------------------------------------------------------------- file servers by address

  /** The file servers that the addresses stand for. */
  type Network = map<string, FileServer>

  /** Different addresses are different servers, and each has the repository that the run says. */
  ghost predicate Mirrors(net: Network, stores: Stores)
    reads net.Values
  {
    && (forall a, b :: a in net && b in net && a != b ==> net[a] != net[b])
    && (forall a <- net :: net[a].repository == StoreOf(stores, a))
  }

  /** What a row describes is what a client gets from the servers that the row names, however
      often it is interrupted. */
  method DownloadRow(net: Network, r: Row, kills: seq<Kill>, ghost stores: Stores, ghost content: seq<byte>)
    returns (result: File)
    requires Mirrors(net, stores) && Describes(stores, r, content)
    requires r.info.server1 in net && r.info.server2 in net
    modifies net.Values
    ensures result.content == content && Mirrors(net, stores)
  {
    var s1, s2 := net[r.info.server1], net[r.info.server2];
    result := DoGets(s1, s2, NameFor(r.md5), r.info.part1, r.info.part2, kills, content);
  }

  /** A new upload, carried out on the servers it names, leaves every server as the run says. */
  method UploadContent(net: Network, cur: File, ghost d: Disk, a: Action)
    requires CanAct(d, a) && a.Upload? && !Known(d.world.table, a.md5)
    requires Mirrors(net, d.stores) && a.server1 in net && a.server2 in net
    requires cur.pos == 0 && cur.content == a.content
    modifies net.Values, cur`pos
    ensures Mirrors(net, Act(d, a).stores)
  {
    SendTo(net, cur, a.server1, a.md5, a.arrived1, d.stores);
    if |cur.content| >= 104857600 {
      ghost var first := SentTo(d.stores, a.server1, a.md5, a.content, a.arrived1);
      SendTo(net, cur, a.server2, a.md5, a.arrived2, first);
    }
  }

  method SendTo(net: Network, cur: File, server: string, md5: string, arrived: nat, ghost stores: Stores)
    requires Mirrors(net, stores) && server in net && Md5Ok(md5)
    requires cur.pos == 0 && |cur.content| < 0x8000_0000
    modifies net.Values, cur`pos
    ensures Mirrors(net, SentTo(stores, server, md5, cur.content, arrived))
    ensures IsBig(|cur.content|) ==> cur.pos == 0
  {
    PutCut(net[server], cur, NameFor(md5), |cur.content| >= 104857600, arrived);
  }

  /** What two uploads of one md5 leave in a table that did not know it. */
  lemma TwoPuts(t: Table, a: Session, nameA: string, infoA: Info, b: Session, nameB: string, infoB: Info, md5: string)
    requires !Known(t, md5)
    ensures var (t1, quick1) := Puts(t, a, nameA, md5, infoA); var (t2, quick2) := Puts(t1, b, nameB, md5, infoB);
      && !quick1 && quick2
      && var row := Gets(t2, b, nameB); row.Some? && row.value.md5 == md5 && row.value.info == infoA
  {
    var t1 := Puts(t, a, nameA, md5, infoA).0;
    FirstAppend(t.rows, FileRow(a, nameA, md5, infoA).(code := t.next), HasMd5(md5));
    PutsThenGets(t1, b, nameB, md5, infoB);
  }

  /** One client uploads a file of an unknown md5 to the servers it is given; a second one
      announces the same md5, whatever it says of the file, and downloads from the servers that
      the table names: it gets the file of the first. */
  method ShareFile(db: RouteServer.Database, net: Network, alice: Client, nameA: string, cur: File, md5: string,
                   server1: string, server2: string, bob: Client, nameB: string, given: Info, kills: seq<Kill>)
    returns (quickA: bool, quickB: bool, result: File)
    requires cur.pos == 0 && |cur.content| < 0x8000_0000 && Md5Ok(md5) && !Known(db.State(), md5)
    requires server1 in net && server2 in net
    modifies db, net.Values, cur`pos
    ensures !quickA && quickB && result.content == cur.content
  {
    var size := |cur.content|;
    var infoA := Info(size, Part1(size), Part2(size), server1, server2);
    TwoPuts(db.State(), RouteServer.SessionOf(alice), nameA, infoA, RouteServer.SessionOf(bob), nameB, given, md5);
    quickA := RouteServer.DoPuts(alice, db, nameA, md5, infoA);
    var part1, part2 := NetClient.DoPuts(cur, NameFor(md5), net[server1], net[server2]);
    quickB := RouteServer.DoPuts(bob, db, nameB, md5, given);
    var found, md5sum, info := RouteServer.SqlDoGets(bob, db, nameB);
    SplitAgrees(size);
    result := DoGets(net[info.server1], net[info.server2], NameFor(md5sum), info.part1, info.part2, kills, cur.content);
  }
}
