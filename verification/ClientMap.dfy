/** The chained hash map from a descriptor to its client and its slot in the timing wheel. */
module ClientMap {
  import opened Clients
  import opened Chains
  import MurmurHash

  datatype Entry = Entry(client: Client, index: int)

  type Buckets = seq<seq<Entry>>

  // ---------------------------------------------------------------- buckets as values

  /** Descriptor to bucket number, for `n` buckets and a given hash. */
  function BucketOf(hash: Fd -> nat, n: nat, fd: Fd): (b: nat)
    requires n > 0
    ensures b < n
  {
    hash(fd) % n
  }

  ghost predicate Fits(e: Entry, m: map<Fd, Entry>, hash: Fd -> nat, n: nat, b: nat)
    requires n > 0
  {
    BucketOf(hash, n, e.client.fd) == b && e.client.fd in m && m[e.client.fd] == e
  }

  /** Every item of bucket b hashes to b and is the map's entry, and none occurs twice. */
  ghost predicate BucketFits(items: seq<Entry>, m: map<Fd, Entry>, hash: Fd -> nat, n: nat, b: nat)
    requires n > 0
  {
    && (forall i :: 0 <= i < |items| ==> Fits(items[i], m, hash, n, b))
    && (forall i, j :: 0 <= i < j < |items| ==> items[i].client.fd != items[j].client.fd)
  }

  ghost predicate Holds(items: seq<Entry>, fd: Fd) {
    exists i :: 0 <= i < |items| && items[i].client.fd == fd
  }

  /** The buckets hold exactly the entries of the finite map m. */
  ghost predicate Represents(buckets: Buckets, m: map<Fd, Entry>, hash: Fd -> nat)
    requires |buckets| > 0
  {
    && (forall b :: 0 <= b < |buckets| ==> BucketFits(buckets[b], m, hash, |buckets|, b))
    && (forall fd <- m :: Holds(buckets[BucketOf(hash, |buckets|, fd)], fd))
  }

  lemma BucketFitsElsewhere(items: seq<Entry>, m: map<Fd, Entry>, m': map<Fd, Entry>,
                            hash: Fd -> nat, n: nat, b: nat, fd: Fd)
    requires n > 0 && BucketFits(items, m, hash, n, b) && BucketOf(hash, n, fd) != b
    requires m - {fd} == m' - {fd}
    ensures BucketFits(items, m', hash, n, b)
  {
    forall i | 0 <= i < |items| ensures Fits(items[i], m', hash, n, b) {
      var f := items[i].client.fd;
      assert Fits(items[i], m, hash, n, b);
      assert f in m - {fd} && (m - {fd})[f] == (m' - {fd})[f];
    }
  }

  /** A change to one bucket and to the entry of one descriptor of that bucket keeps the
      buckets and the map in step, if the changed bucket is in step. */
  lemma RepresentsUpdated(buckets: Buckets, m: map<Fd, Entry>, hash: Fd -> nat,
                          fd: Fd, items: seq<Entry>, m': map<Fd, Entry>)
    requires |buckets| > 0 && Represents(buckets, m, hash)
    requires m - {fd} == m' - {fd}
    requires BucketFits(items, m', hash, |buckets|, BucketOf(hash, |buckets|, fd))
    requires forall f :: f != fd && Holds(buckets[BucketOf(hash, |buckets|, fd)], f) ==> Holds(items, f)
    requires fd in m' ==> Holds(items, fd)
    ensures Represents(buckets[BucketOf(hash, |buckets|, fd) := items], m', hash)
  {
    var pos := BucketOf(hash, |buckets|, fd);
    var buckets' := buckets[pos := items];
    forall b | 0 <= b < |buckets'| ensures BucketFits(buckets'[b], m', hash, |buckets'|, b) {
      if b != pos {
        BucketFitsElsewhere(buckets[b], m, m', hash, |buckets|, b, fd);
      }
    }
    forall f <- m' ensures Holds(buckets'[BucketOf(hash, |buckets'|, f)], f) {
      if f != fd {
        assert f in m' - {fd};
        assert f in m;
      }
    }
  }

  lemma RepresentsHolds(buckets: Buckets, m: map<Fd, Entry>, hash: Fd -> nat, fd: Fd)
    requires |buckets| > 0 && Represents(buckets, m, hash)
    ensures var items := buckets[BucketOf(hash, |buckets|, fd)];
      && (fd in m <==> Holds(items, fd))
      && (forall i :: 0 <= i < |items| && items[i].client.fd == fd ==> fd in m && items[i] == m[fd])
  {
    var b := BucketOf(hash, |buckets|, fd);
    assert BucketFits(buckets[b], m, hash, |buckets|, b);
    assert forall i :: 0 <= i < |buckets[b]| ==> Fits(buckets[b][i], m, hash, |buckets|, b);
  }

  lemma RepresentsInserted(buckets: Buckets, m: map<Fd, Entry>, hash: Fd -> nat, e: Entry)
    requires |buckets| > 0 && Represents(buckets, m, hash)
    requires e.client.fd !in m
    ensures var pos := BucketOf(hash, |buckets|, e.client.fd);
      Represents(buckets[pos := [e] + buckets[pos]], m[e.client.fd := e], hash)
  {
    var n, fd, m' := |buckets|, e.client.fd, m[e.client.fd := e];
    var pos := BucketOf(hash, n, fd);
    var items, all := buckets[pos], [e] + buckets[pos];
    forall k | 0 <= k < |all| ensures Fits(all[k], m', hash, n, pos) {
      assert k > 0 ==> Fits(items[k - 1], m, hash, n, pos);
    }
    forall j, k | 0 <= j < k < |all| ensures all[j].client.fd != all[k].client.fd {
      assert Fits(items[k - 1], m, hash, n, pos);
    }
    forall f | Holds(items, f) ensures Holds(all, f) {
      var k :| 0 <= k < |items| && items[k].client.fd == f;
      assert all[k + 1] == items[k];
    }
    assert all[0] == e;
    RepresentsUpdated(buckets, m, hash, fd, all, m');
  }

  lemma RepresentsReplaced(buckets: Buckets, m: map<Fd, Entry>, hash: Fd -> nat, i: nat, e: Entry)
    requires |buckets| > 0 && Represents(buckets, m, hash)
    requires var items := buckets[BucketOf(hash, |buckets|, e.client.fd)];
      i < |items| && items[i].client.fd == e.client.fd
    ensures var pos := BucketOf(hash, |buckets|, e.client.fd);
      Represents(buckets[pos := buckets[pos][i := e]], m[e.client.fd := e], hash)
  {
    var n, fd, m' := |buckets|, e.client.fd, m[e.client.fd := e];
    var pos := BucketOf(hash, n, fd);
    var items, all := buckets[pos], buckets[pos][i := e];
    forall k | 0 <= k < |all| ensures Fits(all[k], m', hash, n, pos) {
      assert Fits(items[k], m, hash, n, pos);
    }
    forall f | Holds(items, f) ensures Holds(all, f) {
      var k :| 0 <= k < |items| && items[k].client.fd == f;
      assert all[k].client.fd == f;
    }
    assert all[i] == e;
    RepresentsUpdated(buckets, m, hash, fd, all, m');
  }

  lemma BucketFitsWithout(items: seq<Entry>, m: map<Fd, Entry>, hash: Fd -> nat, n: nat, pos: nat, fd: Fd, i: nat)
    requires n > 0 && BucketFits(items, m, hash, n, pos) && i < |items| && items[i].client.fd == fd
    ensures BucketFits(Without(items, i), m - {fd}, hash, n, pos)
  {
    var rest := Without(items, i);
    forall k | 0 <= k < |rest|
      ensures rest[k] == items[if k < i then k else k + 1]
      ensures Fits(rest[k], m - {fd}, hash, n, pos)
    {
      WithoutAt(items, i, k);
      assert Fits(items[if k < i then k else k + 1], m, hash, n, pos);
    }
  }

  lemma RepresentsRemoved(buckets: Buckets, m: map<Fd, Entry>, hash: Fd -> nat, fd: Fd, i: nat)
    requires |buckets| > 0 && Represents(buckets, m, hash)
    requires var items := buckets[BucketOf(hash, |buckets|, fd)];
      i < |items| && items[i].client.fd == fd
    ensures var pos := BucketOf(hash, |buckets|, fd);
      Represents(buckets[pos := Without(buckets[pos], i)], m - {fd}, hash)
  {
    var n, m' := |buckets|, m - {fd};
    var pos := BucketOf(hash, n, fd);
    var items, rest := buckets[pos], Without(buckets[pos], i);
    BucketFitsWithout(items, m, hash, n, pos, fd, i);
    forall f | f != fd && Holds(items, f) ensures Holds(rest, f) {
      var k :| 0 <= k < |items| && items[k].client.fd == f;
      var k' := if k < i then k else k - 1;
      WithoutAt(items, i, k');
      assert rest[k'] == items[k];
    }
    RepresentsUpdated(buckets, m, hash, fd, rest, m');
  }

  // ---------------------------------------------------------------- buckets in the heap

  class HashMap {
    const table: seq<Chain<Entry>>
    // The descriptor hash, fixed by the seed when the map is made.
    const hash: Fd -> nat
    var size: int
    // The finite map that the buckets represent, and the buckets as values.
    ghost var entries: map<Fd, Entry>
    ghost var buckets: Buckets
    ghost var repr: set<object>

    function Bucket(fd: Fd): (b: nat)
      requires |table| > 0
      ensures b < |table|
    {
      BucketOf(hash, |table|, fd)
    }

    /** The buckets are disjoint lists that represent `entries`, and `size` counts them. */
    ghost predicate Valid()
      reads this, repr
    {
      && |buckets| == |table| > 0
      && this in repr
      && (forall b :: 0 <= b < |table| ==> table[b] in repr && Bound(b))
      && (forall a, b :: 0 <= a < |table| && 0 <= b < |table| && a != b ==> table[a].repr !! table[b].repr)
      && Represents(buckets, entries, hash)
      && size == |entries|
    }

    /** Chain b is inside the footprint and holds bucket b. */
    ghost predicate Bound(b: nat)
      requires b < |table| == |buckets| && table[b] in repr
      reads this, repr
    {
      && table[b].repr <= repr && this !in table[b].repr
      && table[b].Valid()
      && table[b].items == buckets[b]
    }

    constructor (capacity: nat, seed: bv32)
      requires capacity > 0
      ensures Valid() && fresh(repr)
      ensures entries == map[]
      ensures |table| == capacity
      ensures forall fd :: hash(fd) == MurmurHash.HashBytes(MurmurHash.BytesOf(fd.word), seed) as nat
    {
      hash := (fd: Fd) => MurmurHash.HashBytes(MurmurHash.BytesOf(fd.word), seed) as nat;
      size := 0;
      entries, buckets := map[], seq(capacity, _ => []);
      var chains: seq<Chain<Entry>> := [];
      ghost var all: set<object> := {};
      while |chains| < capacity
        invariant |chains| <= capacity
        invariant fresh(all)
        invariant forall b :: 0 <= b < |chains| ==>
          chains[b] in all && chains[b].repr <= all && chains[b].Valid() && chains[b].items == []
        invariant forall a, b :: 0 <= a < b < |chains| ==> chains[a].repr !! chains[b].repr
      {
        var chain := new Chain<Entry>();
        chains := chains + [chain];
        all := all + chain.repr;
      }
      table := chains;
      repr := all + {this};
    }

    /** Walks one bucket.  `i` is the position in that bucket of the node found. */
    method Search(fd: Fd) returns (prev: Node?<Entry>, cur: Node?<Entry>, ghost i: nat)
      requires Valid()
      ensures cur == null <==> fd !in entries
      ensures cur == At(table[Bucket(fd)].spine, i)
      ensures prev == if i == 0 then null else At(table[Bucket(fd)].spine, i - 1)
      ensures cur != null ==> cur.item.client.fd == fd && cur.item == entries[fd]
      ensures cur != null ==> i < |buckets[Bucket(fd)]| && buckets[Bucket(fd)][i] == cur.item
    {
      assert Bound(Bucket(fd));
      RepresentsHolds(buckets, entries, hash, fd);
      prev, cur, i := WalkChain(table[Bucket(fd)], fd);
    }

    /** The walk along one list to the first entry of a descriptor. */
    static method WalkChain(chain: Chain<Entry>, fd: Fd)
      returns (prev: Node?<Entry>, cur: Node?<Entry>, ghost i: nat)
      requires chain.Valid()
      ensures cur == null <==> !Holds(chain.items, fd)
      ensures cur == At(chain.spine, i)
      ensures prev == if i == 0 then null else At(chain.spine, i - 1)
      ensures cur != null ==> i < |chain.items| && chain.items[i] == cur.item && cur.item.client.fd == fd
    {
      prev, cur, i := null, chain.head, 0;
      while cur != null
        invariant i <= |chain.spine|
        invariant cur == At(chain.spine, i)
        invariant prev == if i == 0 then null else At(chain.spine, i - 1)
        invariant forall j :: 0 <= j < i ==> chain.items[j].client.fd != fd
        decreases |chain.spine| - i
      {
        assert Linked(chain.spine, chain.items, i);
        if cur.item.client.fd == fd {
          assert Holds(chain.items, fd);
          return;
        }
        prev, cur, i := cur, cur.next, i + 1;
      }
    }

    /** Insert a new entry, or only move an existing one to another slot.  The client
        pointer of an existing entry is kept. */
    method Put(client: Client, index: int) returns (oldIndex: int)
      requires Valid()
      modifies repr
      ensures Valid() && fresh(repr - old(repr))
      ensures client.fd in old(entries) ==>
                && oldIndex == old(entries)[client.fd].index
                && entries == old(entries)[client.fd := old(entries)[client.fd].(index := index)]
      ensures client.fd !in old(entries) ==>
                && oldIndex == -1
                && entries == old(entries)[client.fd := Entry(client, index)]
    {
      var prev, cur, i := Search(client.fd);
      if cur != null {
        oldIndex := cur.item.index;
        Reindex(client.fd, cur, index, i);
      } else {
        oldIndex := -1;
        Insert(client, index);
      }
    }

    /** Chain `pos` is a proper list that may have changed; all the others still hold their
        buckets. */
    ghost predicate OthersBound(pos: nat)
      requires pos < |table|
      reads this, repr, table[pos], table[pos].repr
    {
      && |buckets| == |table| && this in repr && table[pos] in repr
      && (forall b :: 0 <= b < |table| && b != pos ==> table[b] in repr && Bound(b))
      && (forall b :: 0 <= b < |table| && b != pos ==> table[b].repr !! table[pos].repr)
      && (forall a, b :: 0 <= a < |table| && 0 <= b < |table| && a != b && a != pos && b != pos ==>
            table[a] in repr && table[b] in repr && table[a].repr !! table[b].repr)
      && this !in table[pos].repr && table[pos].Valid()
    }

    method ReplaceAt(pos: nat, cur: Node<Entry>, entry: Entry, ghost i: nat)
      requires Valid() && pos < |table| && At(table[pos].spine, i) == cur
      modifies table[pos].repr
      ensures OthersBound(pos) && table[pos].repr == old(table[pos].repr)
      ensures i < |buckets[pos]| && table[pos].items == buckets[pos][i := entry]
    {
      assert Bound(pos);
      table[pos].Replace(cur, entry, i);
      forall b | 0 <= b < |table| && b != pos ensures table[b] in repr && Bound(b) {
        assert old(Bound(b));
      }
    }

    method PrependAt(pos: nat, entry: Entry)
      requires Valid() && pos < |table|
      modifies table[pos].repr
      ensures OthersBound(pos) && fresh(table[pos].repr - old(table[pos].repr))
      ensures table[pos].items == [entry] + buckets[pos]
    {
      assert Bound(pos);
      table[pos].Prepend(entry);
      forall b | 0 <= b < |table| && b != pos ensures table[b] in repr && Bound(b) {
        assert old(Bound(b));
      }
    }

    method UnlinkAt(pos: nat, prev: Node?<Entry>, cur: Node<Entry>, ghost i: nat)
      requires Valid() && pos < |table| && At(table[pos].spine, i) == cur
      requires prev == if i == 0 then null else At(table[pos].spine, i - 1)
      modifies table[pos].repr
      ensures OthersBound(pos) && table[pos].repr == old(table[pos].repr)
      ensures i < |buckets[pos]| && table[pos].items == Without(buckets[pos], i)
    {
      assert Bound(pos);
      table[pos].Unlink(prev, cur, i);
      forall b | 0 <= b < |table| && b != pos ensures table[b] in repr && Bound(b) {
        assert old(Bound(b));
      }
    }

    /** Counts the change of the one chain that has just been changed, and records its new
        contents. */
    method Commit(pos: nat, delta: int, ghost items: seq<Entry>, ghost m: map<Fd, Entry>)
      requires 0 <= pos < |table| && OthersBound(pos) && table[pos].items == items
      requires Represents(buckets[pos := items], m, hash)
      requires size + delta == |m|
      modifies this`size, this`entries, this`buckets, this`repr
      ensures Valid() && repr == old(repr) + table[pos].repr
      ensures entries == m
    {
      size := size + delta;
      buckets := buckets[pos := items];
      entries := m;
      repr := repr + table[pos].repr;
      forall b | 0 <= b < |table| ensures table[b] in repr && Bound(b) {
        assert b != pos ==> old(Bound(b));
      }
    }

    method Reindex(fd: Fd, cur: Node<Entry>, index: int, ghost i: nat)
      requires Valid()
      requires At(table[Bucket(fd)].spine, i) == cur && cur.item.client.fd == fd
      requires fd in entries && cur.item == entries[fd]
      requires i < |buckets[Bucket(fd)]| && buckets[Bucket(fd)][i] == cur.item
      modifies repr
      ensures Valid() && repr == old(repr)
      ensures entries == old(entries)[fd := old(entries)[fd].(index := index)]
    {
      var pos, moved := Bucket(fd), cur.item.(index := index);
      RepresentsReplaced(buckets, entries, hash, i, moved);
      assert Bound(pos);
      ReplaceAt(pos, cur, moved, i);
      Commit(pos, 0, buckets[pos][i := moved], entries[fd := moved]);
    }

    method Insert(client: Client, index: int)
      requires Valid() && client.fd !in entries
      modifies repr
      ensures Valid() && fresh(repr - old(repr))
      ensures entries == old(entries)[client.fd := Entry(client, index)]
    {
      var pos, entry := Bucket(client.fd), Entry(client, index);
      RepresentsInserted(buckets, entries, hash, entry);
      assert Bound(pos);
      PrependAt(pos, entry);
      Commit(pos, 1, [entry] + buckets[pos], entries[client.fd := entry]);
    }

    method Get(client: Client) returns (index: int)
      requires Valid()
      ensures index == if client.fd in entries then entries[client.fd].index else -1
    {
      var prev, cur, i := Search(client.fd);
      index := if cur == null then -1 else cur.item.index;
    }

    /** The client that owns a triggered descriptor, or null. */
    method GetCurClient(triggerFd: Fd) returns (client: Client?)
      requires Valid()
      ensures client == if triggerFd in entries then entries[triggerFd].client else null
      ensures client != null ==> client.fd == triggerFd
    {
      var prev, cur, i := Search(triggerFd);
      client := if cur == null then null else cur.item.client;
    }

    /** Unlink the node of a client from the head or the middle of its bucket. */
    method Delete(client: Client)
      requires Valid()
      modifies repr
      ensures Valid() && repr == old(repr)
      ensures entries == old(entries) - {client.fd}
    {
      var prev, cur, i := Search(client.fd);
      if cur != null {
        Remove(client.fd, prev, cur, i);
      }
    }

    method Remove(fd: Fd, prev: Node?<Entry>, cur: Node<Entry>, ghost i: nat)
      requires Valid() && fd in entries
      requires At(table[Bucket(fd)].spine, i) == cur
      requires prev == if i == 0 then null else At(table[Bucket(fd)].spine, i - 1)
      requires i < |buckets[Bucket(fd)]| && buckets[Bucket(fd)][i].client.fd == fd
      modifies repr
      ensures Valid() && repr == old(repr)
      ensures entries == old(entries) - {fd}
    {
      var pos := Bucket(fd);
      RepresentsRemoved(buckets, entries, hash, fd, i);
      assert Bound(pos);
      UnlinkAt(pos, prev, cur, i);
      Commit(pos, -1, Without(buckets[pos], i), entries - {fd});
    }
  }
}
