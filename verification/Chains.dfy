/** A singly linked list relinked in place.  The client map keeps one such list per
    bucket and the timing wheel one per slot. */
module Chains {

  class Node<T> {
    var item: T
    var next: Node?<T>

    constructor (item: T, next: Node?<T>)
      ensures this.item == item && this.next == next
    {
      this.item, this.next := item, next;
    }
  }

  /** `s` without position i. */
  ghost function Without<T>(s: seq<T>, i: nat): seq<T>
    requires i < |s|
  {
    s[..i] + s[i + 1..]
  }

  ghost predicate Distinct<T>(s: seq<T>) {
    forall i, j :: 0 <= i < j < |s| ==> s[i] != s[j]
  }

  lemma WithoutAt<T>(s: seq<T>, i: nat, k: nat)
    requires i < |s| && k < |s| - 1
    ensures |Without(s, i)| == |s| - 1
    ensures Without(s, i)[k] == if k < i then s[k] else s[k + 1]
  {}

  lemma WithoutDistinct<T>(s: seq<T>, i: nat)
    requires i < |s| && Distinct(s)
    ensures Distinct(Without(s, i))
  {}

  /** The node at position i, or the null that ends the list. */
  ghost function At<T>(spine: seq<Node<T>>, i: nat): Node?<T> {
    if i < |spine| then spine[i] else null
  }

  ghost predicate Linked<T>(spine: seq<Node<T>>, items: seq<T>, i: nat)
    requires i < |spine| == |items|
    reads spine[i]
  {
    spine[i].next == At(spine, i + 1) && spine[i].item == items[i]
  }

  class Chain<T> {
    var head: Node?<T>
    // The nodes in list order, the items they hold, and the footprint of the list.
    ghost var spine: seq<Node<T>>
    ghost var items: seq<T>
    ghost var repr: set<object>

    ghost predicate Valid()
      reads this, repr
    {
      && this in repr
      && head == At(spine, 0)
      && |items| == |spine|
      && Distinct(spine)
      && (forall i :: 0 <= i < |spine| ==> spine[i] in repr && Linked(spine, items, i))
    }

    constructor ()
      ensures Valid() && fresh(repr) && items == []
    {
      head, spine, items, repr := null, [], [], {this};
    }

    method Prepend(item: T)
      requires Valid()
      modifies repr
      ensures Valid() && fresh(repr - old(repr))
      ensures items == [item] + old(items)
    {
      var node := new Node(item, head);
      head := node;
      ghost var s, t := spine, items;
      spine, items, repr := [node] + s, [item] + t, repr + {node};
      forall k | 0 <= k < |spine| ensures spine[k] in repr && Linked(spine, items, k) {
        assert k > 0 ==> Linked(s, t, k - 1);
      }
    }

    /** Drop the node at position i, whose predecessor is `prev`. */
    method Unlink(prev: Node?<T>, cur: Node<T>, ghost i: nat)
      requires Valid() && i < |spine| && cur == spine[i]
      requires prev == if i == 0 then null else spine[i - 1]
      modifies repr
      ensures Valid() && repr == old(repr)
      ensures items == Without(old(items), i)
    {
      ghost var s, t := spine, items;
      assert Linked(s, t, i);
      if prev == null {
        head := cur.next;
      } else {
        prev.next := cur.next;
      }
      spine, items := Without(s, i), Without(t, i);
      WithoutDistinct(s, i);
      forall k | 0 <= k < |spine| ensures spine[k] in repr && Linked(spine, items, k) {
        WithoutAt(s, i, k);
        WithoutAt(t, i, k);
        if k + 1 < |spine| { WithoutAt(s, i, k + 1); }
        assert old(Linked(s, t, if k < i then k else k + 1));
      }
    }

    method Replace(cur: Node<T>, item: T, ghost i: nat)
      requires Valid() && i < |spine| && cur == spine[i]
      modifies repr
      ensures Valid() && repr == old(repr)
      ensures items == old(items)[i := item]
    {
      ghost var t := items;
      cur.item := item;
      items := t[i := item];
      forall k | 0 <= k < |spine| ensures spine[k] in repr && Linked(spine, items, k) {
        assert old(Linked(spine, t, k));
      }
    }
  }
}
