/** The timing wheel: a ring of descriptor lists, one per second until the time-out. */
module TimeQueue {
  import opened Clients
  import opened Chains

  // ---------------------------------------------------------------- wheels as values

  datatype Wheel = Wheel(cur: nat, slots: seq<seq<Fd>>, flags: seq<bool>)

  ghost predicate WheelValid(w: Wheel) {
    |w.slots| == |w.flags| && w.cur < |w.slots|
  }

  /** `s` without the first occurrence of fd, if there is one. */
  ghost function RemoveFirst(s: seq<Fd>, fd: Fd): seq<Fd> {
    if s == [] then [] else if s[0] == fd then s[1..] else [s[0]] + RemoveFirst(s[1..], fd)
  }

  lemma {:induction false} RemoveFirstAt(s: seq<Fd>, fd: Fd, i: nat)
    requires i <= |s| && fd !in s[..i]
    ensures i == |s| ==> RemoveFirst(s, fd) == s
    ensures i < |s| && s[i] == fd ==> RemoveFirst(s, fd) == Without(s, i)
  {
    if i > 0 {
      assert s[..i][0] == s[0];
      forall x | x in s[1..][..i - 1] ensures x in s[..i] {
        var k :| 0 <= k < i - 1 && s[1..][k] == x;
        assert s[..i][k + 1] == x;
      }
      RemoveFirstAt(s[1..], fd, i - 1);
      assert s == [s[0]] + s[1..];
      assert i < |s| ==> Without(s, i) == [s[0]] + Without(s[1..], i - 1);
    }
  }

  ghost function Pushed(w: Wheel, fd: Fd): Wheel
    requires WheelValid(w)
  {
    w.(slots := w.slots[w.cur := [fd] + w.slots[w.cur]])
  }

  ghost function Popped(w: Wheel, slotIdx: nat, fd: Fd): Wheel
    requires WheelValid(w) && slotIdx < |w.slots|
  {
    w.(slots := w.slots[slotIdx := RemoveFirst(w.slots[slotIdx], fd)])
  }

  /** One slot onwards around the ring; the slot left behind may be cleaned next time. */
  ghost function Advanced(w: Wheel): Wheel
    requires WheelValid(w)
  {
    w.(cur := (w.cur + 1) % |w.slots|, flags := w.flags[w.cur := true])
  }

  // ---------------------------------------------------------------- the wheel in the heap

  class TimeOutQueue {
    var curIndex: nat
    const slot: seq<Chain<Fd>>
    const cleanFlag: array<bool>
    // The lists of the slots as values.
    ghost var slots: seq<seq<Fd>>
    ghost var repr: set<object>

    ghost predicate Valid()
      reads this, repr
    {
      && this in repr && cleanFlag in repr
      && |slot| == |slots| == cleanFlag.Length
      && curIndex < |slot|
      && (forall s :: 0 <= s < |slot| ==> slot[s] in repr && Bound(s))
      && (forall s, t :: 0 <= s < |slot| && 0 <= t < |slot| && s != t ==> slot[s].repr !! slot[t].repr)
    }

    ghost predicate Bound(s: nat)
      requires s < |slot| == |slots| && slot[s] in repr
      reads this, repr
    {
      && slot[s].repr <= repr && this !in slot[s].repr && cleanFlag !in slot[s].repr
      && slot[s].Valid()
      && slot[s].items == slots[s]
    }

    ghost function State(): Wheel
      reads this, cleanFlag
    {
      Wheel(curIndex, slots, cleanFlag[..])
    }

    /** All slots empty, no slot to be cleaned. */
    constructor (timeOut: nat)
      requires timeOut > 0
      ensures Valid() && fresh(repr)
      ensures State() == Wheel(0, seq(timeOut, _ => []), seq(timeOut, _ => false))
    {
      curIndex := 0;
      var chains: seq<Chain<Fd>> := [];
      ghost var all: set<object> := {};
      while |chains| < timeOut
        invariant |chains| <= timeOut
        invariant fresh(all)
        invariant forall s :: 0 <= s < |chains| ==>
          chains[s] in all && chains[s].repr <= all && chains[s].Valid() && chains[s].items == []
        invariant forall s, t :: 0 <= s < |chains| && 0 <= t < |chains| && s != t ==>
          chains[s].repr !! chains[t].repr
      {
        var chain := new Chain<Fd>();
        chains := chains + [chain];
        all := all + chain.repr;
      }
      var flags := new bool[timeOut](_ => false);
      cleanFlag := flags;
      slot := chains;
      slots := seq(timeOut, _ => []);
      repr := all + {this, flags};
      new;
      assert cleanFlag[..] == seq(timeOut, _ => false);
    }

    /** Records the new contents of the one list that has just been changed. */
    ghost method Resume(s: nat, items: seq<Fd>)
      requires this in repr && cleanFlag in repr
      requires |slot| == |slots| == cleanFlag.Length && curIndex < |slot| && s < |slot|
      requires forall t :: 0 <= t < |slot| && t != s ==> slot[t] in repr && Bound(t)
      requires forall s, t :: 0 <= s < |slot| && 0 <= t < |slot| && s != t ==> slot[s].repr !! slot[t].repr
      requires slot[s] in repr && this !in slot[s].repr && cleanFlag !in slot[s].repr
      requires slot[s].Valid() && slot[s].items == items
      modifies this`slots, this`repr
      ensures Valid() && repr == old(repr) + slot[s].repr
      ensures slots == old(slots)[s := items]
    {
      slots := slots[s := items];
      repr := repr + slot[s].repr;
      forall t | 0 <= t < |slot| ensures slot[t] in repr && Bound(t) {
        assert t != s ==> old(Bound(t));
      }
    }

    method Push(clientFd: Fd)
      requires Valid()
      modifies repr
      ensures Valid() && fresh(repr - old(repr))
      ensures State() == Pushed(old(State()), clientFd)
    {
      assert Bound(curIndex);
      slot[curIndex].Prepend(clientFd);
      forall t | 0 <= t < |slot| && t != curIndex ensures Bound(t) {
        assert old(Bound(t));
      }
      Resume(curIndex, [clientFd] + slots[curIndex]);
    }

    /** Removes the first node that holds the descriptor: 0, or -1 when there is none. */
    method Pop(slotIdx: nat, clientFd: Fd) returns (rc: int)
      requires Valid() && slotIdx < |slot|
      modifies repr
      ensures Valid() && repr == old(repr)
      ensures State() == Popped(old(State()), slotIdx, clientFd)
      ensures rc == if clientFd in old(slots)[slotIdx] then 0 else -1
    {
      var chain := slot[slotIdx];
      assert Bound(slotIdx);
      var prev: Node?<Fd>, cur: Node?<Fd> := null, chain.head;
      ghost var i := 0;
      while cur != null
        invariant i <= |chain.spine|
        invariant cur == At(chain.spine, i)
        invariant prev == if i == 0 then null else At(chain.spine, i - 1)
        invariant clientFd !in chain.items[..i]
        decreases |chain.spine| - i
      {
        assert Linked(chain.spine, chain.items, i);
        if cur.item == clientFd {
          RemoveFirstAt(chain.items, clientFd, i);
          chain.Unlink(prev, cur, i);
          forall t | 0 <= t < |slot| && t != slotIdx ensures Bound(t) {
            assert old(Bound(t));
          }
          Resume(slotIdx, RemoveFirst(slots[slotIdx], clientFd));
          return 0;
        }
        prev, cur, i := cur, cur.next, i + 1;
      }
      RemoveFirstAt(chain.items, clientFd, i);
      return -1;
    }

    /** Takes one descriptor out of the current slot if that slot is to be cleaned. */
    method CleanFd() returns (fd: Fd)
      requires Valid()
      modifies repr
      ensures Valid() && repr == old(repr)
      ensures var w := old(State());
        if w.flags[w.cur] && w.slots[w.cur] != [] then
          fd == w.slots[w.cur][0] && State() == w.(slots := w.slots[w.cur := w.slots[w.cur][1..]])
        else
          fd == NO_FD && State() == w
    {
      assert Bound(curIndex);
      var cur := slot[curIndex].head;
      if cleanFlag[curIndex] && cur != null {
        assert Linked(slot[curIndex].spine, slot[curIndex].items, 0);
        fd := cur.item;
        assert Without(slots[curIndex], 0) == slots[curIndex][1..];
        slot[curIndex].Unlink(null, cur, 0);
        forall t | 0 <= t < |slot| && t != curIndex ensures Bound(t) {
          assert old(Bound(t));
        }
        Resume(curIndex, slots[curIndex][1..]);
      } else {
        fd := NO_FD;
      }
    }

    /** A client has been heard from: from its old slot to the current one. */
    method UpdateConn(oldIndex: nat, clientFd: Fd)
      requires Valid() && oldIndex < |slot|
      modifies repr
      ensures Valid() && fresh(repr - old(repr))
      ensures State() == Pushed(Popped(old(State()), oldIndex, clientFd), clientFd)
    {
      var _ := Pop(oldIndex, clientFd);
      Push(clientFd);
    }

    method UpdateTimer()
      requires Valid()
      modifies this`curIndex, cleanFlag
      ensures Valid() && repr == old(repr)
      ensures State() == Advanced(old(State()))
    {
      cleanFlag[curIndex] := true;
      curIndex := (curIndex + 1) % |slot|;
      forall t | 0 <= t < |slot| ensures Bound(t) {
        assert old(Bound(t));
      }
    }

    method ClearFlag()
      requires Valid()
      modifies cleanFlag
      ensures Valid() && repr == old(repr)
      ensures State() == old(State()).(flags := old(State()).flags[old(curIndex) := false])
    {
      cleanFlag[curIndex] := false;
      forall t | 0 <= t < |slot| ensures Bound(t) {
        assert old(Bound(t));
      }
    }
  }
}
