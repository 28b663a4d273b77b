/** The client map and the timing wheel kept in step: connection, activity, departure and
    the one-second tick that evicts idle clients. */
module ClientManager {
  import opened Clients
  import opened Chains
  import opened ClientMap
  import opened TimeQueue

  // ---------------------------------------------------------------- the pair as a value

  /** The slot recorded for each descriptor, and the wheel. */
  datatype Manager = Manager(index: map<Fd, int>, wheel: Wheel)

  /** The map and the wheel agree, and every occupied slot other than the current one is
      due to be cleaned when the wheel next reaches it. */
  ghost predicate Inv(m: Manager) {
    && WheelValid(m.wheel)
    && NO_FD !in m.index
    && (forall fd <- m.index :: 0 <= m.index[fd] < |m.wheel.slots| && fd in m.wheel.slots[m.index[fd]])
    && (forall s :: 0 <= s < |m.wheel.slots| ==> SlotAgrees(m, s))
  }

  ghost predicate SlotAgrees(m: Manager, s: nat)
    requires WheelValid(m.wheel) && s < |m.wheel.slots|
  {
    && Distinct(m.wheel.slots[s])
    && (forall fd <- m.wheel.slots[s] :: fd in m.index && m.index[fd] == s)
    && (s != m.wheel.cur && m.wheel.slots[s] != [] ==> m.wheel.flags[s])
  }

  ghost function Initial(timeOut: nat): Manager {
    Manager(map[], Wheel(0, seq(timeOut, _ => []), seq(timeOut, _ => false)))
  }

  ghost function Added(m: Manager, fd: Fd): Manager
    requires WheelValid(m.wheel)
  {
    Manager(m.index[fd := m.wheel.cur], Pushed(m.wheel, fd))
  }

  ghost function Touched(m: Manager, fd: Fd): Manager
    requires Inv(m) && fd in m.index
  {
    Manager(m.index[fd := m.wheel.cur], Pushed(Popped(m.wheel, m.index[fd], fd), fd))
  }

  ghost function Deleted(m: Manager, fd: Fd): Manager
    requires Inv(m) && fd in m.index
  {
    Manager(m.index - {fd}, Popped(m.wheel, m.index[fd], fd))
  }

  ghost function Members(s: seq<Fd>): set<Fd> {
    set fd | fd in s
  }

  /** The descriptors that a clean-up of the current slot takes out. */
  ghost function Cleanable(w: Wheel): seq<Fd>
    requires WheelValid(w)
  {
    if w.flags[w.cur] then w.slots[w.cur] else []
  }

  ghost function Cleaned(m: Manager): Manager
    requires WheelValid(m.wheel)
  {
    var w := m.wheel;
    Manager(m.index - Members(Cleanable(w)),
            w.(slots := if w.flags[w.cur] then w.slots[w.cur := []] else w.slots,
               flags := w.flags[w.cur := false]))
  }

  ghost function Ticked(m: Manager): Manager
    requires WheelValid(m.wheel)
  {
    Cleaned(m.(wheel := Advanced(m.wheel)))
  }

  lemma InitialInv(timeOut: nat)
    requires timeOut > 0
    ensures Inv(Initial(timeOut))
  {}

  lemma {:induction false} RemoveFirstKeeps(s: seq<Fd>, fd: Fd)
    requires Distinct(s)
    ensures Distinct(RemoveFirst(s, fd))
    ensures forall f :: f in RemoveFirst(s, fd) <==> f in s && f != fd
  {
    if s != [] && s[0] != fd {
      var rest := RemoveFirst(s[1..], fd);
      RemoveFirstKeeps(s[1..], fd);
      assert forall k :: 0 <= k < |rest| ==> rest[k] in s[1..];
    }
  }

  lemma AddedInv(m: Manager, fd: Fd)
    requires Inv(m) && fd !in m.index && fd != NO_FD
    ensures Inv(Added(m, fd))
  {
    var m' := Added(m, fd);
    forall s | 0 <= s < |m.wheel.slots| ensures SlotAgrees(m', s) {
      assert SlotAgrees(m, s);
    }
  }

  lemma DeletedInv(m: Manager, fd: Fd)
    requires Inv(m) && fd in m.index
    ensures Inv(Deleted(m, fd))
  {
    var m' := Deleted(m, fd);
    assert SlotAgrees(m, m.index[fd]);
    RemoveFirstKeeps(m.wheel.slots[m.index[fd]], fd);
    forall s | 0 <= s < |m.wheel.slots| ensures SlotAgrees(m', s) {
      assert SlotAgrees(m, s);
    }
  }

  /** A touch is a departure followed at once by a fresh connection. */
  lemma TouchedIsDeletedAdded(m: Manager, fd: Fd)
    requires Inv(m) && fd in m.index
    ensures Touched(m, fd) == Added(Deleted(m, fd), fd)
    ensures Inv(Touched(m, fd))
  {
    DeletedInv(m, fd);
    AddedInv(Deleted(m, fd), fd);
  }

  /** After a tick the new current slot is empty whatever its flag was: on the first lap
      a slot whose flag is still false has never been used. */
  lemma TickedInv(m: Manager)
    requires Inv(m)
    ensures Inv(Ticked(m))
    ensures var m' := Ticked(m); m'.wheel.slots[m'.wheel.cur] == []
  {
    var m1 := m.(wheel := Advanced(m.wheel));
    var m' := Ticked(m);
    var w := m1.wheel;
    forall s | 0 <= s < |w.slots| ensures SlotAgrees(m', s) && (s == w.cur ==> m'.wheel.slots[s] == []) {
      assert SlotAgrees(m, s);
      assert SlotAgrees(m, w.cur);
    }
    forall fd <- m'.index
      ensures 0 <= m'.index[fd] < |w.slots| && fd in m'.wheel.slots[m'.index[fd]]
    {
      assert SlotAgrees(m, w.cur);
    }
  }

  /** A descriptor is recorded in slot s exactly when it occurs once in the whole wheel,
      in slot s. */
  lemma RecordedOnce(m: Manager, fd: Fd, s: nat)
    requires Inv(m) && s < |m.wheel.slots|
    ensures fd in m.index && m.index[fd] == s <==>
      && multiset(m.wheel.slots[s])[fd] == 1
      && forall t :: 0 <= t < |m.wheel.slots| && t != s ==> fd !in m.wheel.slots[t]
  {
    assert SlotAgrees(m, s);
    if fd in m.wheel.slots[s] {
      OccursOnce(m.wheel.slots[s], fd);
      forall t | 0 <= t < |m.wheel.slots| && t != s ensures fd !in m.wheel.slots[t] {
        assert SlotAgrees(m, t);
      }
    }
  }

  lemma {:induction false} OccursOnce(s: seq<Fd>, fd: Fd)
    requires Distinct(s) && fd in s
    ensures multiset(s)[fd] == 1
  {
    var i :| 0 <= i < |s| && s[i] == fd;
    assert s == s[..i] + [fd] + s[i + 1..];
  }

  // ---------------------------------------------------------------- the pair in the heap

  ghost function Indices(entries: map<Fd, Entry>): map<Fd, int> {
    map fd | fd in entries :: entries[fd].index
  }

  lemma IndicesUpdated(entries: map<Fd, Entry>, fd: Fd, e: Entry)
    ensures Indices(entries[fd := e]) == Indices(entries)[fd := e.index]
  {}

  lemma IndicesRemoved(entries: map<Fd, Entry>, fds: set<Fd>)
    ensures Indices(entries - fds) == Indices(entries) - fds
  {}

  ghost function View(hm: HashMap, tq: TimeOutQueue): Manager
    reads hm, tq, tq.cleanFlag
  {
    Manager(Indices(hm.entries), tq.State())
  }

  ghost predicate Ready(hm: HashMap, tq: TimeOutQueue)
    reads hm, hm.repr, tq, tq.repr
  {
    hm.Valid() && tq.Valid() && hm.repr !! tq.repr && Inv(View(hm, tq))
  }

  /** A new connection: the descriptor was handed out by `accept`, so it is in no slot. */
  method AddClient(hm: HashMap, tq: TimeOutQueue, newClient: Client) returns (rc: int)
    requires Ready(hm, tq) && newClient.fd !in hm.entries && newClient.fd != NO_FD
    modifies hm.repr, tq.repr
    ensures Ready(hm, tq) && fresh(hm.repr - old(hm.repr)) && fresh(tq.repr - old(tq.repr))
    ensures rc == 0
    ensures hm.entries == old(hm.entries)[newClient.fd := Entry(newClient, old(tq.curIndex))]
    ensures View(hm, tq) == Added(old(View(hm, tq)), newClient.fd)
  {
    ghost var m := View(hm, tq);
    AddedInv(m, newClient.fd);
    IndicesUpdated(hm.entries, newClient.fd, Entry(newClient, tq.curIndex));
    var _ := hm.Put(newClient, tq.curIndex);
    tq.Push(newClient.fd);
    assert View(hm, tq) == Added(m, newClient.fd);
    return 0;
  }

  method DelClient(hm: HashMap, tq: TimeOutQueue, curClient: Client) returns (rc: int)
    requires Ready(hm, tq) && curClient.fd in hm.entries
    modifies hm.repr, tq.repr
    ensures Ready(hm, tq) && hm.repr == old(hm.repr) && tq.repr == old(tq.repr)
    ensures rc == 0
    ensures hm.entries == old(hm.entries) - {curClient.fd}
    ensures View(hm, tq) == Deleted(old(View(hm, tq)), curClient.fd)
  {
    ghost var m := View(hm, tq);
    DeletedInv(m, curClient.fd);
    IndicesRemoved(hm.entries, {curClient.fd});
    var slotIdx := hm.Get(curClient);
    assert slotIdx == m.index[curClient.fd];
    var _ := tq.Pop(slotIdx, curClient.fd);
    hm.Delete(curClient);
    assert View(hm, tq) == Deleted(m, curClient.fd);
    return 0;
  }

  method UpdateClient(hm: HashMap, tq: TimeOutQueue, curClient: Client) returns (rc: int)
    requires Ready(hm, tq) && curClient.fd in hm.entries
    modifies hm.repr, tq.repr
    ensures Ready(hm, tq) && fresh(hm.repr - old(hm.repr)) && fresh(tq.repr - old(tq.repr))
    ensures rc == 0
    ensures hm.entries ==
      old(hm.entries)[curClient.fd := old(hm.entries)[curClient.fd].(index := old(tq.curIndex))]
    ensures View(hm, tq) == Touched(old(View(hm, tq)), curClient.fd)
  {
    ghost var m := View(hm, tq);
    TouchedIsDeletedAdded(m, curClient.fd);
    IndicesUpdated(hm.entries, curClient.fd, hm.entries[curClient.fd].(index := tq.curIndex));
    var oldIndex := hm.Put(curClient, tq.curIndex);
    assert oldIndex == m.index[curClient.fd];
    tq.UpdateConn(oldIndex, curClient.fd);
    assert View(hm, tq) == Touched(m, curClient.fd);
    return 0;
  }

  /** The wheel once the first k descriptors of the current slot have been taken out. */
  ghost function Drained(w: Wheel, k: nat): Wheel
    requires WheelValid(w) && k <= |Cleanable(w)|
  {
    if w.flags[w.cur] then w.(slots := w.slots[w.cur := w.slots[w.cur][k..]]) else w
  }

  lemma DrainedFurther(w: Wheel, k: nat)
    requires WheelValid(w) && k <= |Cleanable(w)|
    ensures WheelValid(Drained(w, k))
    ensures Cleanable(Drained(w, k)) == Cleanable(w)[k..]
    ensures k < |Cleanable(w)| ==> Drained(Drained(w, k), 1) == Drained(w, k + 1)
  {}

  lemma FullyDrained(m: Manager, entries: map<Fd, Entry>)
    requires WheelValid(m.wheel) && m.index == Indices(entries)
    ensures var w := m.wheel; var due := Cleanable(w); var w' := Drained(w, |due|);
      Cleaned(m) == Manager(Indices(entries - Members(due)), w'.(flags := w'.flags[w'.cur := false]))
  {
    IndicesRemoved(entries, Members(Cleanable(m.wheel)));
    assert Cleanable(m.wheel)[|Cleanable(m.wheel)|..] == [];
  }

  lemma RemovedOneMore(entries: map<Fd, Entry>, due: seq<Fd>, closed: seq<Fd>)
    requires closed <= due && |closed| < |due|
    ensures closed + [due[|closed|]] <= due
    ensures entries - Members(closed + [due[|closed|]]) == entries - Members(closed) - {due[|closed|]}
    ensures Distinct(due) && due[|closed|] in entries ==> due[|closed|] in entries - Members(closed)
  {
    var fd := due[|closed|];
    assert Members(closed + [fd]) == Members(closed) + {fd};
    assert forall i :: 0 <= i < |closed| ==> closed[i] == due[i];
  }

  /** What `clean_client` relies on: the current slot agrees with the map. */
  ghost predicate Due(hm: HashMap, tq: TimeOutQueue)
    reads hm, hm.repr, tq, tq.repr
  {
    && hm.Valid() && tq.Valid() && hm.repr !! tq.repr
    && var due := Cleanable(tq.State());
    && Distinct(due) && NO_FD !in due && forall fd <- due :: fd in hm.entries
  }

  /** Forgets the client of a descriptor; the wheel is not concerned. */
  method Forget(hm: HashMap, tq: TimeOutQueue, curFd: Fd) returns (found: bool)
    requires hm.Valid() && tq.Valid() && hm.repr !! tq.repr
    modifies hm.repr
    ensures hm.Valid() && hm.repr == old(hm.repr)
    ensures tq.Valid() && tq.repr == old(tq.repr) && tq.State() == old(tq.State())
    ensures found <==> curFd in old(hm.entries)
    ensures hm.entries == old(hm.entries) - {curFd}
  {
    var curClient := hm.GetCurClient(curFd);
    if curClient == null {
      return false;
    }
    hm.Delete(curClient);
    found := true;
  }

  /** The clean-up that began with w and `entries` has forgotten `closed`, the first of the
      descriptors that are due, and has taken the next one, `curFd`, off the wheel. */
  ghost predicate Evicted(hm: HashMap, tq: TimeOutQueue, w: Wheel, entries: map<Fd, Entry>, closed: seq<Fd>, curFd: Fd)
    reads hm, tq, tq.cleanFlag
  {
    && WheelValid(w) && closed <= Cleanable(w)
    && hm.entries == entries - Members(closed)
    && var k := |closed|;
       if k < |Cleanable(w)| then curFd == Cleanable(w)[k] && tq.State() == Drained(w, k + 1)
       else curFd == NO_FD && tq.State() == Drained(w, k)
  }

  /** One round of the clean-up: forget the client of the descriptor just taken out of the
      wheel, and take out the next one. */
  method EvictOne(hm: HashMap, tq: TimeOutQueue, closed: seq<Fd>, curFd: Fd,
                  ghost w: Wheel, ghost entries: map<Fd, Entry>)
    returns (found: bool, nextFd: Fd)
    requires hm.Valid() && tq.Valid() && hm.repr !! tq.repr
    requires Evicted(hm, tq, w, entries, closed, curFd) && curFd != NO_FD
    requires Distinct(Cleanable(w)) && NO_FD !in Cleanable(w) && curFd in entries
    modifies hm.repr, tq.repr
    ensures hm.Valid() && tq.Valid() && hm.repr == old(hm.repr) && tq.repr == old(tq.repr)
    ensures found && Evicted(hm, tq, w, entries, closed + [curFd], nextFd)
  {
    RemovedOneMore(entries, Cleanable(w), closed);
    DrainedFurther(w, |closed| + 1);
    found := Forget(hm, tq, curFd);
    if !found {
      return false, NO_FD;
    }
    nextFd := tq.CleanFd();
  }

  /** The loop of the clean-up: takes out every descriptor of a slot that is due. */
  method Drain(hm: HashMap, tq: TimeOutQueue) returns (rc: int, closed: seq<Fd>)
    requires Due(hm, tq)
    modifies hm.repr, tq.repr
    ensures hm.Valid() && tq.Valid() && hm.repr == old(hm.repr) && tq.repr == old(tq.repr)
    ensures rc == 0 && closed == Cleanable(old(tq.State()))
    ensures hm.entries == old(hm.entries) - Members(closed)
    ensures tq.State() == Drained(old(tq.State()), |closed|)
  {
    ghost var w, entries := tq.State(), hm.entries;
    closed := [];
    var curFd := tq.CleanFd();
    assert entries - Members([]) == entries;
    while curFd != NO_FD
      invariant hm.Valid() && tq.Valid() && hm.repr == old(hm.repr) && tq.repr == old(tq.repr)
      invariant Evicted(hm, tq, w, entries, closed, curFd)
      decreases |Cleanable(w)| - |closed|
    {
      var found, nextFd := EvictOne(hm, tq, closed, curFd, w, entries);
      if !found {
        return -1, closed;
      }
      closed, curFd := closed + [curFd], nextFd;
    }
    rc := 0;
  }

  /** Empties the current slot if it is due.  `closed` lists the descriptors closed; the
      result -1, for a descriptor in the wheel that the map does not know, never happens. */
  method CleanClient(hm: HashMap, tq: TimeOutQueue) returns (rc: int, closed: seq<Fd>)
    requires Due(hm, tq)
    modifies hm.repr, tq.repr
    ensures hm.Valid() && tq.Valid() && hm.repr == old(hm.repr) && tq.repr == old(tq.repr)
    ensures rc == 0 && closed == Cleanable(old(tq.State()))
    ensures hm.entries == old(hm.entries) - Members(closed)
    ensures View(hm, tq) == Cleaned(old(View(hm, tq)))
  {
    FullyDrained(View(hm, tq), hm.entries);
    rc, closed := Drain(hm, tq);
    if rc == 0 {
      tq.ClearFlag();
    }
  }

  /** One second passes. */
  method TimerFunc(hm: HashMap, tq: TimeOutQueue) returns (closed: seq<Fd>)
    requires Ready(hm, tq)
    modifies hm.repr, tq.repr
    ensures Ready(hm, tq) && hm.repr == old(hm.repr) && tq.repr == old(tq.repr)
    ensures closed == Cleanable(Advanced(old(tq.State())))
    ensures hm.entries == old(hm.entries) - Members(closed)
    ensures View(hm, tq) == Ticked(old(View(hm, tq)))
  {
    ghost var m := View(hm, tq);
    TickedInv(m);
    assert SlotAgrees(m, Advanced(m.wheel).cur);
    tq.UpdateTimer();
    var _, closed_ := CleanClient(hm, tq);
    closed := closed_;
  }
}
