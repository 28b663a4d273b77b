/** The server's event loop, as far as the client manager can see it. */
module EventLoop {
  import opened Clients
  import opened ClientMap
  import opened TimeQueue
  import opened ClientManager
  import opened IdleEviction

  const HASH_MAP_CAPACITY := 10
  const TIME_OUT := 30

  lemma {:induction false} PrefixPossible(timeOut: nat, h: History, i: nat)
    requires timeOut > 0 && Possible(timeOut, h) && i <= |h|
    ensures Possible(timeOut, h[..i])
  {
    if i == |h| {
      assert h[..i] == h;
    } else {
      PrefixPossible(timeOut, h[..|h| - 1], i);
      assert h[..|h| - 1][..i] == h[..i];
    }
  }

  /** The next event of a possible history, and where it leads. */
  lemma NextPossible(timeOut: nat, h: History, i: nat)
    requires timeOut > 0 && Possible(timeOut, h) && i < |h|
    ensures Possible(timeOut, h[..i]) && Possible(timeOut, h[..i + 1])
    ensures Legal(After(timeOut, h[..i]), h[i])
    ensures After(timeOut, h[..i + 1]) == Next(After(timeOut, h[..i]), h[i])
  {
    PrefixPossible(timeOut, h, i);
    PrefixPossible(timeOut, h, i + 1);
    assert h[..i + 1][..i] == h[..i];
  }

  /** One event, handled on the heap. */
  method Handle(hm: HashMap, tq: TimeOutQueue, e: Event)
    requires Ready(hm, tq) && Legal(View(hm, tq), e)
    modifies hm.repr, tq.repr
    ensures Ready(hm, tq) && fresh(hm.repr - old(hm.repr)) && fresh(tq.repr - old(tq.repr))
    ensures View(hm, tq) == Next(old(View(hm, tq)), e)
  {
    match e
    case Connect(fd) =>
      var newClient := new Client(fd);
      var _ := AddClient(hm, tq, newClient);
    case Activity(fd) =>
      var curClient := hm.GetCurClient(fd);
      var _ := UpdateClient(hm, tq, curClient);
    case Depart(fd) =>
      var curClient := hm.GetCurClient(fd);
      var _ := DelClient(hm, tq, curClient);
    case Tick =>
      var _ := TimerFunc(hm, tq);
  }

  /** From an empty manager, the map and the wheel in the heap follow every possible
      history step by step. */
  method Serve(seed: bv32, h: History) returns (hm: HashMap, tq: TimeOutQueue)
    requires Possible(TIME_OUT, h)
    ensures Ready(hm, tq)
    ensures View(hm, tq) == After(TIME_OUT, h)
  {
    hm := new HashMap(HASH_MAP_CAPACITY, seed);
    tq := new TimeOutQueue(TIME_OUT);
    InitialInv(TIME_OUT);
    assert View(hm, tq) == Initial(TIME_OUT);
    for i := 0 to |h|
      invariant Ready(hm, tq) && fresh(hm.repr) && fresh(tq.repr)
      invariant Possible(TIME_OUT, h[..i]) && View(hm, tq) == After(TIME_OUT, h[..i])
    {
      NextPossible(TIME_OUT, h, i);
      Handle(hm, tq, h[i]);
    }
    assert h[..|h|] == h;
  }
}
