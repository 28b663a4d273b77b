/** The configuration table: 32 slots, open addressing with linear probing. */
module ConfigTable {
  import opened Naturals

  /** The characters of a C string before its terminator, each as the number that `char`
      promotes to; plain `char` may be negative. */
  type CString = seq<int>

  const BUFFER := 32

  // ---------------------------------------------------------------- the string hash

  ghost function Sum(key: CString): int {
    if key == [] then 0 else Sum(key[..|key| - 1]) + key[|key| - 1]
  }

  /** Where the probe for a key starts: the sum of its characters modulo the table size. */
  ghost function Home(key: CString): (h: nat)
    ensures h < 32
  {
    Sum(key) % 32
  }

  /** The times-33 loop in 32-bit unsigned arithmetic.  The multiplier is 1 modulo 32 and the
      wrap-around is 0 modulo 32, so only the sum of the characters survives. */
  method CfgHash(key: CString) returns (pos: nat)
    ensures pos == Home(key)
  {
    var hashVal: nat := 0;
    for i := 0 to |key|
      invariant 0 <= hashVal < 0x1_0000_0000
      invariant hashVal % 32 == Sum(key[..i]) % 32
    {
      assert key[..i + 1][..i] == key[..i];
      ghost var before := hashVal;
      hashVal := (hashVal * 32 % 0x1_0000_0000 + hashVal + key[i]) % 0x1_0000_0000;
      WrapVanishes(before, key[i], hashVal);
      SameResidue(before, Sum(key[..i]), key[i]);
    }
    assert key[..|key|] == key;
    pos := hashVal % 32;
  }

  lemma WrapVanishes(h: nat, c: int, h': int)
    requires h' == (h * 32 % 0x1_0000_0000 + h + c) % 0x1_0000_0000
    ensures h' % 32 == (h + c) % 32
  {
    var shifted := h * 32 % 0x1_0000_0000;
    ReducedAlike(shifted + h + c);
    ReducedAlike(h * 32);
    assert shifted % 32 == 0;
    MultipleAdded(h + c, shifted / 32);
  }

  lemma ReducedAlike(t: int)
    ensures t % 0x1_0000_0000 % 32 == t % 32
  {
    var q, r := t / 0x1_0000_0000, t % 0x1_0000_0000;
    assert t == r + 32 * (0x800_0000 * q);
    MultipleAdded(r, 0x800_0000 * q);
  }

  lemma MultipleAdded(r: int, k: int)
    ensures (r + 32 * k) % 32 == r % 32
  {}

  lemma SameResidue(a: int, b: int, c: int)
    requires a % 32 == b % 32
    ensures (a + c) % 32 == (b + c) % 32
  {
    var k := a / 32 - b / 32;
    assert a == b + 32 * k;
    MultipleAdded(b + c, k);
  }

  lemma {:induction false} SumAppend(a: CString, b: CString)
    ensures Sum(a + b) == Sum(a) + Sum(b)
  {
    if b == [] {
      assert a + b == a;
    } else {
      var last := |b| - 1;
      assert (a + b)[..|a + b| - 1] == a + b[..last];
      SumAppend(a, b[..last]);
    }
  }

  lemma SumWithout(key: CString, i: nat)
    requires i < |key|
    ensures Sum(key) == Sum(key[..i] + key[i + 1..]) + key[i]
  {
    var front, one, back := key[..i], [key[i]], key[i + 1..];
    SumAppend(front + one, back);
    SumAppend(front, one);
    SumAppend(front, back);
    SumOne(key[i]);
    assert key == front + one + back;
  }

  lemma SumOne(c: int)
    ensures Sum([c]) == c
  {
    assert [c][..0] == [];
  }

  /** The home slot of a key is made of those of its characters: that of one character is the
      character modulo 32, and that of two strings in a row their sum modulo 32. */
  lemma HomeOfParts(a: CString, b: CString, c: int)
    ensures Home([]) == 0 && Home([c]) == c % 32
    ensures Home(a + b) == (Home(a) + Home(b)) % 32
  {
    SumOne(c);
    SumAppend(a, b);
    SameResidue(Sum(a), Home(a), Sum(b));
    SameResidue(Sum(b), Home(b), Home(a));
  }

  /** Any rearrangement of a key starts at the same slot. */
  lemma {:induction false} PermutedKeysCollide(a: CString, b: CString)
    requires multiset(a) == multiset(b)
    ensures Home(a) == Home(b)
  {
    PermutedSum(a, b);
  }

  lemma {:induction false} PermutedSum(a: CString, b: CString)
    requires multiset(a) == multiset(b)
    ensures Sum(a) == Sum(b)
  {
    if a == [] {
      assert |multiset(b)| == 0;
    } else {
      var last := |a| - 1;
      assert a == a[..last] + [a[last]];
      assert a[last] in multiset(b);
      var i :| 0 <= i < |b| && b[i] == a[last];
      var rest := b[..i] + b[i + 1..];
      SumWithout(b, i);
      MultisetWithout(b, i);
      assert multiset(a[..last]) == multiset(a) - multiset{a[last]};
      PermutedSum(a[..last], rest);
    }
  }

  lemma MultisetWithout(b: CString, i: nat)
    requires i < |b|
    ensures multiset(b[..i] + b[i + 1..]) == multiset(b) - multiset{b[i]}
  {
    assert b == b[..i] + [b[i]] + b[i + 1..];
  }

  // ---------------------------------------------------------------- the table

  /** The strings that the two 32-byte buffers of a slot hold. */
  datatype Pair = Pair(key: CString, value: CString)

  const FREE := Pair([], [])

  /** `strncpy` of a string without its terminator over a buffer that holds another. */
  function Overlay(value: CString, old_: CString): CString {
    if |value| < |old_| then value + old_[|value|..] else value
  }

  /** The slot d steps after slot h. */
  function Slot(h: nat, d: nat): (p: nat)
    ensures p < 32
  {
    (h + d) % 32
  }

  /** How many steps from slot h to slot p. */
  function Steps(h: nat, p: nat): (d: nat)
    requires h < 32 && p < 32
    ensures d < 32 && Slot(h, d) == p
  {
    if h <= p then p - h else p - h + 32
  }

  type Slots = seq<Pair>

  /** The first d slots of the probe from h are all in use. */
  ghost predicate Passed(s: Slots, h: nat, d: nat)
    requires |s| == 32
  {
    forall e :: 0 <= e < d ==> s[Slot(h, e)] != FREE
  }

  /** A slot in use holds a proper pair, and the probe for its key leads to it. */
  ghost predicate Reached(s: Slots, p: nat)
    requires p < |s| == 32
  {
    s[p] != FREE ==>
      && s[p].key != [] && s[p].value != []
      && Passed(s, Home(s[p].key), Steps(Home(s[p].key), p))
  }

  ghost predicate Stored(s: Slots, key: CString)
    requires |s| == 32
  {
    exists p :: 0 <= p < 32 && s[p].key == key && s[p] != FREE
  }

  /** The probe for the key meets it first after d steps. */
  ghost predicate FirstAt(s: Slots, key: CString, d: nat)
    requires |s| == 32
  {
    && d < 32 && Passed(s, Home(key), d + 1)
    && s[Slot(Home(key), d)].key == key
    && forall e :: 0 <= e < d ==> s[Slot(Home(key), e)].key != key
  }

  /** Looking the key up gives the value. */
  ghost predicate LooksUp(s: Slots, key: CString, value: CString)
    requires |s| == 32
  {
    exists d :: FirstAt(s, key, d) && s[Slot(Home(key), d)].value == value
  }

  ghost function Occupied(s: Slots): (r: set<nat>)
    requires |s| == 32
    ensures forall p :: p in r <==> 0 <= p < 32 && s[p] != FREE
  {
    set p: nat | p < |s| && s[p] != FREE
  }

  /** The keys in the slots are those of m, and looking one up gives its value in m.  A key
      may be in several slots: only the first on its probe matters. */
  ghost predicate Represents(s: Slots, m: map<CString, CString>) {
    && |s| == 32
    && (forall p :: 0 <= p < 32 ==> Reached(s, p))
    && (forall key :: key in m <==> Stored(s, key))
    && (forall key <- m :: LooksUp(s, key, m[key]))
  }

  lemma FirstUnique(s: Slots, key: CString, d: nat, e: nat)
    requires |s| == 32 && FirstAt(s, key, d) && FirstAt(s, key, e)
    ensures d == e
  {}

  /** If the keys on the way are as they were, what is met first is as well. */
  lemma FirstKept(s: Slots, s': Slots, key: CString, d: nat)
    requires |s| == |s'| == 32 && FirstAt(s, key, d)
    requires forall p :: 0 <= p < 32 && s[p] != FREE ==> s'[p] != FREE && s'[p].key == s[p].key
    ensures FirstAt(s', key, d)
  {
    assert forall e :: 0 <= e <= d ==> s[Slot(Home(key), e)] != FREE;
  }

  lemma FreeSlotExists(s: Slots) returns (free: nat)
    requires |s| == 32 && |Occupied(s)| < 32
    ensures free < 32 && s[free] == FREE
  {
    assert Occupied(s) != Below(|s|);
    free :| free < 32 && s[free] == FREE;
  }

  /** A probe cannot pass a free slot, so it makes fewer than 32 steps. */
  lemma ProbeEnds(s: Slots, h: nat, d: nat, free: nat)
    requires |s| == 32 && h < 32 && free < 32 && s[free] == FREE && Passed(s, h, d)
    ensures d <= Steps(h, free)
  {
    assert Slot(h, Steps(h, free)) == free;
  }

  lemma StepsToSlot(h: nat, d: nat)
    requires h < 32 && d < 32
    ensures Steps(h, Slot(h, d)) == d
  {}

  /** One step of the probe, from a slot in use. */
  lemma ProbeStep(s: Slots, h: nat, d: nat, free: nat)
    requires |s| == 32 && h < 32 && free < 32 && s[free] == FREE
    requires Passed(s, h, d) && s[Slot(h, d)] != FREE
    ensures Passed(s, h, d + 1) && Slot(h, d + 1) == (Slot(h, d) + 1) % 32
    ensures d + 1 <= Steps(h, free)
  {
    ProbeEnds(s, h, d, free);
    assert Slot(h, Steps(h, free)) == free;
    StepTowards(s, h, d, Steps(h, free));
  }

  /** Storing a pair in the first free slot of its probe.  A key that the probe meets before
      keeps its value; any other then has the new one. */
  lemma RepresentsStored(s: Slots, m: map<CString, CString>, key: CString, value: CString, d: nat)
    requires Represents(s, m) && key != [] && value != []
    requires d < 32 && s[Slot(Home(key), d)] == FREE && Passed(s, Home(key), d)
    ensures Represents(s[Slot(Home(key), d) := Pair(key, value)], if key in m then m else m[key := value])
  {
    var pos := Slot(Home(key), d);
    var s', m' := s[pos := Pair(key, value)], if key in m then m else m[key := value];
    StepsToSlot(Home(key), d);
    forall p | 0 <= p < 32 ensures Reached(s', p) {
      assert Reached(s, p);
      if p == pos {
        PassedKept(s, s', Home(key), d);
      } else if s[p] != FREE {
        PassedKept(s, s', Home(s[p].key), Steps(Home(s[p].key), p));
      }
    }
    StoredStill(s, m, pos, Pair(key, value));
    forall k <- m' ensures LooksUp(s', k, m'[k]) {
      if k in m {
        var e :| FirstAt(s, k, e) && s[Slot(Home(k), e)].value == m[k];
        FirstKept(s, s', k, e);
        assert s[Slot(Home(k), e)] != FREE;
      } else {
        NewFirst(s, m, key, value, d);
      }
    }
  }

  lemma StoredStill(s: Slots, m: map<CString, CString>, pos: nat, pair: Pair)
    requires Represents(s, m) && pos < 32 && s[pos] == FREE != pair
    ensures forall k :: Stored(s[pos := pair], k) <==> k in m || k == pair.key
  {
    var s' := s[pos := pair];
    forall k ensures Stored(s', k) <==> k in m || k == pair.key {
      if k == pair.key {
        assert s'[pos].key == k;
      } else if k in m {
        StoredKept(s, pos, pair, k);
      } else {
        assert !Stored(s, k);
      }
    }
  }

  lemma NewFirst(s: Slots, m: map<CString, CString>, key: CString, value: CString, d: nat)
    requires Represents(s, m) && key !in m && key != []
    requires d < 32 && s[Slot(Home(key), d)] == FREE && Passed(s, Home(key), d)
    ensures LooksUp(s[Slot(Home(key), d) := Pair(key, value)], key, value)
  {
    var h, pos := Home(key), Slot(Home(key), d);
    var s' := s[pos := Pair(key, value)];
    forall e | 0 <= e < d ensures s'[Slot(h, e)].key != key && s'[Slot(h, e)] != FREE {
      assert !Stored(s, key);
      assert s[Slot(h, e)] != FREE;
    }
    assert FirstAt(s', key, d);
  }

  lemma OccupiedGrows(s: Slots, pos: nat, pair: Pair)
    requires pos < |s| == 32 && s[pos] == FREE != pair
    ensures |Occupied(s[pos := pair])| == |Occupied(s)| + 1
  {
    assert Occupied(s[pos := pair]) == Occupied(s) + {pos};
  }

  /** Giving the slot at which the probe first meets a key another value. */
  lemma RepresentsRevalued(s: Slots, m: map<CString, CString>, key: CString, d: nat, value: CString)
    requires Represents(s, m) && FirstAt(s, key, d) && value != [] && key != []
    ensures var pos := Slot(Home(key), d);
      key in m && Represents(s[pos := Pair(key, value)], m[key := value])
  {
    var pos := Slot(Home(key), d);
    var s', m' := s[pos := Pair(key, value)], m[key := value];
    assert Stored(s, key);
    SameKeys(s, m, pos, value);
    forall k <- m' ensures LooksUp(s', k, m'[k]) {
      var e :| FirstAt(s, k, e) && s[Slot(Home(k), e)].value == m[k];
      FirstKept(s, s', k, e);
      if k == key {
        FirstUnique(s, key, d, e);
      }
    }
  }

  /** Giving a slot that no probe meets first another value. */
  lemma RepresentsShadowed(s: Slots, m: map<CString, CString>, key: CString, d: nat, value: CString)
    requires Represents(s, m) && 0 < d < 32 && value != []
    requires s[Slot(Home(key), d)] != FREE && s[Slot(Home(key), d)].key == key && s[Home(key)].key == key
    ensures Represents(s[Slot(Home(key), d) := Pair(key, value)], m)
  {
    var pos := Slot(Home(key), d);
    var s' := s[pos := Pair(key, value)];
    assert Slot(Home(key), 0) == Home(key);
    SameKeys(s, m, pos, value);
    forall k <- m ensures LooksUp(s', k, m[k]) {
      var e :| FirstAt(s, k, e) && s[Slot(Home(k), e)].value == m[k];
      FirstKept(s, s', k, e);
      if k == key {
        assert e == 0;
      }
    }
  }

  lemma SameKeys(s: Slots, m: map<CString, CString>, pos: nat, value: CString)
    requires Represents(s, m) && pos < 32 && s[pos] != FREE && value != []
    ensures var s' := s[pos := Pair(s[pos].key, value)];
      && (forall p :: 0 <= p < 32 ==> Reached(s', p))
      && (forall k :: k in m <==> Stored(s', k))
      && Occupied(s') == Occupied(s)
  {
    var s' := s[pos := Pair(s[pos].key, value)];
    assert Reached(s, pos);
    forall p | 0 <= p < 32 ensures Reached(s', p) {
      assert Reached(s, p);
      if s[p] != FREE {
        PassedKept(s, s', Home(s[p].key), Steps(Home(s[p].key), p));
      }
    }
    forall k ensures k in m <==> Stored(s', k) {
      if Stored(s, k) {
        var p :| 0 <= p < 32 && s[p].key == k && s[p] != FREE;
        assert s'[p].key == k;
      }
      if Stored(s', k) {
        var p :| 0 <= p < 32 && s'[p].key == k && s'[p] != FREE;
        assert s[p].key == k && s[p] != FREE;
      }
    }
  }

  lemma StoredKept(s: Slots, pos: nat, pair: Pair, k: CString)
    requires pos < |s| == 32 && s[pos] == FREE && Stored(s, k)
    ensures Stored(s[pos := pair], k)
  {
    var p :| 0 <= p < 32 && s[p].key == k && s[p] != FREE;
    assert s[pos := pair][p] == s[p];
  }

  lemma PassedKept(s: Slots, s': Slots, h: nat, d: nat)
    requires |s| == |s'| == 32 && Passed(s, h, d)
    requires forall p :: 0 <= p < 32 && s[p] != FREE ==> s'[p] != FREE
    ensures Passed(s', h, d)
  {}

  /** A probe that meets a free slot before the key proves the key absent. */
  lemma AbsentAtFree(s: Slots, m: map<CString, CString>, key: CString, d: nat)
    requires Represents(s, m)
    requires d < 32 && s[Slot(Home(key), d)] == FREE
    requires forall e :: 0 <= e < d ==> s[Slot(Home(key), e)].key != key
    ensures key !in m
  {
    assert forall e: nat :: FirstAt(s, key, e) ==> e < d;
  }

  /** The key is in the slot where its probe starts. */
  ghost predicate AtHome(s: Slots, key: CString)
    requires |s| == 32
  {
    s[Home(key)].key == key
  }

  /** What an insertion does to the settings.  The home slot is never compared with the key: a
      key that is there keeps its value. */
  ghost function Inserted(m: map<CString, CString>, atHome: bool, key: CString, value: CString): map<CString, CString> {
    if key !in m then m[key := value]
    else if atHome then m
    else m[key := Overlay(value, m[key])]
  }

  /** Slots in use keep their keys, and no key of the settings comes to or leaves its home. */
  ghost predicate KeysStay(s: Slots, s': Slots, m: map<CString, CString>)
    requires |s| == |s'| == 32
  {
    && (forall p :: 0 <= p < 32 && s[p] != FREE ==> s'[p].key == s[p].key)
    && (forall k <- m :: AtHome(s', k) <==> AtHome(s, k))
  }

  // ---------------------------------------------------------------- where probes end

  /** The insertion probe ends after d steps: on a free slot, or on a slot after the home slot
      that holds the key. */
  ghost predicate Stops(s: Slots, key: CString, d: nat)
    requires |s| == 32
  {
    && d < 32 && Passed(s, Home(key), d)
    && (forall e :: 0 < e < d ==> s[Slot(Home(key), e)].key != key)
    && (s[Slot(Home(key), d)] == FREE || (d > 0 && s[Slot(Home(key), d)].key == key))
  }

  /** The insertion probe ends at all; on a full table it may go round for ever. */
  ghost predicate CanInsert(s: Slots, key: CString)
    requires |s| == 32
  {
    exists d :: Stops(s, key, d)
  }

  /** The lookup probe ends at all. */
  ghost predicate CanFind(s: Slots, key: CString)
    requires |s| == 32
  {
    Stored(s, key) || exists p :: 0 <= p < 32 && s[p] == FREE
  }

  /** One step of a probe that ends at `stop` and has not ended yet. */
  lemma StepTowards(s: Slots, h: nat, d: nat, stop: nat)
    requires |s| == 32 && h < 32 && d < stop < 32 && Passed(s, h, d) && s[Slot(h, d)] != FREE
    ensures Passed(s, h, d + 1) && Slot(h, d + 1) == (Slot(h, d) + 1) % 32
  {}

  lemma StopsHere(s: Slots, key: CString, d: nat, stop: nat)
    requires |s| == 32 && key != [] && Stops(s, key, stop) && d <= stop && Passed(s, Home(key), d)
    requires forall e :: 0 < e < d ==> s[Slot(Home(key), e)].key != key
    requires s[Slot(Home(key), d)] == FREE || (d > 0 && s[Slot(Home(key), d)].key == key)
    ensures Stops(s, key, d)
  {}

  lemma StopsUnique(s: Slots, key: CString, d: nat, e: nat)
    requires |s| == 32 && key != [] && Stops(s, key, d) && Stops(s, key, e)
    ensures d == e
  {}

  lemma FindStop(s: Slots, key: CString, d: nat, free: nat)
    requires |s| == 32 && free < 32 && s[free] == FREE
    requires d <= Steps(Home(key), free) && Passed(s, Home(key), d)
    requires forall e :: 0 < e < d ==> s[Slot(Home(key), e)].key != key
    ensures CanInsert(s, key)
    decreases 32 - d
  {
    var p := Slot(Home(key), d);
    if s[p] == FREE || (d > 0 && s[p].key == key) {
      assert Stops(s, key, d);
    } else {
      ProbeStep(s, Home(key), d, free);
      FindStop(s, key, d + 1, free);
    }
  }

  /** With a free slot every insertion probe ends. */
  lemma RoomStops(s: Slots, key: CString)
    requires |s| == 32 && |Occupied(s)| < 32
    ensures CanInsert(s, key)
  {
    var free := FreeSlotExists(s);
    FindStop(s, key, 0, free);
  }

  /** What an insertion does to the slots. */
  ghost function Insertion(s: Slots, key: CString, value: CString): (s': Slots)
    requires |s| == 32 && CanInsert(s, key)
    ensures |s'| == 32
  {
    var d :| Stops(s, key, d);
    var pos := Slot(Home(key), d);
    s[pos := Pair(key, Overlay(value, s[pos].value))]
  }

  class Config {
    const table: array<Pair>
    var size: int
    ghost var entries: map<CString, CString>

    /** The table represents `entries`, and `size` counts the slots in use. */
    ghost predicate Valid()
      reads this, table
    {
      && table.Length == 32
      && Represents(table[..], entries)
      && size == |Occupied(table[..])|
    }

    constructor ()
      ensures Valid() && fresh(table) && entries == map[] && size == 0
      ensures forall p :: 0 <= p < 32 ==> table[p] == FREE
    {
      table := new Pair[32](_ => FREE);
      size := 0;
      entries := map[];
      new;
      assert Occupied(table[..]) == {};
    }

    /** The probe of `Insert`: on to a free slot, or to a slot after the home slot that
        holds the key already. */
    method Seek(key: CString) returns (pos: nat, hit: bool, ghost d: nat)
      requires Valid() && key != [] && CanInsert(table[..], key)
      ensures Stops(table[..], key, d)
      ensures d < 32 && pos == Slot(Home(key), d)
      ensures Passed(table[..], Home(key), d)
      ensures forall e :: 0 < e < d ==> table[..][Slot(Home(key), e)].key != key
      ensures hit ==> d > 0 && table[pos].key == key && table[pos] != FREE
      ensures !hit ==> table[pos] == FREE
    {
      pos := CfgHash(key);
      ghost var s, home := table[..], pos;
      ghost var stop :| Stops(s, key, stop);
      d := 0;
      while table[pos].value != []
        invariant pos == Slot(home, d) && Passed(s, home, d) && d <= stop
        invariant forall e :: 0 < e <= d ==> s[Slot(home, e)].key != key
        decreases 32 - d
      {
        assert Reached(s, pos);
        assert d != stop;
        StepTowards(s, home, d, stop);
        pos, d := (pos + 1) % 32, d + 1;
        if table[pos].key == key {
          StopsHere(s, key, d, stop);
          return pos, true, d;
        }
      }
      assert Reached(s, pos);
      StopsHere(s, key, d, stop);
      hit := false;
    }

    /** Adds a setting, in place of another if there is one. */
    method Insert(key: CString, value: CString)
      requires Valid() && CanInsert(table[..], key)
      requires 0 < |key| < BUFFER && 0 < |value| < BUFFER
      modifies this, table
      ensures Valid() && size <= old(size) + 1
      ensures entries == Inserted(old(entries), AtHome(old(table[..]), key), key, value)
      ensures KeysStay(old(table[..]), table[..], old(entries))
      ensures AtHome(table[..], key) <==> old(table[..])[Home(key)] == FREE || AtHome(old(table[..]), key)
      ensures table[..] == Insertion(old(table[..]), key, value)
    {
      var pos, hit, d := Seek(key);
      ghost var s := table[..];
      InsertionKeeps(s, entries, key, value, d);
      if hit {
        table[pos] := table[pos].(value := Overlay(value, table[pos].value));
      } else {
        table[pos] := Pair(Overlay(key, table[pos].key), Overlay(value, table[pos].value));
        size := size + 1;
      }
      assert table[..] == s[pos := Pair(key, Overlay(value, s[pos].value))];
      entries := Inserted(entries, AtHome(s, key), key, value);
    }

    /** The value stored for a key, or nothing. */
    method Find(key: CString) returns (found: bool, value: CString)
      requires Valid() && CanFind(table[..], key)
      ensures found <==> key in entries
      ensures found ==> value == entries[key]
    {
      var pos := CfgHash(key);
      ghost var s: Slots := table[..];
      ghost var stop := FindEnds(s, entries, key);
      ghost var d := 0;
      while table[pos].key != []
        invariant pos == Slot(Home(key), d) && Passed(s, Home(key), d) && d <= stop
        invariant forall e :: 0 <= e < d ==> s[Slot(Home(key), e)].key != key
        decreases 32 - d
      {
        if table[pos].key == key {
          FoundAt(s, entries, key, d);
          return true, table[pos].value;
        }
        assert d != stop;
        StepTowards(s, Home(key), d, stop);
        pos, d := (pos + 1) % 32, d + 1;
      }
      assert Reached(s, pos);
      AbsentAtFree(s, entries, key, d);
      return false, [];
    }
  }

  /** What an insertion keeps, and whether it takes a slot. */
  lemma InsertionKeeps(s: Slots, m: map<CString, CString>, key: CString, value: CString, d: nat)
    requires Represents(s, m) && Stops(s, key, d) && key != [] && value != []
    ensures var pos := Slot(Home(key), d); var s' := Insertion(s, key, value);
      && s' == s[pos := Pair(key, Overlay(value, s[pos].value))]
      && Represents(s', Inserted(m, AtHome(s, key), key, value)) && KeysStay(s, s', m)
      && (AtHome(s', key) <==> s[Home(key)] == FREE || AtHome(s, key))
      && |Occupied(s')| == |Occupied(s)| + if s[pos] == FREE then 1 else 0
  {
    InsertionAt(s, key, value, d);
    HomeAfter(s, key, value, d);
    if s[Slot(Home(key), d)] == FREE {
      Adding(s, m, key, d, value);
    } else {
      Overwriting(s, m, key, d, value);
    }
  }

  lemma HomeAfter(s: Slots, key: CString, value: CString, d: nat)
    requires |s| == 32 && Stops(s, key, d) && key != []
    ensures var pos := Slot(Home(key), d);
      AtHome(s[pos := Pair(key, Overlay(value, s[pos].value))], key) <==> s[Home(key)] == FREE || AtHome(s, key)
  {
    assert Slot(Home(key), 0) == Home(key);
    StepsToSlot(Home(key), d);
  }

  lemma InsertionAt(s: Slots, key: CString, value: CString, d: nat)
    requires |s| == 32 && key != [] && Stops(s, key, d)
    ensures var pos := Slot(Home(key), d);
      Insertion(s, key, value) == s[pos := Pair(key, Overlay(value, s[pos].value))]
  {
    var e :| Stops(s, key, e) && Insertion(s, key, value) ==
      s[Slot(Home(key), e) := Pair(key, Overlay(value, s[Slot(Home(key), e)].value))];
    StopsUnique(s, key, d, e);
  }

  /** Where a lookup probe ends at the latest. */
  lemma FindEnds(s: Slots, m: map<CString, CString>, key: CString) returns (stop: nat)
    requires Represents(s, m) && CanFind(s, key)
    ensures stop < 32
    ensures s[Slot(Home(key), stop)] == FREE || s[Slot(Home(key), stop)].key == key
  {
    if Stored(s, key) {
      stop :| FirstAt(s, key, stop) && s[Slot(Home(key), stop)].value == m[key];
    } else {
      var p :| 0 <= p < 32 && s[p] == FREE;
      stop := Steps(Home(key), p);
    }
  }

  lemma FoundAt(s: Slots, m: map<CString, CString>, key: CString, d: nat)
    requires Represents(s, m) && d < 32 && Passed(s, Home(key), d)
    requires s[Slot(Home(key), d)] != FREE && s[Slot(Home(key), d)].key == key
    requires forall e :: 0 <= e < d ==> s[Slot(Home(key), e)].key != key
    ensures key in m && s[Slot(Home(key), d)].value == m[key]
  {
    assert FirstAt(s, key, d);
    FoundFirst(s, m, key, d);
  }

  lemma FoundFirst(s: Slots, m: map<CString, CString>, key: CString, d: nat)
    requires Represents(s, m) && FirstAt(s, key, d)
    ensures key in m && s[Slot(Home(key), d)].value == m[key]
  {
    assert Stored(s, key);
    var e :| FirstAt(s, key, e) && s[Slot(Home(key), e)].value == m[key];
    FirstUnique(s, key, d, e);
  }

  /** The probe has met the key in a slot after the home slot. */
  lemma Overwriting(s: Slots, m: map<CString, CString>, key: CString, d: nat, value: CString)
    requires Represents(s, m) && 0 < d < 32 && key != [] && value != []
    requires Passed(s, Home(key), d) && forall e :: 0 < e < d ==> s[Slot(Home(key), e)].key != key
    requires s[Slot(Home(key), d)] != FREE && s[Slot(Home(key), d)].key == key
    ensures var pos := Slot(Home(key), d);
      var s' := s[pos := Pair(key, Overlay(value, s[pos].value))];
      && Represents(s', Inserted(m, AtHome(s, key), key, value))
      && KeysStay(s, s', m) && Occupied(s') == Occupied(s)
  {
    var pos := Slot(Home(key), d);
    SameKeys(s, m, pos, Overlay(value, s[pos].value));
    assert Stored(s, key);
    if AtHome(s, key) {
      RepresentsShadowed(s, m, key, d, Overlay(value, s[pos].value));
    } else {
      OverwritingFirst(s, m, key, d, value);
    }
  }

  lemma OverwritingFirst(s: Slots, m: map<CString, CString>, key: CString, d: nat, value: CString)
    requires Represents(s, m) && 0 < d < 32 && key != [] && value != [] && !AtHome(s, key)
    requires Passed(s, Home(key), d) && forall e :: 0 < e < d ==> s[Slot(Home(key), e)].key != key
    requires s[Slot(Home(key), d)] != FREE && s[Slot(Home(key), d)].key == key
    ensures var pos := Slot(Home(key), d);
      key in m && Represents(s[pos := Pair(key, Overlay(value, s[pos].value))], m[key := Overlay(value, m[key])])
  {
    assert Slot(Home(key), 0) == Home(key);
    assert FirstAt(s, key, d);
    FoundFirst(s, m, key, d);
    RepresentsRevalued(s, m, key, d, Overlay(value, m[key]));
  }

  /** The probe has met a free slot. */
  lemma Adding(s: Slots, m: map<CString, CString>, key: CString, d: nat, value: CString)
    requires Represents(s, m) && d < 32 && key != [] && value != []
    requires Passed(s, Home(key), d) && forall e :: 0 < e < d ==> s[Slot(Home(key), e)].key != key
    requires s[Slot(Home(key), d)] == FREE
    ensures var s' := s[Slot(Home(key), d) := Pair(key, value)];
      && Represents(s', Inserted(m, AtHome(s, key), key, value))
      && KeysStay(s, s', m) && |Occupied(s')| == |Occupied(s)| + 1
  {
    var pos := Slot(Home(key), d);
    RepresentsStored(s, m, key, value, d);
    OccupiedGrows(s, pos, Pair(key, value));
    assert Slot(Home(key), 0) == Home(key);
    if !AtHome(s, key) {
      AbsentAtFree(s, m, key, d);
    }
    StoredKeysProper(s, m);
  }

  lemma StoredKeysProper(s: Slots, m: map<CString, CString>)
    requires Represents(s, m)
    ensures [] !in m
  {
    forall p | 0 <= p < 32 ensures s[p] != FREE ==> s[p].key != [] {
      assert Reached(s, p);
    }
  }

  /** Whether a lookup after an insertion gives the value inserted: exactly if the key was
      new, or was outside its home slot with a value that is not longer, or had the value
      already. */
  lemma InsertedIff(m: map<CString, CString>, atHome: bool, key: CString, value: CString)
    ensures key in Inserted(m, atHome, key, value)
    ensures Inserted(m, atHome, key, value)[key] == value <==>
      || key !in m
      || (!atHome && |m[key]| <= |value|)
      || (atHome && m[key] == value)
  {
    if key in m && !atHome && |value| < |m[key]| {
      assert |Overlay(value, m[key])| == |m[key]|;
    }
  }

  /** A key that is inserted twice, the first time into an empty table: looking it up gives
      the first value, whatever the second. */
  method RepeatedKey(key: CString, first: CString, second: CString) returns (found: bool, value: CString)
    requires 0 < |key| < BUFFER && 0 < |first| < BUFFER && 0 < |second| < BUFFER
    ensures found && value == first
  {
    var conf := new Config();
    RoomStops(conf.table[..], key);
    conf.Insert(key, first);
    RoomStops(conf.table[..], key);
    conf.Insert(key, second);
    FreeSlotLeft(conf.table[..]);
    found, value := conf.Find(key);
  }

  lemma FreeSlotLeft(s: Slots)
    requires |s| == 32 && |Occupied(s)| < 32
    ensures exists p :: 0 <= p < 32 && s[p] == FREE
  {
    var free := FreeSlotExists(s);
    assert s[free] == FREE;
  }

  /** A key that is inserted twice when a rearrangement of it has taken its home slot: a shorter
      second value is followed by the tail of the first. */
  method OverlaidKey(other: CString, key: CString, first: CString, second: CString) returns (found: bool, value: CString)
    requires multiset(other) == multiset(key) && other != key
    requires 0 < |other| < BUFFER && 0 < |key| < BUFFER && 0 < |second| < |first| < BUFFER
    ensures found && value == second + first[|second|..] && value != second
  {
    PermutedKeysCollide(other, key);
    var conf := new Config();
    RoomStops(conf.table[..], other);
    conf.Insert(other, first);
    RoomStops(conf.table[..], key);
    conf.Insert(key, first);
    RoomStops(conf.table[..], key);
    conf.Insert(key, second);
    FreeSlotLeft(conf.table[..]);
    found, value := conf.Find(key);
  }

  // ---------------------------------------------------------------- a whole file of settings

  ghost predicate Sets(lines: seq<Pair>, key: CString) {
    exists i :: 0 <= i < |lines| && lines[i].key == key
  }

  /** The value that a key has after the lines: the first line's if the key is at home;
      otherwise each line in turn overlays what was there. */
  ghost function Settled(lines: seq<Pair>, key: CString, atHome: bool): CString {
    if lines == [] then []
    else
      var last, before := lines[|lines| - 1], Settled(lines[..|lines| - 1], key, atHome);
      if last.key != key then before
      else if before == [] then last.value
      else if atHome then before
      else Overlay(last.value, before)
  }

  ghost predicate LinesProper(lines: seq<Pair>) {
    forall i :: 0 <= i < |lines| ==> 0 < |lines[i].key| < BUFFER && 0 < |lines[i].value| < BUFFER
  }

  lemma {:induction false} SettledSets(lines: seq<Pair>, key: CString, atHome: bool)
    requires LinesProper(lines)
    ensures Settled(lines, key, atHome) != [] <==> Sets(lines, key)
  {
    if lines != [] {
      var n := |lines| - 1;
      SettledSets(lines[..n], key, atHome);
      SetsAppend(lines, n, key);
    }
  }

  lemma SetsAppend(lines: seq<Pair>, n: nat, key: CString)
    requires n < |lines|
    ensures Sets(lines[..n + 1], key) <==> Sets(lines[..n], key) || lines[n].key == key
    ensures lines[..n + 1][..n] == lines[..n]
    ensures n + 1 == |lines| ==> lines[..n + 1] == lines
  {
    assert forall i :: 0 <= i < n ==> lines[..n][i] == lines[..n + 1][i];
    assert lines[..n + 1][n] == lines[n];
  }

  ghost predicate KeysDistinct(lines: seq<Pair>) {
    forall i, j :: 0 <= i < j < |lines| ==> lines[i].key != lines[j].key
  }

  /** With distinct keys every line decides its key's value. */
  lemma {:induction false} SettledDistinct(lines: seq<Pair>, i: nat, atHome: bool)
    requires LinesProper(lines) && KeysDistinct(lines) && i < |lines|
    ensures Settled(lines, lines[i].key, atHome) == lines[i].value
  {
    var n := |lines| - 1;
    var front := lines[..n];
    if i < n {
      SettledDistinct(front, i, atHome);
    } else {
      SettledSets(front, lines[n].key, atHome);
      assert forall j :: 0 <= j < n ==> front[j] == lines[j];
    }
  }

  /** The settings after some lines. */
  ghost predicate Loaded(lines: seq<Pair>, s: Slots, m: map<CString, CString>)
    requires |s| == 32
  {
    && (forall key :: key in m <==> Sets(lines, key))
    && (forall key <- m :: m[key] == Settled(lines, key, AtHome(s, key)))
  }

  lemma LoadedNext(lines: seq<Pair>, i: nat, s: Slots, m: map<CString, CString>, s': Slots)
    requires LinesProper(lines) && i < |lines| && |s| == |s'| == 32
    requires Loaded(lines[..i], s, m) && KeysStay(s, s', m)
    ensures Loaded(lines[..i + 1], s', Inserted(m, AtHome(s, lines[i].key), lines[i].key, lines[i].value))
  {
    var front, last := lines[..i], lines[i];
    var m' := Inserted(m, AtHome(s, last.key), last.key, last.value);
    forall key ensures key in m' <==> Sets(lines[..i + 1], key) {
      SetsAppend(lines, i, key);
    }
    forall key <- m' ensures m'[key] == Settled(lines[..i + 1], key, AtHome(s', key)) {
      SetsAppend(lines, i, key);
      SettledSets(front, key, AtHome(s', key));
      assert lines[..i + 1][i] == last;
    }
  }

  /** Every line finds a place: none of the probes goes round for ever. */
  ghost predicate Room(s: Slots, lines: seq<Pair>)
    requires |s| == 32
    decreases |lines|
  {
    lines == [] || (CanInsert(s, lines[0].key) && Room(Insertion(s, lines[0].key, lines[0].value), lines[1..]))
  }

  ghost function Empty(): (s: Slots)
    ensures |s| == 32
  {
    seq(32, _ => FREE)
  }

  /** As many lines as there are slots left always find a place. */
  lemma {:induction false} RoomEnough(s: Slots, lines: seq<Pair>)
    requires |s| == 32 && LinesProper(lines) && |Occupied(s)| + |lines| <= 32
    ensures Room(s, lines)
    decreases |lines|
  {
    if lines != [] {
      var key, value := lines[0].key, lines[0].value;
      RoomStops(s, key);
      var d :| Stops(s, key, d);
      InsertionAt(s, key, value, d);
      var s' := Insertion(s, key, value);
      assert Occupied(s') == Occupied(s) + {Slot(Home(key), d)};
      RoomEnough(s', lines[1..]);
    }
  }

  /** Loads the settings, line by line, repeated keys included.  A key is found afterwards
      exactly if some line sets it. */
  method ReadConfig(lines: seq<Pair>) returns (conf: Config)
    requires LinesProper(lines) && Room(Empty(), lines)
    ensures conf.Valid() && Loaded(lines, conf.table[..], conf.entries)
  {
    conf := new Config();
    assert conf.table[..] == Empty();
    assert lines[0..] == lines;
    for i := 0 to |lines|
      invariant conf.Valid() && fresh(conf) && fresh(conf.table)
      invariant Loaded(lines[..i], conf.table[..], conf.entries)
      invariant Room(conf.table[..], lines[i..])
    {
      ghost var s, m := conf.table[..], conf.entries;
      assert lines[i..][0] == lines[i] && lines[i..][1..] == lines[i + 1..];
      conf.Insert(lines[i].key, lines[i].value);
      LoadedNext(lines, i, s, m, conf.table[..]);
    }
    assert lines[..|lines|] == lines;
  }
}
