/** The 32-bit mixing hash that spreads client descriptors over the buckets of the
    client map.  All its arithmetic is modulo 2^32, hence `bv32`.  Each stage is a
    named function, so that the proof of invertibility can work stage by stage. */
module MurmurHash {

  type Key = s: seq<bv8> | |s| < 0x8000_0000

  // ---------------------------------------------------------------- the stages

  /** Multiplication by the odd constant m, and by its inverse modulo 2^32. */
  function Times(x: bv32): bv32 { x * 0x5bd1e995 }

  function Untimes(x: bv32): bv32 { x * 0xe59b19bd }

  function Xor(x: bv32, y: bv32): bv32 { x ^ y }

  function Fold13(x: bv32): bv32 { x ^ (x >> 13) }

  function Unfold13(x: bv32): bv32 { x ^ (x >> 13) ^ (x >> 26) }

  function Fold15(x: bv32): bv32 { x ^ (x >> 15) }

  function Unfold15(x: bv32): bv32 { x ^ (x >> 15) ^ (x >> 30) }

  /** Folding by 24 bits is its own inverse, because 24 + 24 exceeds the width. */
  function Fold24(x: bv32): bv32 { x ^ (x >> 24) }

  function Scramble(k: bv32): bv32 { Times(Fold24(Times(k))) }

  function Unscramble(k: bv32): bv32 { Untimes(Fold24(Untimes(k))) }

  function Finish(h: bv32): bv32 { Fold15(Times(Fold13(h))) }

  function Unfinish(h: bv32): bv32 { Unfold13(Untimes(Unfold15(h))) }

  // ---------------------------------------------------------------- keys of any length

  function Widen(b: bv8): bv32 { b as bv32 }

  /** The word stored in four bytes, least significant byte first. */
  function Word(b0: bv8, b1: bv8, b2: bv8, b3: bv8): bv32 {
    Widen(b0) | (Widen(b1) << 8) | (Widen(b2) << 16) | (Widen(b3) << 24)
  }

  function AbsorbTail(data: seq<bv8>, h: bv32): bv32
    requires |data| < 4
  {
    if |data| == 0 then h
    else
      var h3 := if |data| == 3 then Xor(h, Widen(data[2]) << 16) else h;
      var h2 := if |data| >= 2 then Xor(h3, Widen(data[1]) << 8) else h3;
      Times(Xor(h2, Widen(data[0])))
  }

  function AbsorbAll(data: seq<bv8>, h: bv32): bv32 {
    if |data| >= 4 then
      AbsorbAll(data[4..], Xor(Times(h), Scramble(Word(data[0], data[1], data[2], data[3]))))
    else
      AbsorbTail(data, h)
  }

  function LengthWord(n: nat): bv32
    requires n < 0x8000_0000
  {
    n as bv32
  }

  /** What the hash of a key of any length means. */
  function HashBytes(key: Key, seed: bv32): bv32 {
    Finish(AbsorbAll(key, Xor(seed, LengthWord(|key|))))
  }

  /** The loop of the source: whole words first, then the bytes that are left over. */
  method Hash(key: Key, seed: bv32) returns (h: bv32)
    ensures h == HashBytes(key, seed)
  {
    h := Xor(seed, LengthWord(|key|));
    ghost var h0 := h;
    var data := key;
    while |data| >= 4
      invariant AbsorbAll(data, h) == AbsorbAll(key, h0)
    {
      var k := Word(data[0], data[1], data[2], data[3]);
      k := Times(k);
      k := Fold24(k);
      k := Times(k);
      h := Times(h);
      h := Xor(h, k);
      data := data[4..];
    }
    h := HashTail(data, h);
    h := Fold13(h);
    h := Times(h);
    h := Fold15(h);
  }

  /** The switch that falls through from three left-over bytes to one. */
  method HashTail(data: seq<bv8>, h0: bv32) returns (h: bv32)
    requires |data| < 4
    ensures h == AbsorbAll(data, h0)
  {
    h := h0;
    if |data| == 3 {
      h := Xor(h, Widen(data[2]) << 16);
    }
    if |data| >= 2 {
      h := Xor(h, Widen(data[1]) << 8);
    }
    if |data| >= 1 {
      h := Xor(h, Widen(data[0]));
      h := Times(h);
    }
  }

  // ---------------------------------------------------------------- four-byte keys

  /** The hash of a four-byte key, given as a word: one round and no tail. */
  function HashWord(k: bv32, seed: bv32): bv32 {
    Finish(Xor(Times(Xor(seed, 4)), Scramble(k)))
  }

  lemma FourByteKey(b0: bv8, b1: bv8, b2: bv8, b3: bv8, seed: bv32)
    ensures HashBytes([b0, b1, b2, b3], seed) == HashWord(Word(b0, b1, b2, b3), seed)
  {
    var key := [b0, b1, b2, b3];
    var h := Xor(seed, 4);
    assert key[4..] == [];
    assert AbsorbAll(key, h) == AbsorbAll([], Xor(Times(h), Scramble(Word(b0, b1, b2, b3))));
    assert LengthWord(|key|) == 4;
  }

  /** The word that hashes to h under the seed. */
  function UnhashWord(h: bv32, seed: bv32): bv32 {
    Unscramble(Xor(Times(Xor(seed, 4)), Unfinish(h)))
  }

  lemma TimesInverts(x: bv32)
    ensures Untimes(Times(x)) == x && Times(Untimes(x)) == x
  {
    assert Untimes(x * 0x5bd1e995) == x;
    assert Times(x * 0xe59b19bd) == x;
  }

  lemma FoldsInvert(x: bv32)
    ensures Unfold13(Fold13(x)) == x && Fold13(Unfold13(x)) == x
    ensures Unfold15(Fold15(x)) == x && Fold15(Unfold15(x)) == x
    ensures Fold24(Fold24(x)) == x
  {}

  lemma XorInverts(a: bv32, b: bv32)
    ensures Xor(a, Xor(a, b)) == b
  {}

  lemma FinishInverts(x: bv32)
    ensures Unfinish(Finish(x)) == x
  {
    FoldsInvert(x);
    TimesInverts(Fold13(x));
    FoldsInvert(Times(Fold13(x)));
  }

  lemma UnfinishInverts(x: bv32)
    ensures Finish(Unfinish(x)) == x
  {
    FoldsInvert(x);
    TimesInverts(Unfold15(x));
    FoldsInvert(Untimes(Unfold15(x)));
  }

  lemma ScrambleInverts(x: bv32)
    ensures Unscramble(Scramble(x)) == x
  {
    TimesInverts(x);
    FoldsInvert(Times(x));
    TimesInverts(Fold24(Times(x)));
  }

  lemma UnscrambleInverts(x: bv32)
    ensures Scramble(Unscramble(x)) == x
  {
    TimesInverts(x);
    FoldsInvert(Untimes(x));
    TimesInverts(Fold24(Untimes(x)));
  }

  lemma HashThenUnhash(k: bv32, seed: bv32)
    ensures UnhashWord(HashWord(k, seed), seed) == k
  {
    var s := Times(Xor(seed, 4));
    XorInverts(s, Scramble(k));
    ScrambleInverts(k);
    FinishInverts(Xor(s, Scramble(k)));
  }

  lemma UnhashThenHash(h: bv32, seed: bv32)
    ensures HashWord(UnhashWord(h, seed), seed) == h
  {
    var s := Times(Xor(seed, 4));
    XorInverts(s, Unfinish(h));
    UnfinishInverts(h);
    UnscrambleInverts(Xor(s, Unfinish(h)));
  }

  /** Two keys never share a hash: only the later reduction modulo the number of
      buckets can bring them together. */
  lemma HashWordInjective(a: bv32, b: bv32, seed: bv32)
    ensures HashWord(a, seed) == HashWord(b, seed) <==> a == b
  {
    HashThenUnhash(a, seed);
    HashThenUnhash(b, seed);
  }

  // ---------------------------------------------------------------- keys as bytes

  function Byte(w: bv32): bv8 { (w & 0xff) as bv8 }

  /** The bytes of a word as they lie in memory, and so of a descriptor as a key. */
  function BytesOf(w: bv32): (key: Key)
    ensures |key| == 4
  {
    [Byte(w), Byte(w >> 8), Byte(w >> 16), Byte(w >> 24)]
  }

  /** The word made of four bytes has these bytes, all of them, in this order. */
  lemma WordBytes(b0: bv8, b1: bv8, b2: bv8, b3: bv8)
    ensures BytesOf(Word(b0, b1, b2, b3)) == [b0, b1, b2, b3]
  {}

  lemma BytesWord(w: bv32)
    ensures Word(Byte(w), Byte(w >> 8), Byte(w >> 16), Byte(w >> 24)) == w
  {}

  lemma DescriptorHash(w: bv32, seed: bv32)
    ensures HashBytes(BytesOf(w), seed) == HashWord(w, seed)
  {
    FourByteKey(Byte(w), Byte(w >> 8), Byte(w >> 16), Byte(w >> 24), seed);
    BytesWord(w);
  }

  /** Two descriptors have one hash exactly if they are equal. */
  lemma DescriptorsDiffer(a: bv32, b: bv32, seed: bv32)
    ensures HashBytes(BytesOf(a), seed) == HashBytes(BytesOf(b), seed) <==> a == b
  {
    DescriptorHash(a, seed);
    DescriptorHash(b, seed);
    HashWordInjective(a, b, seed);
  }

  /** Two keys of four bytes have one hash exactly if they are the same bytes. */
  lemma FourBytesDiffer(a: Key, b: Key, seed: bv32)
    requires |a| == |b| == 4
    ensures HashBytes(a, seed) == HashBytes(b, seed) <==> a == b
  {
    assert a == [a[0], a[1], a[2], a[3]] && b == [b[0], b[1], b[2], b[3]];
    FourByteKey(a[0], a[1], a[2], a[3], seed);
    FourByteKey(b[0], b[1], b[2], b[3], seed);
    HashWordInjective(Word(a[0], a[1], a[2], a[3]), Word(b[0], b[1], b[2], b[3]), seed);
    WordBytes(a[0], a[1], a[2], a[3]);
    WordBytes(b[0], b[1], b[2], b[3]);
  }

  /** The word that the bytes of a tail make, with zeros above them. */
  function TailWord(data: seq<bv8>): bv32
    requires 0 < |data| < 4
  {
    if |data| == 1 then Word(data[0], 0, 0, 0)
    else if |data| == 2 then Word(data[0], data[1], 0, 0)
    else Word(data[0], data[1], data[2], 0)
  }

  /** A tail is added to the hash as one word. */
  lemma TailAbsorbed(data: seq<bv8>, h: bv32)
    requires 0 < |data| < 4
    ensures AbsorbTail(data, h) == Times(Xor(h, TailWord(data)))
  {
    if |data| == 1 {
      AbsorbOne(data, h);
    } else if |data| == 2 {
      AbsorbTwo(data, h);
    } else {
      AbsorbThree(data, h);
    }
  }

  lemma AbsorbOne(data: seq<bv8>, h: bv32)
    requires |data| == 1
    ensures AbsorbTail(data, h) == Times(Xor(h, Word(data[0], 0, 0, 0)))
  {
    OneByte(data[0]);
  }

  lemma AbsorbTwo(data: seq<bv8>, h: bv32)
    requires |data| == 2
    ensures AbsorbTail(data, h) == Times(Xor(h, Word(data[0], data[1], 0, 0)))
  {
    XorAssociates(h, Widen(data[1]) << 8, Widen(data[0]));
    TwoBytes(data[0], data[1]);
  }

  lemma AbsorbThree(data: seq<bv8>, h: bv32)
    requires |data| == 3
    ensures AbsorbTail(data, h) == Times(Xor(h, Word(data[0], data[1], data[2], 0)))
  {
    var x, y, z := Widen(data[2]) << 16, Widen(data[1]) << 8, Widen(data[0]);
    XorAssociates(h, x, y);
    XorAssociates(h, Xor(x, y), z);
    ThreeBytes(data[0], data[1], data[2]);
  }

  lemma XorAssociates(a: bv32, b: bv32, c: bv32)
    ensures Xor(Xor(a, b), c) == Xor(a, Xor(b, c))
  {}

  lemma OneByte(b0: bv8)
    ensures Widen(b0) == Word(b0, 0, 0, 0)
  {}

  lemma TwoBytes(b0: bv8, b1: bv8)
    ensures Xor(Widen(b1) << 8, Widen(b0)) == Word(b0, b1, 0, 0)
  {}

  lemma ThreeBytes(b0: bv8, b1: bv8, b2: bv8)
    ensures Xor(Xor(Widen(b2) << 16, Widen(b1) << 8), Widen(b0)) == Word(b0, b1, b2, 0)
  {}

  lemma TailsDiffer(a: seq<bv8>, b: seq<bv8>, h: bv32)
    requires |a| == |b| < 4
    ensures AbsorbTail(a, h) == AbsorbTail(b, h) <==> a == b
  {
    if a != [] {
      TailAbsorbed(a, h);
      TailAbsorbed(b, h);
      TimesInverts(Xor(h, TailWord(a)));
      TimesInverts(Xor(h, TailWord(b)));
      XorInverts(h, TailWord(a));
      XorInverts(h, TailWord(b));
      TailBytes(a);
      TailBytes(b);
    }
  }

  lemma TailBytes(data: seq<bv8>)
    requires 0 < |data| < 4
    ensures BytesOf(TailWord(data))[..|data|] == data
  {
    if |data| == 1 {
      WordBytes(data[0], 0, 0, 0);
    } else if |data| == 2 {
      WordBytes(data[0], data[1], 0, 0);
    } else {
      WordBytes(data[0], data[1], data[2], 0);
    }
  }

  /** Keys of any one length up to four have one hash exactly if they are the same bytes. */
  lemma ShortKeysDiffer(a: Key, b: Key, seed: bv32)
    requires |a| == |b| <= 4
    ensures HashBytes(a, seed) == HashBytes(b, seed) <==> a == b
  {
    if |a| == 4 {
      FourBytesDiffer(a, b, seed);
    } else {
      var h := Xor(seed, LengthWord(|a|));
      FinishInverts(AbsorbTail(a, h));
      FinishInverts(AbsorbTail(b, h));
      TailsDiffer(a, b, h);
    }
  }

  /** Some keys and their hashes under the seed 7. */
  lemma HashVectors()
    ensures HashBytes([], 7) == 0x82bc6669
    ensures HashBytes([1], 7) == 0x2bb1a13b
    ensures HashBytes([1, 2, 3], 7) == 0xa793bfe1
    ensures HashBytes([5, 0, 0, 0], 7) == 0x34bba2d5
  {
    FourByteKey(5, 0, 0, 0, 7);
  }

  lemma LongHashVector()
    ensures HashBytes([1, 2, 3, 4, 5, 6, 7], 7) == 0x21f68514
  {
    var key: Key := [1, 2, 3, 4, 5, 6, 7];
    assert key[4..] == [5, 6, 7];
  }
}
