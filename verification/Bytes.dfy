/** Bytes, and the fixed-width integers that both ends copy to the wire as they lie in
    memory, least significant byte first. */
module Bytes {

  newtype byte = x: int | 0 <= x < 256

  function Zeros(n: nat): (z: seq<byte>)
    ensures |z| == n
  {
    seq(n, _ => 0)
  }

  ghost function Power256(width: nat): nat {
    if width == 0 then 1 else 256 * Power256(width - 1)
  }

  function Encode(n: nat, width: nat): (b: seq<byte>)
    ensures |b| == width
  {
    if width == 0 then [] else [(n % 256) as byte] + Encode(n / 256, width - 1)
  }

  function Decode(b: seq<byte>): nat {
    if b == [] then 0 else b[0] as nat + 256 * Decode(b[1..])
  }

  /** A number that fits the width survives the wire. */
  lemma {:induction false} DecodeEncode(n: nat, width: nat)
    ensures n < Power256(width) ==> Decode(Encode(n, width)) == n
  {
    if width > 0 {
      DecodeEncode(n / 256, width - 1);
      assert Encode(n, width)[1..] == Encode(n / 256, width - 1);
    }
  }

  /** A number of which only the first j bytes have arrived, in a variable that was zero. */
  lemma {:induction false} DecodeCut(b: seq<byte>, j: nat)
    requires j <= |b|
    ensures Decode(b[..j]) <= Decode(b)
    ensures Decode(b[..j]) == Decode(b) <==> forall i :: j <= i < |b| ==> b[i] == 0
  {
    if b != [] {
      DecodeCut(b[1..], if j == 0 then 0 else j - 1);
      assert j > 0 ==> b[..j][1..] == b[1..][..j - 1];
      assert b[1..][..0] == [];
      assert forall i :: 0 < i < |b| ==> b[i] == b[1..][i - 1];
    }
  }

  /** A C `int`, and an `off_t`. */
  function Int32(n: nat): (b: seq<byte>)
    ensures |b| == 4
    ensures n < 0x8000_0000 ==> Decode(b) == n
  {
    assert Power256(4) == 0x1_0000_0000 by {
      assert Power256(1) == 256 && Power256(2) == 65536;
    }
    DecodeEncode(n, 4);
    Encode(n, 4)
  }

  function OffT(n: nat): (b: seq<byte>)
    ensures |b| == 8
    ensures n < 0x8000_0000_0000_0000 ==> Decode(b) == n
  {
    assert Power256(8) == 0x1_0000_0000_0000_0000 by {
      assert Power256(1) == 256 && Power256(2) == 65536;
      assert Power256(4) == 0x1_0000_0000 && Power256(6) == 0x1_0000_0000_0000;
    }
    DecodeEncode(n, 8);
    Encode(n, 8)
  }

  /** The least significant byte comes first. */
  lemma SmallInt(n: nat)
    requires n < 256
    ensures Int32(n) == [n as byte, 0, 0, 0] && OffT(n) == [n as byte, 0, 0, 0, 0, 0, 0, 0]
  {
    ZeroBytes(3);
    ZeroBytes(7);
    assert Encode(n, 4) == [n as byte] + Encode(0, 3);
    assert Encode(n, 8) == [n as byte] + Encode(0, 7);
  }

  lemma {:induction false} ZeroBytes(width: nat)
    ensures Encode(0, width) == Zeros(width)
  {
    if width > 0 {
      ZeroBytes(width - 1);
    }
  }
}
