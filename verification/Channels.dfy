/** One direction of a TCP connection: a byte stream that `send` and `recv` cut into
    pieces of any size. */
module Channels {
  import opened Bytes

  class Channel {
    // The bytes sent and not yet received.
    var inFlight: seq<byte>

    constructor ()
      ensures inFlight == []
    {
      inFlight := [];
    }

    /** `send` accepts some of the bytes, at least one. */
    method Send(buf: seq<byte>) returns (sent: nat)
      requires buf != []
      modifies this
      ensures 1 <= sent <= |buf| && inFlight == old(inFlight) + buf[..sent]
    {
      sent :| 1 <= sent <= |buf|;
      inFlight := inFlight + buf[..sent];
    }

    /** `recv` delivers some of the bytes, at least one, or none if the stream is over. */
    method Recv(max: nat) returns (chunk: seq<byte>)
      requires max > 0
      modifies this
      ensures |chunk| <= max && old(inFlight) == chunk + inFlight
      ensures chunk == [] <==> old(inFlight) == []
    {
      var n: nat :| n <= max && n <= |inFlight| && (n == 0 <==> inFlight == []) by {
        assert (if inFlight == [] then 0 else 1) <= |inFlight|;
      }
      chunk := inFlight[..n];
      inFlight := inFlight[n..];
    }

    /** The connection breaks: only the first n bytes in flight will ever arrive. */
    method Cut(n: nat)
      modifies this
      ensures inFlight == if n < |old(inFlight)| then old(inFlight)[..n] else old(inFlight)
    {
      if n < |inFlight| {
        inFlight := inFlight[..n];
      }
    }
  }

  function Min(a: int, b: int): int { if a < b then a else b }

  /** The first n bytes of the stream, or all of it if it is shorter. */
  function Arrived(s: seq<byte>, n: int): seq<byte> {
    if n <= 0 then [] else s[..Min(n, |s|)]
  }

  lemma Assoc(a: seq<byte>, b: seq<byte>, c: seq<byte>)
    ensures a + b + c == a + (b + c)
  {}

  /** Sends the whole buffer, however `send` fragments it. */
  method SendN(ch: Channel, buf: seq<byte>) returns (rc: int)
    modifies ch
    ensures rc == |buf|
    ensures ch.inFlight == old(ch.inFlight) + buf
  {
    var finishSend := 0;
    while finishSend < |buf|
      invariant finishSend <= |buf|
      invariant ch.inFlight == old(ch.inFlight) + buf[..finishSend]
    {
      var curSend := ch.Send(buf[finishSend..]);
      assert buf[..finishSend] + buf[finishSend..][..curSend] == buf[..finishSend + curSend];
      finishSend := finishSend + curSend;
    }
    assert buf[..finishSend] == buf;
    return finishSend;
  }

  /** Receives exactly n bytes, however `recv` fragments them; 0 if the stream ends first,
      and then `buf` holds what had arrived. */
  method RecvN(ch: Channel, n: nat) returns (rc: int, buf: seq<byte>)
    modifies ch
    ensures buf == Arrived(old(ch.inFlight), n)
    ensures ch.inFlight == old(ch.inFlight)[|buf|..]
    ensures rc == if n <= |old(ch.inFlight)| then n else 0
  {
    buf := [];
    while |buf| < n
      invariant |buf| <= n
      invariant old(ch.inFlight) == buf + ch.inFlight
      decreases n - |buf|
    {
      var chunk := ch.Recv(n - |buf|);
      if chunk == [] {
        return 0, buf;
      }
      buf := buf + chunk;
    }
    return n, buf;
  }
}
