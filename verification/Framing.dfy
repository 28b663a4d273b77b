/** Command messages ("trains"): a length, a type and a payload, written field by field. */
module Framing {
  import opened Bytes
  import opened Channels

  const BUFFER_SIZE := 1024

  /** The command types that the file servers and the route server dispatch on. */
  const CMD_GETS := 5
  const CMD_PUTS := 6

  /** `dataBuf` is the whole buffer; the payload is its first `dataLen` bytes. */
  datatype Train = Train(dataLen: nat, state: nat, dataBuf: seq<byte>)

  datatype Message = Message(kind: nat, payload: seq<byte>)

  ghost predicate TrainValid(t: Train) {
    t.dataLen <= BUFFER_SIZE && t.state < 0x8000_0000 && |t.dataBuf| == BUFFER_SIZE
  }

  ghost predicate MessageValid(m: Message) {
    m.kind < 0x8000_0000 && |m.payload| <= BUFFER_SIZE
  }

  /** What a train says. */
  ghost function Meaning(t: Train): Message
    requires TrainValid(t)
  {
    Message(t.state, t.dataBuf[..t.dataLen])
  }

  ghost function Frame(m: Message): seq<byte> {
    Int32(|m.payload|) + Int32(m.kind) + m.payload
  }

  /** An upload message with one byte of payload, as it is on the wire. */
  lemma FrameExample()
    ensures Frame(Message(CMD_PUTS, [7])) == [1, 0, 0, 0, 6, 0, 0, 0, 7]
  {
    SmallInt(1);
    SmallInt(6);
    JoinFours([1, 0, 0, 0], [6, 0, 0, 0]);
  }

  lemma JoinFours(a: seq<byte>, b: seq<byte>)
    requires |a| == |b| == 4
    ensures a + b == [a[0], a[1], a[2], a[3], b[0], b[1], b[2], b[3]]
  {}

  /** A download is another type of message. */
  lemma GetsExample()
    ensures Frame(Message(CMD_GETS, [])) == [0, 0, 0, 0, 5, 0, 0, 0]
  {
    SmallInt(0);
    SmallInt(5);
    JoinFours([0, 0, 0, 0], [5, 0, 0, 0]);
  }

  ghost function Frames(ms: seq<Message>): seq<byte> {
    if ms == [] then [] else Frame(ms[0]) + Frames(ms[1..])
  }

  method SendCmd(ch: Channel, train: Train, kind: nat)
    requires TrainValid(train) && kind < 0x8000_0000
    modifies ch
    ensures ch.inFlight == old(ch.inFlight) + Frame(Message(kind, train.dataBuf[..train.dataLen]))
  {
    var _ := SendN(ch, Int32(train.dataLen));
    var _ := SendN(ch, Int32(kind));
    var _ := SendN(ch, train.dataBuf[..train.dataLen]);
    assert ch.inFlight == old(ch.inFlight) + Frame(Message(kind, train.dataBuf[..train.dataLen]));
  }

  /** A stream begins with a length that fits the buffer, if a length arrives at all. */
  ghost predicate LengthFits(s: seq<byte>) {
    |s| >= 4 ==> Decode(s[..4]) <= BUFFER_SIZE
  }

  /** The message read off a stream, whole or cut off: what is missing stays zero. */
  ghost function Parsed(s: seq<byte>): (t: Train)
    requires |s| >= 4 && LengthFits(s)
    ensures |t.dataBuf| == BUFFER_SIZE && t.dataLen <= BUFFER_SIZE
  {
    var n := Decode(s[..4]);
    var payload := Arrived(s[Min(8, |s|)..], n);
    Train(n, Decode(s[4..Min(8, |s|)]), payload + Zeros(BUFFER_SIZE - |payload|))
  }

  /** What is left on the stream then. */
  ghost function Unparsed(s: seq<byte>): seq<byte>
    requires |s| >= 4 && LengthFits(s)
  {
    s[Min(8 + Decode(s[..4]), |s|)..]
  }

  /** Reads one message; 0 if the stream ends before its length.  Whether the rest of the
      message arrived is not looked at. */
  method RecvCmd(ch: Channel) returns (rc: int, train: Train)
    requires LengthFits(ch.inFlight)
    modifies ch
    ensures rc == if |old(ch.inFlight)| < 4 then 0 else 1
    ensures rc == 0 ==> ch.inFlight == []
    ensures rc == 1 ==> train == Parsed(old(ch.inFlight)) && ch.inFlight == Unparsed(old(ch.inFlight))
  {
    train := Train(0, 0, Zeros(BUFFER_SIZE));
    ghost var s := ch.inFlight;
    var ret, buf := RecvN(ch, 4);
    if ret == 0 {
      return 0, train;
    }
    train := train.(dataLen := Decode(buf));
    ret, buf := RecvN(ch, 4);
    assert buf == s[4..Min(8, |s|)] && ch.inFlight == s[Min(8, |s|)..];
    train := train.(state := Decode(buf));
    ret, buf := RecvN(ch, train.dataLen);
    assert buf + train.dataBuf[|buf|..] == buf + Zeros(BUFFER_SIZE - |buf|);
    train := train.(dataBuf := buf + train.dataBuf[|buf|..]);
    rc := 1;
  }

  /** A whole message is read as what it says, and no more is taken off the stream. */
  lemma ParsedFrame(m: Message, rest: seq<byte>)
    requires MessageValid(m)
    ensures var s := Frame(m) + rest;
      && |s| >= 8 && LengthFits(s)
      && TrainValid(Parsed(s)) && Meaning(Parsed(s)) == m && Unparsed(s) == rest
      && Parsed(s).dataBuf == m.payload + Zeros(BUFFER_SIZE - |m.payload|)
  {
    var s, n := Frame(m) + rest, |m.payload|;
    assert s[..4] == Int32(n) && s[4..8] == Int32(m.kind);
    assert s[8..] == m.payload + rest;
    assert s[8..][..n] == m.payload;
    assert s[8 + n..] == rest;
    assert (m.payload + Zeros(BUFFER_SIZE - n))[..n] == m.payload;
  }

  /** A message cut off after k bytes, its length among them, is read as what it says exactly
      if nothing but zeros is missing. */
  lemma CutFrameIff(m: Message, k: nat)
    requires MessageValid(m) && 4 <= k <= |Frame(m)|
    ensures var s := Frame(m)[..k];
      && LengthFits(s) && TrainValid(Parsed(s)) && Unparsed(s) == []
      && (Meaning(Parsed(s)) == m <==> forall i :: k <= i < |Frame(m)| ==> Frame(m)[i] == 0)
  {
    var n, e := |m.payload|, Min(8, k);
    FramePieces(m, k);
    DecodeCut(Int32(m.kind), e - 4);
    CutPayload(m.payload, k - e);
    CutRest(m, k);
  }

  /** An input: an upload message of which the last byte, a 1, is lost is read as one with a
      0. */
  lemma CutFrameInput()
    ensures var m := Message(CMD_PUTS, [1]);
      |Frame(m)| == 9 && LengthFits(Frame(m)[..8]) && TrainValid(Parsed(Frame(m)[..8]))
      && Meaning(Parsed(Frame(m)[..8])) == Message(CMD_PUTS, [0])
  {
    var m := Message(CMD_PUTS, [1]);
    CutFrameIff(m, 8);
    FramePieces(m, 8);
    assert Int32(CMD_PUTS)[..4] == Int32(CMD_PUTS);
    assert Arrived([], 1) == [];
  }

  /** What has arrived of the three fields. */
  lemma FramePieces(m: Message, k: nat)
    requires 4 <= k <= |Frame(m)|
    ensures var s := Frame(m)[..k]; var e := Min(8, k);
      s[..4] == Int32(|m.payload|) && s[4..e] == Int32(m.kind)[..e - 4] && s[e..] == m.payload[..k - e]
  {
    var f, e := Frame(m), Min(8, k);
    var s := f[..k];
    assert forall i :: 0 <= i < 4 ==> s[i] == Int32(|m.payload|)[i];
    assert forall i :: 4 <= i < e ==> s[i] == Int32(m.kind)[i - 4];
    assert forall i :: e <= i < k ==> s[i] == m.payload[i - 8];
    assert s[4..e] == Int32(m.kind)[..e - 4];
    assert s[e..] == m.payload[..k - e];
  }

  /** What is missing of the last two fields. */
  lemma CutRest(m: Message, k: nat)
    requires 4 <= k <= |Frame(m)|
    ensures var e := Min(8, k);
      (forall i :: k <= i < |Frame(m)| ==> Frame(m)[i] == 0) <==>
        (forall i :: e - 4 <= i < 4 ==> Int32(m.kind)[i] == 0) &&
        (forall i :: k - e <= i < |m.payload| ==> m.payload[i] == 0)
  {
    var f := Frame(m);
    assert forall i :: 0 <= i < 4 ==> f[i + 4] == Int32(m.kind)[i];
    assert forall i :: 0 <= i < |m.payload| ==> f[i + 8] == m.payload[i];
    assert forall i :: 8 <= i < |f| ==> f[i] == m.payload[i - 8];
    assert forall i :: 4 <= i < 8 ==> f[i] == Int32(m.kind)[i - 4];
  }

  lemma CutPayload(payload: seq<byte>, j: nat)
    requires j <= |payload| <= BUFFER_SIZE
    ensures (payload[..j] + Zeros(BUFFER_SIZE - j))[..|payload|] == payload <==>
      forall i :: j <= i < |payload| ==> payload[i] == 0
  {
    var read := (payload[..j] + Zeros(BUFFER_SIZE - j))[..|payload|];
    assert forall i :: 0 <= i < |payload| ==> read[i] == if i < j then payload[i] else 0;
  }

  ghost function Meanings(trains: seq<Train>): seq<Message>
    requires forall t <- trains :: TrainValid(t)
  {
    if trains == [] then [] else [Meaning(trains[0])] + Meanings(trains[1..])
  }

  /** A sender writes its messages one after another. */
  method SendAll(ch: Channel, trains: seq<Train>)
    requires forall t <- trains :: TrainValid(t)
    modifies ch
    ensures ch.inFlight == old(ch.inFlight) + Frames(Meanings(trains))
  {
    var rest := trains;
    while rest != []
      invariant forall t <- rest :: TrainValid(t)
      invariant ch.inFlight + Frames(Meanings(rest)) == old(ch.inFlight) + Frames(Meanings(trains))
      decreases |rest|
    {
      var train := rest[0];
      FramesOfRest(ch.inFlight, rest);
      SendCmd(ch, train, train.state);
      rest := rest[1..];
    }
  }

  lemma FramesOfRest(sent: seq<byte>, trains: seq<Train>)
    requires trains != [] && forall t <- trains :: TrainValid(t)
    ensures sent + Frames(Meanings(trains)) == sent + Frame(Meaning(trains[0])) + Frames(Meanings(trains[1..]))
  {
    var ms := Meanings(trains);
    assert ms[0] == Meaning(trains[0]) && ms[1..] == Meanings(trains[1..]);
    Assoc(sent, Frame(ms[0]), Frames(ms[1..]));
  }

  /** The messages on a stream that may end inside a further message, after k bytes of it. */
  ghost function CutStream(ms: seq<Message>, last: Message, k: nat): seq<byte>
    requires k < |Frame(last)|
  {
    Frames(ms) + Frame(last)[..k]
  }

  lemma CutStreamStep(ms: seq<Message>, last: Message, k: nat)
    requires MessageValid(last) && k < |Frame(last)| && forall m <- ms :: MessageValid(m)
    ensures var s := CutStream(ms, last, k);
      && LengthFits(s)
      && (ms == [] ==> s == Frame(last)[..k] && (k >= 4 ==> Unparsed(s) == []))
      && (ms != [] ==> |s| >= 4 && TrainValid(Parsed(s)) && Meaning(Parsed(s)) == ms[0]
                       && Unparsed(s) == CutStream(ms[1..], last, k))
  {
    if ms == [] {
      assert CutStream(ms, last, k) == Frame(last)[..k];
      if k >= 4 {
        CutFrameIff(last, k);
      }
    } else {
      Assoc(Frame(ms[0]), Frames(ms[1..]), Frame(last)[..k]);
      ParsedFrame(ms[0], CutStream(ms[1..], last, k));
    }
  }

  /** The reader recovers exactly the messages sent, one by one, until the stream ends.  If it
      ends inside a message of which the length arrived, that message is read as well, as far
      as it goes. */
  method ReceiveAll(ch: Channel, ghost ms: seq<Message>, ghost last: Message, ghost k: nat) returns (trains: seq<Train>)
    requires MessageValid(last) && k < |Frame(last)| && forall m <- ms :: MessageValid(m)
    requires ch.inFlight == CutStream(ms, last, k)
    modifies ch
    ensures ch.inFlight == []
    ensures |trains| == |ms| + if k < 4 then 0 else 1
    ensures Mean(trains, ms, |ms|)
    ensures k >= 4 ==> LastRead(trains, |ms|, last, k)
  {
    trains := [];
    ghost var n, over := 0, false;
    while true
      invariant n <= |ms| && |trains| == n + if over then 1 else 0
      invariant Mean(trains, ms, n)
      invariant if over then n == |ms| && LastRead(trains, n, last, k) && ch.inFlight == []
                else ch.inFlight == CutStream(ms[n..], last, k)
      decreases |ms| - n + if over then 0 else 1
    {
      CutStreamStep(ms[n..], last, k);
      var rc, train := RecvCmd(ch);
      if rc == 0 {
        return;
      }
      trains := trains + [train];
      if n < |ms| {
        assert ms[n..][1..] == ms[n + 1..];
        n := n + 1;
      } else {
        over := true;
      }
    }
  }

  /** The first n trains say what the first n messages do. */
  ghost predicate Mean(trains: seq<Train>, ms: seq<Message>, n: nat) {
    && n <= |trains| && n <= |ms|
    && forall i :: 0 <= i < n ==> TrainValid(trains[i]) && Meaning(trains[i]) == ms[i]
  }

  /** Train n is what could be read of a message cut off after k bytes. */
  ghost predicate LastRead(trains: seq<Train>, n: nat, last: Message, k: nat) {
    4 <= k <= |Frame(last)| && LengthFits(Frame(last)[..k]) && n < |trains| && trains[n] == Parsed(Frame(last)[..k])
  }

  /** Different message sequences never give the same stream. */
  lemma {:induction false} FramesInjective(a: seq<Message>, b: seq<Message>)
    requires (forall m <- a :: MessageValid(m)) && (forall m <- b :: MessageValid(m))
    requires Frames(a) == Frames(b)
    ensures a == b
  {
    if a != [] && b != [] {
      FrameInjective(a[0], Frames(a[1..]), b[0], Frames(b[1..]));
      FramesInjective(a[1..], b[1..]);
      assert a == [a[0]] + a[1..] && b == [b[0]] + b[1..];
    }
  }

  lemma FrameInjective(m: Message, s: seq<byte>, m': Message, s': seq<byte>)
    requires MessageValid(m) && MessageValid(m') && Frame(m) + s == Frame(m') + s'
    ensures m == m' && s == s'
  {
    var all := Frame(m) + s;
    assert all[..4] == Int32(|m.payload|) && all[..4] == Int32(|m'.payload|);
    assert all[4..8] == Int32(m.kind) && all[4..8] == Int32(m'.kind);
    var n := |m.payload|;
    assert n == |m'.payload|;
    assert all[8..][..n] == m.payload && all[8..][..n] == m'.payload;
    assert all[8 + n..] == s && all[8 + n..] == s';
  }
}
