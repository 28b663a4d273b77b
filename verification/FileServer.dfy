/** A file server: uploads and downloads of files named by their md5 sum. */
module FileServer {
  import opened Bytes
  import opened Channels
  import opened Framing
  import opened Files
  import opened TransFile

  type Name = n: seq<byte> | |n| == 32 && 0 !in n witness seq(32, _ => 48)

  /** The bytes of a buffer before its first zero. */
  function CStr(buf: seq<byte>): seq<byte> {
    if buf == [] || buf[0] == 0 then [] else [buf[0]] + CStr(buf[1..])
  }

  lemma {:induction false} CStrStops(s: seq<byte>, rest: seq<byte>)
    requires 0 !in s && rest != [] && rest[0] == 0
    ensures CStr(s + rest) == s
  {
    if s != [] {
      CStrStops(s[1..], rest);
      assert (s + rest)[1..] == s[1..] + rest;
    } else {
      assert s + rest == rest;
    }
  }

  /** The smallest part that the server sends page by page. */
  function BigFileBoundary(): nat { (104857600 / 2) / 4096 * 4096 }

  function Flag(b: bool): seq<byte> { if b then [1] else [0] }

  /** What an uploading client writes after its message. */
  function Upload(isBig: bool, content: seq<byte>): seq<byte> {
    Flag(isBig) + OffT(|content|) + content
  }

  /** What a downloading client writes after its message. */
  function Request(offset: nat, partSize: nat): seq<byte> {
    Int32(offset) + Int32(partSize)
  }

  /** What the server sends back for part of a stored file: big parts from the offset asked
      for, others always from the start. */
  function Reply(content: seq<byte>, offset: nat, partSize: nat): seq<byte> {
    if partSize < BigFileBoundary() then ReadOut(content, 0, partSize) else Served(content, offset, partSize)
  }

  /** An upload as it is on the wire. */
  lemma UploadExample()
    ensures Upload(true, [9]) == [1, 1, 0, 0, 0, 0, 0, 0, 0, 9]
  {
    SmallInt(1);
    assert Flag(true) + OffT(1) == [1, 1, 0, 0, 0, 0, 0, 0, 0];
  }

  /** A request as it is on the wire. */
  lemma RequestExample()
    ensures Request(3, 200) == [3, 0, 0, 0, 200, 0, 0, 0]
  {
    SmallInt(3);
    SmallInt(200);
    JoinFours([3, 0, 0, 0], [200, 0, 0, 0]);
  }

  /** A small part is served from the start whatever the offset, a big one from the offset. */
  lemma ReplyIs(content: seq<byte>, offset: nat, partSize: nat)
    ensures BigFileBoundary() == 50 * 1024 * 1024
    ensures partSize < BigFileBoundary() && partSize <= |content| ==> Reply(content, offset, partSize) == content[..partSize]
    ensures partSize >= BigFileBoundary() && offset + partSize <= |content| ==>
      Reply(content, offset, partSize) == content[offset..offset + partSize]
  {
    if partSize < BigFileBoundary() {
      ReadOutIs(content, 0, partSize);
    } else {
      ServedIs(content, offset, partSize);
    }
  }

  /** The fields of a request that begins the stream, as far as they arrive. */
  ghost function Offset(s: seq<byte>): nat { Decode(Arrived(s, 4)) }

  ghost function PartSize(s: seq<byte>): nat { Decode(Arrived(s[Min(4, |s|)..], 4)) }

  /** What a download asks of the server: the file is there, the numbers are not negative as
      C integers, and a big part begins on a page. */
  ghost predicate GetsServable(repository: map<seq<byte>, seq<byte>>, name: seq<byte>, s: seq<byte>) {
    && name in repository
    && Offset(s) < 0x8000_0000 && PartSize(s) < 0x8000_0000
    && (PartSize(s) >= BigFileBoundary() ==> Offset(s) % 4096 == 0)
  }

  /** The size that an upload announces, as far as it arrives, and the bytes that follow. */
  ghost function Announced(s: seq<byte>): nat { Decode(Arrived(s[Min(1, |s|)..], 8)) }

  ghost function Body(s: seq<byte>): seq<byte> { s[Min(9, |s|)..] }

  ghost function SaysBig(s: seq<byte>): bool { s != [] && s[0] != 0 }

  /** What is stored when the bytes `body` arrive for a file of n bytes. */
  ghost function Stored(before: seq<byte>, isBig: bool, n: nat, body: seq<byte>): seq<byte> {
    var f, got := Resized(before, n), Arrived(body, n);
    if isBig then Received(f, 0, got) else Overwritten(f, 0, body[..Written(|body|, n)])
  }

  ghost function At(repository: map<seq<byte>, seq<byte>>, name: seq<byte>): seq<byte> {
    if name in repository then repository[name] else []
  }

  class FileServer {
    // The repository directory: the bytes stored under each name.
    var repository: map<seq<byte>, seq<byte>>

    constructor ()
      ensures repository == map[]
    {
      repository := map[];
    }

    /** `open` of a stored file. */
    method Open(name: seq<byte>) returns (fd: File)
      ensures fresh(fd) && fd.pos == 0
      ensures fd.content == At(repository, name)
    {
      fd := new File(if name in repository then repository[name] else [], {});
    }

    /** Receives a file and stores it under its name, over what was there; as much of it as
        arrives. */
    method DoPutsTask(ch: Channel, name: seq<byte>)
      requires Announced(ch.inFlight) < 0x8000_0000_0000_0000
      modifies this, ch
      ensures var s := old(ch.inFlight);
        repository ==
          old(repository)[name := Stored(At(old(repository), name), SaysBig(s), Announced(s), Body(s))]
    {
      var fd := Open(name);
      var isBigFile := false;
      ghost var s := ch.inFlight;
      var ret, flag := RecvN(ch, 1);
      if ret > 0 {
        isBigFile := flag[0] != 0;
      }
      assert ch.inFlight == s[Min(1, |s|)..] && isBigFile == SaysBig(s);
      var _, size := RecvN(ch, 8);
      assert ch.inFlight == Body(s);
      var fileSize := Decode(size);
      fd.Truncate(fileSize);
      assert Resized(fd.content, fileSize) == fd.content;
      Receive(ch, fd, isBigFile, fileSize);
      repository := repository[name := fd.content];
    }

    /** Fills a file of the announced length from the stream. */
    method Receive(ch: Channel, fd: File, isBig: bool, fileSize: nat)
      requires fd.pos == 0 && |fd.content| == fileSize
      modifies ch, fd
      ensures fd.content == Stored(old(fd.content), isBig, fileSize, old(ch.inFlight))
    {
      assert Resized(fd.content, fileSize) == fd.content;
      ArrivedLength(ch.inFlight, fileSize);
      if isBig {
        var _ := RecvBigFile(ch, fd, 0, fileSize);
      } else {
        var _ := RecvSmallFile(ch, fd, fileSize);
      }
    }

    /** Sends part of a stored file. */
    method DoGetsTask(ch: Channel, reply: Channel, name: seq<byte>)
      requires ch != reply && GetsServable(repository, name, ch.inFlight)
      modifies ch, reply
      ensures var s := old(ch.inFlight);
        reply.inFlight == old(reply.inFlight) + Reply(repository[name], Offset(s), PartSize(s))
    {
      var fd := Open(name);
      ghost var s := ch.inFlight;
      var _, b := RecvN(ch, 4);
      assert ch.inFlight == s[Min(4, |s|)..];
      var off := Decode(b);
      var _, b' := RecvN(ch, 4);
      var part := Decode(b');
      var isBigFile := part >= BigFileBoundary();
      if isBigFile {
        var _ := SendBigFile(reply, fd, off, part);
      } else {
        var _ := SendSmallFile(reply, fd, off, part);
      }
    }

    /** One connection: a message that says what the client wants, then the transfer.  A
        connection that closes before its message, or says something else, does nothing. */
    method TaskAnalyse(ch: Channel, reply: Channel)
      requires ch != reply && Servable(repository, ch.inFlight)
      modifies this, ch, reply
      ensures repository == Repository(old(repository), old(ch.inFlight))
      ensures reply.inFlight == old(reply.inFlight) + Answer(old(repository), old(ch.inFlight))
    {
      var rc, cmdTrain := RecvCmd(ch);
      if rc == 0 {
        return;
      }
      if cmdTrain.state == CMD_GETS {
        DoGetsTask(ch, reply, CStr(cmdTrain.dataBuf));
      } else if cmdTrain.state == CMD_PUTS {
        DoPutsTask(ch, CStr(cmdTrain.dataBuf));
      }
    }
  }

  // ---------------------------------------------------------------- connections as values

  /** The stream starts with a message of the given type. */
  ghost predicate Says(s: seq<byte>, kind: nat) {
    |s| >= 4 && LengthFits(s) && Parsed(s).state == kind
  }

  ghost function NameOf(s: seq<byte>): seq<byte>
    requires |s| >= 4 && LengthFits(s)
  {
    CStr(Parsed(s).dataBuf)
  }

  ghost predicate Servable(repository: map<seq<byte>, seq<byte>>, s: seq<byte>) {
    && LengthFits(s)
    && (Says(s, CMD_GETS) ==> GetsServable(repository, NameOf(s), Unparsed(s)))
    && (Says(s, CMD_PUTS) ==> Announced(Unparsed(s)) < 0x8000_0000_0000_0000)
  }

  /** The repository after a connection. */
  ghost function Repository(repository: map<seq<byte>, seq<byte>>, s: seq<byte>): map<seq<byte>, seq<byte>> {
    if Says(s, CMD_PUTS) then
      var r, name := Unparsed(s), NameOf(s);
      repository[name := Stored(At(repository, name), SaysBig(r), Announced(r), Body(r))]
    else repository
  }

  /** What the connection sends back. */
  ghost function Answer(repository: map<seq<byte>, seq<byte>>, s: seq<byte>): seq<byte>
    requires Servable(repository, s)
  {
    if Says(s, CMD_GETS) then
      var r := Unparsed(s);
      Reply(repository[NameOf(s)], Offset(r), PartSize(r))
    else []
  }

  /** A whole upload stores exactly the file, and touches no other. */
  lemma UploadServed(repository: map<seq<byte>, seq<byte>>, name: Name, isBig: bool, content: seq<byte>)
    requires |content| < 0x8000_0000_0000_0000
    ensures var s := Frame(Message(CMD_PUTS, name)) + Upload(isBig, content);
      && Servable(repository, s) && Answer(repository, s) == []
      && Repository(repository, s) == repository[name := content]
  {
    VisitParsed(name, CMD_PUTS, Upload(isBig, content));
    UploadFields(isBig, content);
    WholeStored(At(repository, name), isBig, content);
  }

  /** An upload of which the header and some of the file arrive. */
  lemma CutUploadServed(repository: map<seq<byte>, seq<byte>>, name: Name, isBig: bool, content: seq<byte>, k: nat)
    requires |content| < 0x8000_0000_0000_0000 && 9 <= k <= |Upload(isBig, content)|
    ensures var s := Frame(Message(CMD_PUTS, name)) + Upload(isBig, content)[..k];
      && Servable(repository, s) && Answer(repository, s) == []
      && Repository(repository, s) ==
           repository[name := Stored(At(repository, name), isBig, |content|, content[..k - 9])]
  {
    VisitParsed(name, CMD_PUTS, Upload(isBig, content)[..k]);
    CutUploadFields(isBig, content, k);
  }

  /** A whole request is answered with what was asked for. */
  lemma RequestServed(repository: map<seq<byte>, seq<byte>>, name: Name, offset: nat, partSize: nat)
    requires name in repository && offset < 0x8000_0000 && partSize < 0x8000_0000
    requires partSize >= BigFileBoundary() ==> offset % 4096 == 0
    ensures var s := Frame(Message(CMD_GETS, name)) + Request(offset, partSize);
      && Servable(repository, s) && Repository(repository, s) == repository
      && Answer(repository, s) == Reply(repository[name], offset, partSize)
  {
    var r := Request(offset, partSize);
    VisitParsed(name, CMD_GETS, r);
    assert r[..4] == Int32(offset) && r[4..] == Int32(partSize);
    assert Arrived(r[4..], 4) == Int32(partSize);
  }

  lemma VisitParsed(name: Name, kind: nat, rest: seq<byte>)
    requires kind < 0x8000_0000
    ensures var s := Frame(Message(kind, name)) + rest;
      |s| >= 4 && LengthFits(s) && Parsed(s).state == kind && NameOf(s) == name && Unparsed(s) == rest
  {
    ParsedFrame(Message(kind, name), rest);
    CStrStops(name, Zeros(BUFFER_SIZE - 32));
  }

  lemma UploadFields(isBig: bool, content: seq<byte>)
    requires |content| < 0x8000_0000_0000_0000
    ensures var s := Upload(isBig, content);
      SaysBig(s) == isBig && Announced(s) == |content| && Body(s) == content
  {
    var s := Upload(isBig, content);
    assert s[1..][..8] == OffT(|content|);
    assert s[9..] == content;
  }

  lemma WholeStored(before: seq<byte>, isBig: bool, content: seq<byte>)
    ensures Stored(before, isBig, |content|, content) == content
  {
    assert content[..|content|] == content;
  }

  /** What has to be right before, for an upload that breaks off after k bytes to store the
      file.  After the header: every byte that is not written.  Inside the header: the whole
      file, and the part of its size that arrives, which is what the file is cut to. */
  ghost predicate CutRight(before: seq<byte>, isBig: bool, content: seq<byte>, k: nat) {
    var n := |content|;
    if k >= 9 then
      var m := if isBig then k - 9 else Written(k - 9, n);
      forall i :: m <= i < n ==> Resized(before, n)[i] == content[i]
    else
      var j := if k == 0 then 0 else k - 1;
      (forall i :: j <= i < 8 ==> OffT(n)[i] == 0) && Resized(before, n) == content
  }

  /** An upload that breaks off anywhere stores the file exactly if what it does not get to
      was right in what was stored under the name before. */
  lemma CutUploadIff(before: seq<byte>, isBig: bool, content: seq<byte>, k: nat)
    requires |content| < 0x8000_0000_0000_0000 && k <= |Upload(isBig, content)|
    ensures var s := Upload(isBig, content)[..k];
      Stored(before, SaysBig(s), Announced(s), Body(s)) == content <==> CutRight(before, isBig, content, k)
  {
    if k >= 9 {
      CutUploadFields(isBig, content, k);
      CutBodyIff(before, isBig, content, k - 9);
    } else {
      CutHeaderIff(before, isBig, content, k);
    }
  }

  lemma CutHeaderIff(before: seq<byte>, isBig: bool, content: seq<byte>, k: nat)
    requires |content| < 0x8000_0000_0000_0000 && k < 9
    ensures var s := Upload(isBig, content)[..k];
      Stored(before, SaysBig(s), Announced(s), Body(s)) == content <==> CutRight(before, isBig, content, k)
  {
    var u, n := Upload(isBig, content), |content|;
    var s, j := u[..k], if k == 0 then 0 else k - 1;
    assert Body(s) == [];
    assert s[Min(1, |s|)..] == u[1..9][..j] && u[1..9] == OffT(n);
    assert Arrived(OffT(n)[..j], 8) == OffT(n)[..j];
    DecodeCut(OffT(n), j);
    NothingStored(before, SaysBig(s), Announced(s));
  }

  lemma NothingStored(before: seq<byte>, isBig: bool, n: nat)
    ensures Stored(before, isBig, n, []) == Resized(before, n)
  {
    assert Arrived([], n) == [];
  }

  /** Two uploads that go wrong: a new file of one byte of which only the header arrives, and a
      stored file announced again by a connection that closes at once. */
  lemma CutUploadInputs()
    ensures var s := Upload(false, [1])[..9]; Stored([], SaysBig(s), Announced(s), Body(s)) == [0]
    ensures var s := Upload(false, [1])[..0]; Stored([1], SaysBig(s), Announced(s), Body(s)) == []
  {
    CutUploadFields(false, [1], 9);
    OneByteLost();
    NothingStored([1], false, 0);
  }

  lemma OneByteLost()
    ensures Stored([], false, 1, []) == [0] && Stored([], false, 1, [1][..0]) == [0]
  {
    assert Written(0, 1) == 0;
    assert Resized([], 1) == [0];
    assert Overwritten([0], 0, []) == [0];
    assert [1][..0] == [];
  }

  /** And two that do not: the stored file announced again with the part of its size that is
      not zero, or with its whole header. */
  lemma CutUploadHarmless()
    ensures CutRight([1], false, [1], 2) && CutRight([1], true, [1], 9)
    ensures !CutRight([], false, [1], 9) && !CutRight([1], false, [1], 0)
  {
    SmallInt(1);
    assert Resized([1], 1) == [1];
    assert Resized([], 1) == [0];
    assert Written(0, 1) == 0;
  }

  lemma CutUploadFields(isBig: bool, content: seq<byte>, k: nat)
    requires |content| < 0x8000_0000_0000_0000 && 9 <= k <= |Upload(isBig, content)|
    ensures var s := Upload(isBig, content)[..k];
      SaysBig(s) == isBig && Announced(s) == |content| && Body(s) == content[..k - 9]
  {
    var u := Upload(isBig, content);
    UploadFields(isBig, content);
    assert u[..k][1..][..8] == u[1..][..8] == OffT(|content|);
    assert u[..k][9..] == u[9..][..k - 9] && u[9..] == content;
  }

  lemma CutBodyIff(before: seq<byte>, isBig: bool, content: seq<byte>, j: nat)
    requires j <= |content|
    ensures var m := if isBig then j else Written(j, |content|);
      Stored(before, isBig, |content|, content[..j]) == content <==>
        forall i :: m <= i < |content| ==> Resized(before, |content|)[i] == content[i]
  {
    var n := |content|;
    var m := if isBig then j else Written(j, n);
    var f, r := Resized(before, n), Stored(before, isBig, n, content[..j]);
    assert |r| == n;
    assert content[..j][..m] == content[..m];
    assert forall i :: 0 <= i < n ==> r[i] == if i < m then content[i] else f[i];
  }
}
