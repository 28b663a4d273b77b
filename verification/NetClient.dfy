/** The client's side of uploads and downloads: where a file is split, how an interrupted
    download of the two parts is resumed, and how the parts are merged in place. */
module NetClient {
  import opened Naturals
  import opened Bytes
  import opened Channels
  import opened Framing
  import opened Files
  import opened TransFile
  import opened FileServer

  // ---------------------------------------------------------------- the split

  /** Files from 100 MiB on are split. */
  function IsBig(size: nat): bool { size >= 104857600 }

  function Part1(size: nat): nat {
    if IsBig(size) then size / 8192 * 4096 else size
  }

  function Part2(size: nat): nat {
    size - Part1(size)
  }

  /** Client and file server choose the same path: a split file has two parts that both
      reach the server's boundary, and a file that is not split has offset 0 only. */
  lemma SplitAgrees(size: nat)
    ensures IsBig(size) <==> size >= 100 * 1024 * 1024
    ensures Part1(size) + Part2(size) == size
    ensures Part2(size) == 0 <==> !IsBig(size)
    ensures IsBig(size) ==> Part1(size) % 4096 == 0 && 0 <= Part2(size) - Part1(size) < 8192
    ensures IsBig(size) ==> Part1(size) >= BigFileBoundary() && Part2(size) >= BigFileBoundary()
  {}

  function CommandTrain(md5: Name, kind: nat): (t: Train)
    requires kind < 0x8000_0000
    ensures TrainValid(t) && Meaning(t) == Message(kind, md5)
  {
    var t := Train(32, kind, md5 + Zeros(BUFFER_SIZE - 32));
    assert t.dataBuf[..32] == md5;
    t
  }

  /** Opens a connection's stream with the message that names the file. */
  method SendHeader(ch: Channel, md5: Name, kind: nat)
    requires kind < 0x8000_0000 && ch.inFlight == []
    modifies ch
    ensures ch.inFlight == Frame(Message(kind, md5))
  {
    var train := CommandTrain(md5, kind);
    assert Meaning(train) == Message(kind, md5);
    SendCmd(ch, train, kind);
  }

  // ---------------------------------------------------------------- upload

  /** Sends a whole file to one server, which stores it. */
  method PutTo(server: FileServer, cur: File, md5: Name, isBig: bool)
    requires cur.pos == 0 && |cur.content| < 0x8000_0000
    modifies server, cur`pos
    ensures server.repository == old(server.repository)[md5 := cur.content]
    ensures isBig ==> cur.pos == 0
  {
    var ch := new Channel();
    var reply := new Channel();
    SendHeader(ch, md5, CMD_PUTS);
    SendUpload(ch, cur, isBig);
    UploadServed(server.repository, md5, isBig, cur.content);
    server.TaskAnalyse(ch, reply);
  }

  /** An upload whose connection breaks when `arrived` bytes of the file have arrived. */
  method PutCut(server: FileServer, cur: File, md5: Name, isBig: bool, arrived: nat)
    requires cur.pos == 0 && |cur.content| < 0x8000_0000
    modifies server, cur`pos
    ensures var n := |cur.content|;
      server.repository ==
        old(server.repository)[md5 := Stored(At(old(server.repository), md5), isBig, n, cur.content[..Min(arrived, n)])]
    ensures isBig ==> cur.pos == 0
  {
    var ch := new Channel();
    var reply := new Channel();
    SendHeader(ch, md5, CMD_PUTS);
    ghost var header := ch.inFlight;
    SendUpload(ch, cur, isBig);
    var k := 9 + if arrived < |cur.content| then arrived else |cur.content|;
    ghost var u := Upload(isBig, cur.content);
    CutInside(header, u, k);
    ch.Cut(8 + 32 + k);
    assert ch.inFlight == header + u[..k];
    CutUploadServed(server.repository, md5, isBig, cur.content, k);
    server.TaskAnalyse(ch, reply);
  }

  lemma CutInside(header: seq<byte>, rest: seq<byte>, k: nat)
    requires k <= |rest|
    ensures (header + rest)[..|header| + k] == header + rest[..k]
    ensures k == |rest| ==> header + rest == header + rest[..k]
  {
    assert k == |rest| ==> rest[..k] == rest;
  }

  method SendUpload(ch: Channel, cur: File, isBig: bool)
    requires cur.pos == 0 && |cur.content| < 0x8000_0000
    modifies ch, cur`pos
    ensures ch.inFlight == old(ch.inFlight) + Upload(isBig, cur.content)
    ensures isBig ==> cur.pos == 0
  {
    ghost var size := |cur.content|;
    var _ := SendN(ch, Flag(isBig));
    var _ := SendN(ch, OffT(|cur.content|));
    Assoc(old(ch.inFlight), Flag(isBig), OffT(size));
    WholeServed(cur.content);
    WholeRead(cur.content);
    if isBig {
      var _ := SendBigFile(ch, cur, 0, |cur.content|);
    } else {
      var _ := SendSmallFile(ch, cur, 0, |cur.content|);
    }
    Assoc(old(ch.inFlight), Flag(isBig) + OffT(size), cur.content);
  }

  lemma WholeServed(s: seq<byte>)
    ensures Served(s, 0, |s|) == s
  {
    assert Padded(s)[..|s|] == s;
  }

  lemma WholeRead(s: seq<byte>)
    ensures ReadOut(s, 0, |s|) == s
  {
    assert s[0..] == s;
  }

  /** Uploads a file: whole to one server, or, if it is big, whole to both. */
  method DoPuts(cur: File, md5: Name, s1: FileServer, s2: FileServer) returns (part1: nat, part2: nat)
    requires cur.pos == 0 && |cur.content| < 0x8000_0000
    modifies s1, s2, cur`pos
    ensures part1 == Part1(|cur.content|) && part2 == Part2(|cur.content|)
    ensures s1.repository == old(s1.repository)[md5 := cur.content]
    ensures s2.repository ==
      if IsBig(|cur.content|) || s1 == s2 then old(s2.repository)[md5 := cur.content] else old(s2.repository)
  {
    var fileSize := |cur.content|;
    if fileSize < 104857600 {
      part1, part2 := fileSize, 0;
      PutTo(s1, cur, md5, false);
    } else {
      part1 := fileSize / 8192 * 4096;
      part2 := fileSize - part1;
      PutTo(s1, cur, md5, true);
      PutTo(s2, cur, md5, true);
    }
  }

  // ---------------------------------------------------------------- download of a small file

  /** Asks a server for part of a file; `reply` is the stream that comes back. */
  method Ask(server: FileServer, md5: Name, offset: nat, partSize: nat) returns (reply: Channel)
    requires md5 in server.repository
    requires offset < 0x8000_0000 && partSize < 0x8000_0000
    requires partSize >= BigFileBoundary() ==> offset % 4096 == 0
    modifies server
    ensures fresh(reply) && server.repository == old(server.repository)
    ensures reply.inFlight == Reply(server.repository[md5], offset, partSize)
  {
    var ch := new Channel();
    reply := new Channel();
    SendHeader(ch, md5, CMD_GETS);
    SendRequest(ch, offset, partSize);
    RequestServed(server.repository, md5, offset, partSize);
    server.TaskAnalyse(ch, reply);
    assert [] + Reply(server.repository[md5], offset, partSize) == Reply(server.repository[md5], offset, partSize);
  }

  method SendRequest(ch: Channel, offset: nat, partSize: nat)
    requires offset < 0x8000_0000 && partSize < 0x8000_0000
    modifies ch
    ensures ch.inFlight == old(ch.inFlight) + Request(offset, partSize)
  {
    var _ := SendN(ch, Int32(offset));
    var _ := SendN(ch, Int32(partSize));
    Assoc(old(ch.inFlight), Int32(offset), Int32(partSize));
  }

  /** How many bytes of a small file are written if its stream is cut after `limit` bytes. */
  function SmallWritten(size: nat, cut: bool, limit: nat): nat {
    Written(ArrivedCount(size, cut, limit), size)
  }

  /** Downloads a file that is not split, over what the target held before.  If the connection
      breaks, or the client is killed, after `limit` bytes, the result is the file exactly if
      the rest was there already; otherwise exactly if the target was not longer. */
  method DoGetsSmall(s1: FileServer, md5: Name, part1: nat, target: File, cut: bool, limit: nat)
    requires md5 in s1.repository && |s1.repository[md5]| == part1 && !IsBig(part1)
    requires target.pos == 0
    modifies s1, target
    ensures s1.repository == old(s1.repository)
    ensures var file, m := s1.repository[md5], SmallWritten(part1, cut, limit);
      && target.content == Overwritten(old(target.content), 0, file[..m])
      && (target.content == file <==> SmallRight(old(target.content), file, m))
  {
    var reply := Ask(s1, md5, 0, part1);
    ghost var file, m := s1.repository[md5], SmallWritten(part1, cut, limit);
    WholeServed(file);
    WholeRead(file);
    assert reply.inFlight == file;
    if cut {
      reply.Cut(limit);
    }
    assert reply.inFlight == file[..ArrivedCount(part1, cut, limit)];
    assert reply.inFlight[..m] == file[..m];
    SmallRightIff(target.content, file, m);
    var _ := RecvSmallFile(reply, target, part1);
  }

  /** With m bytes of the file written over what was there, the result is the file. */
  ghost predicate SmallRight(before: seq<byte>, file: seq<byte>, m: nat) {
    if m >= |file| then |before| <= |file|
    else |before| == |file| && forall i :: m <= i < |file| ==> before[i] == file[i]
  }

  /** Two inputs: a file of one byte over an older one of two, and a fresh file when the
      connection breaks at once. */
  lemma SmallInputs()
    ensures Overwritten([1, 2], 0, [3]) == [3, 2] && !SmallRight([1, 2], [3], SmallWritten(1, false, 0))
    ensures Overwritten([], 0, [3][..0]) == [] && !SmallRight([], [3], SmallWritten(1, true, 0))
  {}

  lemma SmallRightIff(before: seq<byte>, file: seq<byte>, m: nat)
    requires m <= |file|
    ensures Overwritten(before, 0, file[..m]) == file <==> SmallRight(before, file, m)
  {
    var r := Overwritten(before, 0, file[..m]);
    assert |r| == if m < |before| then |before| else m;
    assert forall i :: 0 <= i < |r| ==> r[i] == if i < m then file[i] else before[i];
  }

  // ---------------------------------------------------------------- progress of a part

  /** A temporary file that an attempt may have left: nothing on the disk, or its first k
      pages, of which all but the last are known to be right.  `target` is what the file
      should come to hold, at least `size` bytes of it by downloading. */
  ghost predicate Progress(content: seq<byte>, pages: set<nat>, size: nat, target: seq<byte>) {
    && pages == Below(|pages|)
    && (pages != {} ==> size <= |content| <= |target|)
    && RightPages(content, |pages|, target)
  }

  /** All but the last of the first k pages are right. */
  ghost predicate RightPages(content: seq<byte>, k: nat, target: seq<byte>) {
    k > 0 ==>
      && (k - 1) * 4096 < |content| && (k - 1) * 4096 <= |target|
      && content[..(k - 1) * 4096] == target[..(k - 1) * 4096]
  }

  lemma PagesGrow(k: nat, off: nat, n: nat) returns (k': nat)
    requires off % 4096 == 0 && off <= k * 4096
    ensures Below(k) + Touched(off, n) == Below(k')
    ensures k' == k || (k' > k && n > 0 && (k' - 1) * 4096 < off + n)
    ensures n > 0 ==> off + n <= k' * 4096
  {
    var last := if n == 0 then 0 else (off + n - 1) / 4096 + 1;
    k' := if last > k then last else k;
    forall p: nat ensures p in Below(k) + Touched(off, n) <==> p in Below(k') {
      assert p in Touched(off, n) ==> p < last;
      assert k <= p < last ==> p in Touched(off, n);
    }
  }

  /** Right bytes keep a right prefix right, and lengthen it if they start inside it. */
  lemma RightSplice(content: seq<byte>, target: seq<byte>, off: nat, data: seq<byte>, m: nat)
    requires off + |data| <= |content| <= |target| && m <= |content|
    requires data == target[off..off + |data|]
    requires content[..m] == target[..m]
    ensures Splice(content, off, data)[..m] == target[..m]
    ensures off <= m ==> Splice(content, off, data)[..off + |data|] == target[..off + |data|]
  {
    var r := Splice(content, off, data);
    forall i | 0 <= i < |r| && (i < m || (off <= m && i < off + |data|)) ensures r[i] == target[i] {
      if i < m {
        assert content[i] == content[..m][i] && target[i] == target[..m][i];
      }
      if off <= i < off + |data| {
        assert r[i] == data[i - off] == target[off..off + |data|][i - off];
      }
    }
  }

  lemma RightPagesGrow(content: seq<byte>, target: seq<byte>, k: nat, k': nat, off: nat, data: seq<byte>)
    requires RightPages(content, k, target)
    requires off + |data| <= |content| <= |target|
    requires data == target[off..off + |data|] && content[..off] == target[..off]
    requires k' == k || (k' > k && (k' - 1) * 4096 < off + |data|)
    ensures RightPages(Splice(content, off, data), k', target)
  {
    if k' > k {
      RightSplice(content, target, off, data, off);
      PrefixShorter(Splice(content, off, data), target, off + |data|, (k' - 1) * 4096);
    } else if k > 0 {
      RightSplice(content, target, off, data, (k - 1) * 4096);
    }
  }

  /** Right bytes written from a point up to which all is right keep the progress. */
  lemma RightWriteKeeps(content: seq<byte>, pages: set<nat>, size: nat, target: seq<byte>, off: nat, data: seq<byte>)
    requires Progress(content, pages, size, target) && size <= |content| <= |target|
    requires off % 4096 == 0 && off <= |pages| * 4096
    requires off + |data| <= |content| && data == target[off..off + |data|] && content[..off] == target[..off]
    ensures Progress(Splice(content, off, data), pages + Touched(off, |data|), size, target)
    ensures Splice(content, off, data)[..off + |data|] == target[..off + |data|]
    ensures data != [] ==> off + |data| <= |pages + Touched(off, |data|)| * 4096
  {
    var k' := PagesGrow(|pages|, off, |data|);
    RightPagesGrow(content, target, |pages|, k', off, data);
    RightSplice(content, target, off, data, off);
  }

  lemma PrefixShorter(a: seq<byte>, b: seq<byte>, n: nat, m: nat)
    requires m <= n <= |a| && n <= |b| && a[..n] == b[..n]
    ensures a[..m] == b[..m]
  {
    assert a[..m] == a[..n][..m] && b[..m] == b[..n][..m];
  }

  // ---------------------------------------------------------------- download of a big file

  /** Where an attempt is killed: not at all; before it asks for data; when so many bytes of
      the two parts have arrived; or when so many bytes have been merged. */
  datatype Kill = Never | BeforeAsking | WhileDownloading(got1: nat, got2: nat) | WhileMerging(copied: nat)

  /** A temporary file is long enough and right up to where downloading resumes. */
  ghost predicate Ready(fd: File, size: nat, target: seq<byte>, offset: nat)
    reads fd
  {
    Resumable(fd.content, fd.pages, size, target, offset)
  }

  ghost predicate Resumable(content: seq<byte>, pages: set<nat>, size: nat, target: seq<byte>, offset: nat) {
    && Progress(content, pages, size, target)
    && size <= |content| <= |target|
    && offset % 4096 == 0 && offset <= |content| && offset <= |pages| * 4096
    && content[..offset] == target[..offset]
  }

  /** Where a file of k pages is resumed. */
  function ResumeAt(k: nat): (offset: nat)
    ensures offset % 4096 == 0
  {
    if k == 0 then 0 else (k - 1) * 4096
  }

  /** A temporary file as opening it leaves it. */
  ghost function Prepared(content: seq<byte>, k: nat, size: nat): seq<byte> {
    if k == 0 then Resized(content, size) else content
  }

  /** Opens a temporary file: a fresh one gets its length, and an old one is resumed at the
      start of the last page that has blocks. */
  method Prepare(fd: File, size: nat, ghost target: seq<byte>) returns (offset: nat)
    modifies fd`content, fd`pages
    ensures offset == ResumeAt(|old(fd.pages)|) && fd.content == Prepared(old(fd.content), |old(fd.pages)|, size)
    ensures fd.pages == old(fd.pages)
    ensures Progress(old(fd.content), old(fd.pages), size, target) && size <= |target| ==> Ready(fd, size, target, offset)
  {
    var pages := |fd.pages|;
    if pages == 0 {
      offset := pages;
      fd.Truncate(size);
      assert fd.pages == Below(0);
    } else {
      offset := (pages - 1) * 4096;
    }
  }

  /** The stream begins with the bytes that are missing, as far as it goes. */
  ghost predicate Delivers(s: seq<byte>, target: seq<byte>, offset: nat, n: int) {
    var got := Arrived(s, n);
    got == [] || (offset + |got| <= |target| && got == target[offset..offset + |got|])
  }

  lemma ReceivedKeeps(content: seq<byte>, pages: set<nat>, size: nat, target: seq<byte>, offset: nat, got: seq<byte>)
    requires Resumable(content, pages, size, target, offset)
    requires got == [] || (offset + |got| <= size && got == target[offset..offset + |got|])
    ensures var content', pages' := Received(content, offset, got), pages + Touched(offset, |got|);
      && Progress(content', pages', size, target)
      && (size <= offset + |got| ==> content'[..size] == target[..size] && size <= |pages'| * 4096)
  {
    if got == [] {
      assert pages + Touched(offset, 0) == pages;
      if size <= offset {
        PrefixShorter(content, target, offset, size);
      }
    } else {
      RightWriteKeeps(content, pages, size, target, offset, got);
    }
  }

  /** What has not arrived, from m on, is right already. */
  ghost predicate GapRight(content: seq<byte>, m: nat, size: nat, target: seq<byte>)
    requires size <= |content| && size <= |target|
  {
    forall i :: m <= i < size ==> content[i] == target[i]
  }

  lemma ReceivedRightIff(content: seq<byte>, size: nat, target: seq<byte>, offset: nat, got: seq<byte>)
    requires size <= |content| <= |target| && offset <= |content| && content[..offset] == target[..offset]
    requires got == [] || (offset + |got| <= size && got == target[offset..offset + |got|])
    ensures Received(content, offset, got)[..size] == target[..size] <==>
      GapRight(content, offset + |got|, size, target)
  {
    var m, r := offset + |got|, Received(content, offset, got);
    if got != [] {
      RightSplice(content, target, offset, got, offset);
    }
    assert r[..m] == target[..m];
    forall i | 0 <= i < size ensures r[i] == if i < m then target[i] else content[i] {
      assert i < m ==> r[i] == r[..m][i];
    }
    if r[..size] == target[..size] {
      forall i | m <= i < size ensures content[i] == target[i] {
        assert r[..size][i] == target[..size][i];
      }
    }
  }

  /** What a download leaves behind: a file that can be resumed, complete if nothing was
      missing from the stream, and right exactly if what did not arrive was right before. */
  ghost predicate Downloaded(content: seq<byte>, pages: set<nat>, before: seq<byte>,
                             size: nat, target: seq<byte>, offset: nat, arrived: nat)
  {
    && Progress(content, pages, size, target)
    && size <= |content| == |before| <= |target|
    && (size <= offset + arrived ==> content[..size] == target[..size] && size <= |pages| * 4096)
    && (content[..size] == target[..size] <==> GapRight(before, offset + arrived, size, target))
  }

  lemma DownloadKeeps(before: seq<byte>, pages: set<nat>, size: nat, target: seq<byte>, offset: nat, s: seq<byte>)
    requires Resumable(before, pages, size, target, offset) && Delivers(s, target, offset, size - offset)
    ensures var got := Arrived(s, size - offset);
      && (got != [] ==> offset + |got| <= |before|)
      && Downloaded(Received(before, offset, got), pages + Touched(offset, |got|), before, size, target, offset, |got|)
  {
    var got := Arrived(s, size - offset);
    ArrivedLength(s, size - offset);
    ReceivedKeeps(before, pages, size, target, offset, got);
    ReceivedRightIff(before, size, target, offset, got);
  }

  lemma DeliversExtends(before: seq<byte>, pages: set<nat>, s: seq<byte>, target: seq<byte>, offset: nat, n: int)
    requires Delivers(s, target, offset, n)
    requires var got := Arrived(s, n); got != [] ==> offset + |got| <= |before|
    ensures var got := Arrived(s, n);
      Extended(before, pages, Received(before, offset, got), pages + Touched(offset, |got|), target, offset, |got|)
  {}

  lemma DownloadExact(before: seq<byte>, pages: set<nat>, size: nat, target: seq<byte>, offset: nat, s: seq<byte>)
    requires Resumable(before, pages, size, target, offset) && Delivers(s, target, offset, size - offset)
    ensures var got := Arrived(s, size - offset);
      && (got != [] ==> offset + |got| <= |before|)
      && Downloaded(Received(before, offset, got), pages + Touched(offset, |got|), before, size, target, offset, |got|)
      && Extended(before, pages, Received(before, offset, got), pages + Touched(offset, |got|), target, offset, |got|)
  {
    DownloadKeeps(before, pages, size, target, offset, s);
    DeliversExtends(before, pages, s, target, offset, size - offset);
  }

  /** Downloads one part from the offset on. */
  method PthDownload(fd: File, sfd: Channel, offset: nat, size: nat, ghost target: seq<byte>)
    requires Ready(fd, size, target, offset) && Delivers(sfd.inFlight, target, offset, size - offset)
    modifies fd`content, fd`pages, sfd
    ensures Downloaded(fd.content, fd.pages, old(fd.content), size, target, offset,
                       |Arrived(old(sfd.inFlight), size - offset)|)
    ensures Extended(old(fd.content), old(fd.pages), fd.content, fd.pages, target, offset,
                     |Arrived(old(sfd.inFlight), size - offset)|)
  {
    ghost var s, c, pages := sfd.inFlight, fd.content, fd.pages;
    ghost var got := Arrived(s, size - offset);
    DownloadExact(c, pages, size, target, offset, s);
    var _ := RecvBigFile(sfd, fd, offset, size - offset);
    assert fd.content == Received(c, offset, got) && fd.pages == pages + Touched(offset, |got|);
  }

  /** Copies the second part behind the first, page by page, unless it is killed after
      `limit` bytes. */
  method MergeFile(fd1: File, fd2: File, part1: nat, part2: nat, limit: nat) returns (done: bool)
    requires fd1 != fd2 && part1 % 4096 == 0
    requires |fd1.content| == part1 + part2 && part2 <= |fd2.content|
    modifies fd1`content, fd1`pages
    ensures var n := Min(limit, part2);
      && fd1.content == Splice(old(fd1.content), part1, fd2.content[..n])
      && fd1.pages == old(fd1.pages) + Touched(part1, n)
    ensures done <==> part2 <= limit
  {
    var mergeSize := 0;
    ghost var c, pages := fd1.content, fd1.pages;
    SpliceAppend(c, part1, [], []);
    while mergeSize < part2
      invariant mergeSize <= part2 && mergeSize <= limit
      invariant mergeSize < part2 ==> mergeSize % 4096 == 0
      invariant fd1.content == Splice(c, part1, fd2.content[..mergeSize])
      invariant fd1.pages == pages + Touched(part1, mergeSize)
    {
      var curSize := if part2 - mergeSize < 4096 then part2 - mergeSize else 4096;
      var n := if limit - mergeSize < curSize then limit - mergeSize else curSize;
      MergePage(fd1, fd2, part1, mergeSize, curSize, n, c, pages);
      if n < curSize {
        return false;
      }
      mergeSize := mergeSize + curSize;
    }
    return true;
  }

  lemma MergeStep(c: seq<byte>, part1: nat, second: seq<byte>, mergeSize: nat, curSize: nat, n: nat)
    requires n <= curSize && part1 + mergeSize + n <= |c| && mergeSize + curSize <= |second|
    ensures var piece := Padded(second)[mergeSize..mergeSize + curSize][..n];
      Splice(Splice(c, part1, second[..mergeSize]), part1 + mergeSize, piece) == Splice(c, part1, second[..mergeSize + n])
  {
    var piece := second[mergeSize..mergeSize + n];
    assert Padded(second)[mergeSize..mergeSize + curSize][..n] == piece;
    assert second[..mergeSize] + piece == second[..mergeSize + n];
    SpliceAppend(c, part1, second[..mergeSize], piece);
  }

  /** Maps a page of both files and copies its first n bytes. */
  method MergePage(fd1: File, fd2: File, part1: nat, mergeSize: nat, curSize: nat, n: nat,
                   ghost c: seq<byte>, ghost pages: set<nat>)
    requires fd1 != fd2 && part1 % 4096 == 0 && mergeSize % 4096 == 0
    requires n <= curSize <= 4096 && 0 < curSize
    requires part1 + mergeSize + curSize <= |c| && mergeSize + curSize <= |fd2.content|
    requires fd1.content == Splice(c, part1, fd2.content[..mergeSize])
    requires fd1.pages == pages + Touched(part1, mergeSize)
    modifies fd1`content, fd1`pages
    ensures fd1.content == Splice(c, part1, fd2.content[..mergeSize + n])
    ensures fd1.pages == pages + Touched(part1, mergeSize + n)
  {
    var at := part1 + mergeSize;
    assert at % 4096 == 0;
    MergeStep(c, part1, fd2.content, mergeSize, curSize, n);
    TouchedAppend(part1, mergeSize, n);
    var _, buf := fd2.MapLoad(mergeSize, curSize);
    fd1.MapStore(at, curSize, buf[..n]);
  }

  // ---------------------------------------------------------------- attempts

  /** A big reply starts with the bytes of the stored file from the offset on. */
  lemma ServedStart(content: seq<byte>, offset: nat, n: int, m: int)
    requires m <= n && offset + m <= |content|
    ensures m <= |Served(content, offset, n)|
    ensures m > 0 ==> Served(content, offset, n)[..m] == content[offset..offset + m]
  {
    if m > 0 {
      assert Padded(content)[offset..offset + m] == content[offset..offset + m];
    }
  }

  lemma DeliversPrefix(s: seq<byte>, target: seq<byte>, offset: nat, n: int)
    requires n <= |s|
    requires n > 0 ==> offset + n <= |target| && s[..n] == target[offset..offset + n]
    ensures Delivers(s, target, offset, n)
    ensures forall cut :: 0 <= cut < |s| ==> Delivers(s[..cut], target, offset, n)
  {
    forall cut | 0 <= cut < |s| && n > 0 ensures Delivers(s[..cut], target, offset, n) {
      var m := Min(n, cut);
      assert s[..cut][..m] == s[..n][..m] == target[offset..offset + m];
    }
  }

  /** What a part's server sends, cut anywhere, is what is missing of the part: `start` is
      where the part lies in the file. */
  lemma ReplyDelivers(content: seq<byte>, start: nat, size: nat, offset: nat)
    requires start + size <= |content| && size >= BigFileBoundary()
    ensures var s := Reply(content, start + offset, size);
      && size - offset <= |s|
      && Delivers(s, content[start..], offset, size - offset)
      && forall cut :: 0 <= cut < |s| ==> Delivers(s[..cut], content[start..], offset, size - offset)
  {
    var target := content[start..];
    ReplyStart(content, start, size, offset);
    DeliversPrefix(Reply(content, start + offset, size), target, offset, size - offset);
  }

  lemma ReplyStart(content: seq<byte>, start: nat, size: nat, offset: nat)
    requires start + size <= |content| && size >= BigFileBoundary()
    ensures var s, n := Reply(content, start + offset, size), size - offset;
      && n <= |s|
      && (n > 0 ==> s[..n] == content[start..][offset..size])
  {
    var n := size - offset;
    if n > 0 {
      ServedStart(content, start + offset, size, n);
      assert content[start + offset..start + size] == content[start..][offset..size];
    }
  }

  /** How many of the missing bytes arrive, if the stream is cut after `limit` bytes or not. */
  function ArrivedCount(missing: int, cut: bool, limit: nat): nat {
    if missing <= 0 then 0 else if cut then Min(limit, missing) else missing
  }

  /** A stream that is cut after `limit` bytes, or not. */
  function CutAt(s: seq<byte>, cut: bool, limit: nat): seq<byte> {
    if cut && limit < |s| then s[..limit] else s
  }

  /** A server holds the bytes of a part; elsewhere its file may differ, but not in length. */
  ghost predicate HoldsPart(repository: map<seq<byte>, seq<byte>>, md5: Name, content: seq<byte>, start: nat, size: nat) {
    && md5 in repository && |repository[md5]| == |content| && start + size <= |content|
    && repository[md5][start..start + size] == content[start..start + size]
  }

  lemma CutReplyDelivers(stored: seq<byte>, content: seq<byte>, start: nat, size: nat, offset: nat, cut: bool, limit: nat)
    requires |stored| == |content| && start + size <= |content| && size >= BigFileBoundary()
    requires stored[start..start + size] == content[start..start + size]
    ensures var s := CutAt(Reply(stored, start + offset, size), cut, limit);
      && Delivers(s, content[start..], offset, size - offset)
      && |Arrived(s, size - offset)| == ArrivedCount(size - offset, cut, limit)
  {
    var s := CutAt(Reply(stored, start + offset, size), cut, limit);
    ReplyDelivers(stored, start, size, offset);
    ArrivedLength(s, size - offset);
    assert stored[start..][..size] == stored[start..start + size];
    assert content[start..][..size] == content[start..start + size];
    SameDelivers(s, stored[start..], content[start..], size, offset);
  }

  /** A stream that delivers the missing bytes of one file delivers those of any file with the
      same part. */
  lemma SameDelivers(s: seq<byte>, a: seq<byte>, b: seq<byte>, size: nat, offset: nat)
    requires size <= |a| && size <= |b| && a[..size] == b[..size] && Delivers(s, a, offset, size - offset)
    ensures Delivers(s, b, offset, size - offset)
  {
    var got := Arrived(s, size - offset);
    ArrivedLength(s, size - offset);
    if got != [] {
      var end := offset + |got|;
      assert a[offset..end] == a[..size][offset..end] == b[..size][offset..end] == b[offset..end];
    }
  }

  /** Asks for what is missing of a part.  If the connection is to break, or the client to be
      killed, when `limit` bytes have arrived, the stream is cut there. */
  method AskPart(server: FileServer, md5: Name, start: nat, size: nat, offset: nat,
                 cut: bool, limit: nat, ghost content: seq<byte>) returns (reply: Channel)
    requires HoldsPart(server.repository, md5, content, start, size) && |content| < 0x8000_0000
    requires size >= BigFileBoundary() && start % 4096 == 0
    requires offset % 4096 == 0 && start + offset <= |content|
    modifies server
    ensures fresh(reply) && server.repository == old(server.repository)
    ensures reply.inFlight == CutAt(Reply(server.repository[md5], start + offset, size), cut, limit)
  {
    var at := start + offset;
    assert at % 4096 == 0;
    reply := Ask(server, md5, at, size);
    if cut {
      reply.Cut(limit);
    }
  }

  /** A file with the n bytes of the target from the offset on put in their place. */
  ghost function Grown(before: seq<byte>, target: seq<byte>, offset: nat, n: nat): seq<byte>
    requires n > 0 ==> offset + n <= |before| && offset + n <= |target|
  {
    if n == 0 then before else Splice(before, offset, target[offset..offset + n])
  }

  /** The next n bytes from the offset have been added to a temporary file. */
  ghost predicate Extended(before: seq<byte>, pagesBefore: set<nat>, content: seq<byte>, pages: set<nat>,
                           target: seq<byte>, offset: nat, n: nat)
  {
    && (n > 0 ==> offset + n <= |before| && offset + n <= |target|)
    && content == Grown(before, target, offset, n)
    && pages == pagesBefore + Touched(offset, n)
  }

  /** Asks for a part and downloads it. */
  method FetchPart(server: FileServer, md5: Name, fd: File, start: nat, size: nat, offset: nat,
                   cut: bool, limit: nat, ghost content: seq<byte>, ghost target: seq<byte>)
    requires HoldsPart(server.repository, md5, content, start, size) && |content| < 0x8000_0000
    requires size >= BigFileBoundary() && start % 4096 == 0
    requires target == content[start..]
    requires Ready(fd, size, target, offset)
    modifies server, fd`content, fd`pages
    ensures server.repository == old(server.repository)
    ensures Progress(fd.content, fd.pages, size, target) && |fd.content| == |old(fd.content)|
    ensures !cut ==> fd.content[..size] == target[..size] && size <= |fd.pages| * 4096
    ensures fd.content[..size] == target[..size] <==>
      GapRight(old(fd.content), offset + ArrivedCount(size - offset, cut, limit), size, target)
    ensures Extended(old(fd.content), old(fd.pages), fd.content, fd.pages, target, offset,
                     ArrivedCount(size - offset, cut, limit))
  {
    CutReplyDelivers(server.repository[md5], content, start, size, offset, cut, limit);
    var reply := AskPart(server, md5, start, size, offset, cut, limit, content);
    assert Delivers(reply.inFlight, target, offset, size - offset);
    PthDownload(fd, reply, offset, size, target);
  }

  /** The merge of two downloaded parts, unless the client is killed after `limit` bytes. */
  method Merge(fd1: File, fd2: File, part1: nat, part2: nat, limit: nat, ghost content: seq<byte>)
    returns (done: bool)
    requires fd1 != fd2 && part1 % 4096 == 0 && 0 < part1 && part1 + part2 == |content|
    requires Progress(fd1.content, fd1.pages, part1, content) && part1 <= |fd1.content| <= |content|
    requires part1 <= |fd1.pages| * 4096 && fd1.content[..part1] == content[..part1]
    requires part2 <= |fd2.content| && fd2.content[..part2] == content[part1..]
    modifies fd1`content, fd1`pages
    ensures done <==> part2 <= limit
    ensures Progress(fd1.content, fd1.pages, part1, content)
    ensures done ==> fd1.content == content
    ensures fd1.content == Splice(Resized(old(fd1.content), |content|), part1, fd2.content[..Min(limit, part2)])
  {
    ghost var c, pages, n := fd1.content, fd1.pages, Min(limit, part2);
    TruncateKeeps(c, pages, part1, content);
    MergeKeeps(Resized(c, |content|), pages, part1, content, fd2.content, n);
    fd1.Truncate(part1 + part2);
    ghost var mid := fd1.content;
    assert mid == Resized(c, |content|) && fd1.pages == pages;
    done := MergeFile(fd1, fd2, part1, part2, limit);
    assert fd1.content == Splice(mid, part1, fd2.content[..n]) && fd1.pages == pages + Touched(part1, n);
  }

  lemma MergeKeeps(c: seq<byte>, pages: set<nat>, part1: nat, content: seq<byte>, second: seq<byte>, n: nat)
    requires Progress(c, pages, part1, content) && part1 <= |c| == |content| && part1 % 4096 == 0
    requires part1 <= |pages| * 4096 && c[..part1] == content[..part1]
    requires n <= |content| - part1 <= |second| && second[..|content| - part1] == content[part1..]
    ensures Progress(Splice(c, part1, second[..n]), pages + Touched(part1, n), part1, content)
    ensures n == |content| - part1 ==> Splice(c, part1, second[..n]) == content
  {
    var m := |content| - part1;
    assert second[..n] == second[..m][..n] == content[part1..part1 + n];
    RightWriteKeeps(c, pages, part1, content, part1, second[..n]);
    var r := Splice(c, part1, second[..n]);
    if n == m {
      assert r == r[..part1 + n] && content == content[..part1 + n];
    }
  }

  lemma TruncateKeeps(content: seq<byte>, pages: set<nat>, size: nat, target: seq<byte>)
    requires Progress(content, pages, size, target) && size <= |content| <= |target|
    requires content[..size] == target[..size]
    ensures Progress(Resized(content, |target|), pages, size, target)
    ensures Resized(content, |target|)[..size] == target[..size]
    ensures (set p | p in pages && p * 4096 < |target|) == pages
  {
    var r := Resized(content, |target|);
    assert r[..size] == content[..size];
    if pages != {} {
      assert r[..(|pages| - 1) * 4096] == content[..(|pages| - 1) * 4096];
    }
  }

  function Limit1(kill: Kill): nat { if kill.WhileDownloading? then kill.got1 else 0 }

  function Limit2(kill: Kill): nat { if kill.WhileDownloading? then kill.got2 else 0 }

  /** What a kill leaves of temporary files that were resumed at the two offsets: the bytes that
      had arrived; or the first file right up to the byte that was merged last, and beyond it as
      it was, or zero. */
  ghost predicate LeftBy(kill: Kill, opened1: seq<byte>, pages1: set<nat>, offset1: nat,
                         opened2: seq<byte>, pages2: set<nat>, offset2: nat, part1: nat, part2: nat,
                         content: seq<byte>, c1: seq<byte>, p1: set<nat>, c2: seq<byte>, p2: set<nat>)
    requires part1 <= |content|
  {
    match kill
    case Never => true
    case BeforeAsking => c1 == opened1 && p1 == pages1 && c2 == opened2 && p2 == pages2
    case WhileDownloading(got1, got2) =>
      && Extended(opened1, pages1, c1, p1, content, offset1, ArrivedCount(part1 - offset1, true, got1))
      && Extended(opened2, pages2, c2, p2, content[part1..], offset2, ArrivedCount(part2 - offset2, true, got2))
    case WhileMerging(copied) => MergedUpTo(opened1, c1, part1, Min(copied, part2), content)
  }

  ghost predicate MergedUpTo(before: seq<byte>, c: seq<byte>, part1: nat, n: nat, content: seq<byte>) {
    && |c| == |content| && part1 + n <= |content|
    && forall i :: 0 <= i < |c| ==>
         c[i] == (if i < part1 + n then content[i] else if i < |before| then before[i] else 0)
  }

  lemma MergedFrom(before: seq<byte>, pagesBefore: set<nat>, c: seq<byte>, pages: set<nat>, part1: nat, part2: nat,
                   n: nat, offset: nat, second: seq<byte>, content: seq<byte>)
    requires part1 + part2 == |content| && n <= part2 <= |second| && part1 <= |c| == |before| <= |content|
    requires Extended(before, pagesBefore, c, pages, content, offset, ArrivedCount(part1 - offset, false, 0))
    requires c[..part1] == content[..part1] && second[..part2] == content[part1..]
    ensures MergedUpTo(before, Splice(Resized(c, |content|), part1, second[..n]), part1, n, content)
  {
    var r := Splice(Resized(c, |content|), part1, second[..n]);
    forall i | 0 <= i < |r|
      ensures r[i] == (if i < part1 + n then content[i] else if i < |before| then before[i] else 0)
    {
      assert i < part1 ==> c[i] == c[..part1][i] == content[..part1][i];
      assert part1 <= i < part1 + n ==> second[i - part1] == second[..part2][i - part1] == content[part1..][i - part1];
    }
  }

  /** One attempt at a big download, with temporary files as earlier attempts left them. */
  method DoGetsBig(s1: FileServer, s2: FileServer, md5: Name, part1: nat, part2: nat,
                   temp1: File, temp2: File, kill: Kill, ghost content: seq<byte>) returns (done: bool)
    requires temp1 != temp2 && IsBig(|content|) && |content| < 0x8000_0000
    requires part1 == Part1(|content|) && part2 == Part2(|content|)
    requires HoldsPart(s1.repository, md5, content, 0, part1)
    requires HoldsPart(s2.repository, md5, content, part1, part2)
    requires Progress(temp1.content, temp1.pages, part1, content)
    requires Progress(temp2.content, temp2.pages, part2, content[part1..])
    modifies s1, s2, temp1`content, temp1`pages, temp2`content, temp2`pages
    ensures s1.repository == old(s1.repository) && s2.repository == old(s2.repository)
    ensures done <==> kill.Never?
    ensures done ==> temp1.content == content
    ensures LeftBy(kill, Prepared(old(temp1.content), |old(temp1.pages)|, part1), old(temp1.pages), ResumeAt(|old(temp1.pages)|),
                   Prepared(old(temp2.content), |old(temp2.pages)|, part2), old(temp2.pages), ResumeAt(|old(temp2.pages)|),
                   part1, part2, content, temp1.content, temp1.pages, temp2.content, temp2.pages)
    ensures Progress(temp1.content, temp1.pages, part1, content)
    ensures Progress(temp2.content, temp2.pages, part2, content[part1..])
  {
    SplitAgrees(|content|);
    ghost var rest := content[part1..];
    var offset1 := Prepare(temp1, part1, content);
    var offset2 := Prepare(temp2, part2, rest);
    if kill.BeforeAsking? {
      return false;
    }
    done := FetchAndMerge(s1, s2, md5, part1, part2, temp1, temp2, offset1, offset2, kill, content, rest);
  }

  /** The rest of the attempt, once the files are open. */
  method FetchAndMerge(s1: FileServer, s2: FileServer, md5: Name, part1: nat, part2: nat,
                       temp1: File, temp2: File, offset1: nat, offset2: nat, kill: Kill,
                       ghost content: seq<byte>, ghost rest: seq<byte>) returns (done: bool)
    requires temp1 != temp2 && |content| < 0x8000_0000 && !kill.BeforeAsking?
    requires part1 + part2 == |content| && part1 % 4096 == 0 && rest == content[part1..]
    requires part1 >= BigFileBoundary() && part2 >= BigFileBoundary()
    requires HoldsPart(s1.repository, md5, content, 0, part1)
    requires HoldsPart(s2.repository, md5, content, part1, part2)
    requires Ready(temp1, part1, content, offset1) && Ready(temp2, part2, rest, offset2)
    modifies s1, s2, temp1`content, temp1`pages, temp2`content, temp2`pages
    ensures s1.repository == old(s1.repository) && s2.repository == old(s2.repository)
    ensures done <==> kill.Never?
    ensures done ==> temp1.content == content
    ensures LeftBy(kill, old(temp1.content), old(temp1.pages), offset1, old(temp2.content), old(temp2.pages), offset2,
                   part1, part2, content, temp1.content, temp1.pages, temp2.content, temp2.pages)
    ensures Progress(temp1.content, temp1.pages, part1, content)
    ensures Progress(temp2.content, temp2.pages, part2, rest)
  {
    ghost var before, pagesBefore := temp1.content, temp1.pages;
    MultiPointDownload(s1, s2, md5, part1, part2, temp1, temp2, offset1, offset2, kill, content, rest);
    if kill.WhileDownloading? {
      return false;
    }
    assert rest[..part2] == rest;
    done := MergeUpTo(temp1, temp2, part1, part2, kill, content, before, pagesBefore, offset1);
  }

  /** The merge of an attempt, from files that are complete. */
  method MergeUpTo(fd1: File, fd2: File, part1: nat, part2: nat, kill: Kill, ghost content: seq<byte>,
                   ghost before: seq<byte>, ghost pagesBefore: set<nat>, ghost offset: nat) returns (done: bool)
    requires fd1 != fd2 && part1 % 4096 == 0 && 0 < part1 && part1 + part2 == |content|
    requires kill.Never? || kill.WhileMerging?
    requires Progress(fd1.content, fd1.pages, part1, content) && part1 <= |fd1.content| == |before| <= |content|
    requires part1 <= |fd1.pages| * 4096 && fd1.content[..part1] == content[..part1]
    requires part2 <= |fd2.content| && fd2.content[..part2] == content[part1..]
    requires Extended(before, pagesBefore, fd1.content, fd1.pages, content, offset, ArrivedCount(part1 - offset, false, 0))
    modifies fd1`content, fd1`pages
    ensures done <==> kill.Never?
    ensures done ==> fd1.content == content
    ensures kill.WhileMerging? ==> MergedUpTo(before, fd1.content, part1, Min(kill.copied, part2), content)
    ensures Progress(fd1.content, fd1.pages, part1, content)
  {
    var limit := if kill.WhileMerging? then kill.copied else part2;
    MergedFrom(before, pagesBefore, fd1.content, fd1.pages, part1, part2, Min(limit, part2), offset, fd2.content, content);
    var merged := Merge(fd1, fd2, part1, part2, limit, content);
    done := kill.Never?;
  }

  /** The two downloads.  They touch different files and different streams, so how their
      threads interleave makes no difference. */
  method MultiPointDownload(s1: FileServer, s2: FileServer, md5: Name, part1: nat, part2: nat,
                            temp1: File, temp2: File, offset1: nat, offset2: nat, kill: Kill,
                            ghost content: seq<byte>, ghost rest: seq<byte>)
    requires temp1 != temp2 && |content| < 0x8000_0000
    requires part1 + part2 == |content| && part1 % 4096 == 0 && rest == content[part1..]
    requires part1 >= BigFileBoundary() && part2 >= BigFileBoundary()
    requires HoldsPart(s1.repository, md5, content, 0, part1)
    requires HoldsPart(s2.repository, md5, content, part1, part2)
    requires Ready(temp1, part1, content, offset1) && Ready(temp2, part2, rest, offset2)
    modifies s1, s2, temp1`content, temp1`pages, temp2`content, temp2`pages
    ensures s1.repository == old(s1.repository) && s2.repository == old(s2.repository)
    ensures Progress(temp1.content, temp1.pages, part1, content) && |temp1.content| == |old(temp1.content)|
    ensures Progress(temp2.content, temp2.pages, part2, rest) && |temp2.content| == |old(temp2.content)|
    ensures !kill.WhileDownloading? ==>
      && temp1.content[..part1] == content[..part1] && part1 <= |temp1.pages| * 4096
      && temp2.content[..part2] == rest[..part2]
    ensures Extended(old(temp1.content), old(temp1.pages), temp1.content, temp1.pages, content, offset1,
                     ArrivedCount(part1 - offset1, kill.WhileDownloading?, Limit1(kill)))
    ensures Extended(old(temp2.content), old(temp2.pages), temp2.content, temp2.pages, rest, offset2,
                     ArrivedCount(part2 - offset2, kill.WhileDownloading?, Limit2(kill)))
    ensures kill.WhileDownloading? ==>
      && (temp1.content[..part1] == content[..part1] <==>
            GapRight(old(temp1.content), offset1 + ArrivedCount(part1 - offset1, true, kill.got1), part1, content))
      && (temp2.content[..part2] == rest[..part2] <==>
            GapRight(old(temp2.content), offset2 + ArrivedCount(part2 - offset2, true, kill.got2), part2, rest))
  {
    var cut := kill.WhileDownloading?;
    assert content[0..] == content;
    FetchPart(s1, md5, temp1, 0, part1, offset1, cut, Limit1(kill), content, content);
    FetchPart(s2, md5, temp2, part1, part2, offset2, cut, Limit2(kill), content, rest);
  }

  /** Any number of interrupted attempts, and then one that is left alone. */
  method ResumedDownload(s1: FileServer, s2: FileServer, md5: Name, part1: nat, part2: nat,
                         temp1: File, temp2: File, kills: seq<Kill>, ghost content: seq<byte>)
    requires temp1 != temp2 && IsBig(|content|) && |content| < 0x8000_0000
    requires part1 == Part1(|content|) && part2 == Part2(|content|)
    requires HoldsPart(s1.repository, md5, content, 0, part1)
    requires HoldsPart(s2.repository, md5, content, part1, part2)
    requires Progress(temp1.content, temp1.pages, part1, content)
    requires Progress(temp2.content, temp2.pages, part2, content[part1..])
    modifies s1, s2, temp1`content, temp1`pages, temp2`content, temp2`pages
    ensures temp1.content == content
    ensures s1.repository == old(s1.repository) && s2.repository == old(s2.repository)
  {
    for i := 0 to |kills|
      invariant s1.repository == old(s1.repository) && s2.repository == old(s2.repository)
      invariant Progress(temp1.content, temp1.pages, part1, content)
      invariant Progress(temp2.content, temp2.pages, part2, content[part1..])
    {
      var done := DoGetsBig(s1, s2, md5, part1, part2, temp1, temp2, kills[i], content);
      if done {
        return;
      }
    }
    var _ := DoGetsBig(s1, s2, md5, part1, part2, temp1, temp2, Never, content);
  }

  // ---------------------------------------------------------------- the round trip

  /** Any number of interrupted attempts at a small file, each of which starts over, and then
      one that is left alone. */
  method ResumedSmall(s1: FileServer, md5: Name, part1: nat, kills: seq<Kill>) returns (target: File)
    requires md5 in s1.repository && |s1.repository[md5]| == part1 && !IsBig(part1)
    modifies s1
    ensures s1.repository == old(s1.repository) && target.content == s1.repository[md5]
  {
    target := new File([], {});
    for i := 0 to |kills|
      invariant fresh(target) && target.pos == 0 && |target.content| <= part1
      invariant s1.repository == old(s1.repository)
    {
      if kills[i].WhileDownloading? {
        DoGetsSmall(s1, md5, part1, target, true, kills[i].got1);
        target := new File(target.content, target.pages);
      }
    }
    DoGetsSmall(s1, md5, part1, target, false, 0);
  }

  /** All that a download of the file asks for is there: the file, or a part on each server. */
  ghost predicate Available(first: map<seq<byte>, seq<byte>>, second: map<seq<byte>, seq<byte>>, md5: Name, content: seq<byte>) {
    if IsBig(|content|) then
      && HoldsPart(first, md5, content, 0, Part1(|content|))
      && HoldsPart(second, md5, content, Part1(|content|), Part2(|content|))
    else md5 in first && first[md5] == content
  }

  /** Downloads a file from the server or the two servers that hold it, into fresh files. */
  method DoGets(s1: FileServer, s2: FileServer, md5: Name, part1: nat, part2: nat, kills: seq<Kill>,
                ghost content: seq<byte>) returns (result: File)
    requires |content| < 0x8000_0000 && part1 == Part1(|content|) && part2 == Part2(|content|)
    requires Available(s1.repository, s2.repository, md5, content)
    modifies s1, s2
    ensures s1.repository == old(s1.repository) && s2.repository == old(s2.repository)
    ensures result.content == content
  {
    SplitAgrees(|content|);
    if part2 == 0 {
      result := ResumedSmall(s1, md5, part1, kills);
    } else {
      result := new File([], {});
      var temp2 := new File([], {});
      assert {} == Below(0);
      ResumedDownload(s1, s2, md5, part1, part2, result, temp2, kills, content);
    }
  }

  /** Whatever the size of the file, however the streams are fragmented and however often
      the download is interrupted: what comes back is what was uploaded. */
  method UploadThenDownload(cur: File, md5: Name, s1: FileServer, s2: FileServer, kills: seq<Kill>)
    returns (result: File)
    requires cur.pos == 0 && |cur.content| < 0x8000_0000
    modifies s1, s2, cur`pos
    ensures result.content == cur.content
  {
    ghost var content := cur.content;
    SplitAgrees(|content|);
    var part1, part2 := DoPuts(cur, md5, s1, s2);
    result := DoGets(s1, s2, md5, part1, part2, kills, content);
  }
}
