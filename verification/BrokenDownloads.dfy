/** Downloads of a big file whose connections break without the client being killed: the client
    goes on to merge, and a later attempt goes by the pages that this leaves. */
module BrokenDownloads {
  import opened Naturals
  import opened Bytes
  import opened Channels
  import opened Files
  import opened TransFile
  import opened FileServer
  import opened NetClient

  /** Up to where a temporary file of k pages has been downloaded when its connection breaks
      after `limit` bytes. */
  ghost function DownloadedTo(k: nat, size: nat, limit: nat): nat {
    var offset := ResumeAt(k);
    offset + ArrivedCount(size - offset, true, limit)
  }

  lemma MergedRightIff(c1: seq<byte>, c2: seq<byte>, part1: nat, content: seq<byte>)
    requires part1 <= |c1| && part1 <= |content| && |content| - part1 <= |c2|
    ensures var rest := content[part1..];
      Splice(Resized(c1, |content|), part1, c2[..|rest|]) == content <==>
        c1[..part1] == content[..part1] && c2[..|rest|] == rest
  {
    var rest := content[part1..];
    var merged := Splice(Resized(c1, |content|), part1, c2[..|rest|]);
    assert merged[..part1] == c1[..part1] && merged[part1..] == c2[..|rest|];
    assert merged == merged[..part1] + merged[part1..] && content == content[..part1] + rest;
  }

  /** Every byte of a part that does not arrive, when its connection breaks after `got` bytes,
      was right in the temporary file before. */
  ghost predicate MissingRight(content: seq<byte>, k: nat, size: nat, got: nat, target: seq<byte>) {
    var before := Prepared(content, k, size);
    size <= |before| && size <= |target| && GapRight(before, DownloadedTo(k, size, got), size, target)
  }

  lemma PreparedMissing(before: seq<byte>, k: nat, size: nat, got: nat, target: seq<byte>,
                        offset: nat, content: seq<byte>)
    requires content == (if k == 0 then Resized(before, size) else before) && size <= |content| && size <= |target|
    requires offset == ResumeAt(k)
    ensures MissingRight(before, k, size, got, target) <==>
      GapRight(content, offset + ArrivedCount(size - offset, true, got), size, target)
  {}

  /** In a fresh temporary file that is: the file has zeros wherever nothing arrived. */
  lemma FreshMissing(size: nat, got: nat, target: seq<byte>)
    requires size <= |target|
    ensures MissingRight([], 0, size, got, target) <==> forall i :: got <= i < size ==> target[i] == 0
  {
    assert forall i :: 0 <= i < size ==> Prepared([], 0, size)[i] == 0;
  }

  /** An attempt in which the connections break after so many bytes.  The client does not
      look at what the downloads return and merges all the same, so the result is the file
      exactly if every byte that did not arrive was right already. */
  method DroppedDownload(s1: FileServer, s2: FileServer, md5: Name, part1: nat, part2: nat,
                         temp1: File, temp2: File, got1: nat, got2: nat, ghost content: seq<byte>)
    requires temp1 != temp2 && IsBig(|content|) && |content| < 0x8000_0000
    requires part1 == Part1(|content|) && part2 == Part2(|content|)
    requires HoldsPart(s1.repository, md5, content, 0, part1)
    requires HoldsPart(s2.repository, md5, content, part1, part2)
    requires Progress(temp1.content, temp1.pages, part1, content)
    requires Progress(temp2.content, temp2.pages, part2, content[part1..])
    modifies s1, s2, temp1`content, temp1`pages, temp2`content, temp2`pages
    ensures temp1.content == content <==>
      && MissingRight(old(temp1.content), |old(temp1.pages)|, part1, got1, content)
      && MissingRight(old(temp2.content), |old(temp2.pages)|, part2, got2, content[part1..])
  {
    SplitAgrees(|content|);
    ghost var rest := content[part1..];
    FetchDropped(s1, s2, md5, part1, part2, temp1, temp2, got1, got2, content, rest);
    ghost var c1, c2 := temp1.content, temp2.content;
    MergedRightIff(c1, c2, part1, content);
    MergeAll(temp1, temp2, part1, part2);
    assert |rest| == part2 && temp1.content == Splice(Resized(c1, |content|), part1, c2[..|rest|]);
  }

  /** The downloads of such an attempt. */
  method FetchDropped(s1: FileServer, s2: FileServer, md5: Name, part1: nat, part2: nat,
                      temp1: File, temp2: File, got1: nat, got2: nat,
                      ghost content: seq<byte>, ghost rest: seq<byte>)
    requires temp1 != temp2 && |content| < 0x8000_0000
    requires part1 + part2 == |content| && part1 % 4096 == 0 && rest == content[part1..]
    requires part1 >= BigFileBoundary() && part2 >= BigFileBoundary()
    requires HoldsPart(s1.repository, md5, content, 0, part1)
    requires HoldsPart(s2.repository, md5, content, part1, part2)
    requires Progress(temp1.content, temp1.pages, part1, content)
    requires Progress(temp2.content, temp2.pages, part2, rest)
    modifies s1, s2, temp1`content, temp1`pages, temp2`content, temp2`pages
    ensures part1 <= |temp1.content| && part2 <= |temp2.content|
    ensures temp1.content[..part1] == content[..part1] <==>
      MissingRight(old(temp1.content), |old(temp1.pages)|, part1, got1, content)
    ensures temp2.content[..part2] == rest <==>
      MissingRight(old(temp2.content), |old(temp2.pages)|, part2, got2, rest)
  {
    var offset1 := Prepare(temp1, part1, content);
    var offset2 := Prepare(temp2, part2, rest);
    var kill := WhileDownloading(got1, got2);
    assert rest[..part2] == rest;
    PreparedMissing(old(temp1.content), |old(temp1.pages)|, part1, got1, content, offset1, temp1.content);
    PreparedMissing(old(temp2.content), |old(temp2.pages)|, part2, got2, rest, offset2, temp2.content);
    MultiPointDownload(s1, s2, md5, part1, part2, temp1, temp2, offset1, offset2, kill, content, rest);
  }

  /** The merge, whatever the two parts hold. */
  method MergeAll(fd1: File, fd2: File, part1: nat, part2: nat)
    requires fd1 != fd2 && part1 % 4096 == 0 && part1 <= |fd1.content| && part2 <= |fd2.content|
    modifies fd1`content, fd1`pages
    ensures fd1.content == Splice(Resized(old(fd1.content), part1 + part2), part1, fd2.content[..part2])
  {
    fd1.Truncate(part1 + part2);
    var _ := MergeFile(fd1, fd2, part1, part2, part2);
  }

  // ---------------------------------------------------------------- from any temporary files

  /** All that lies in the part before the point at which k pages make the client resume is
      right. */
  ghost predicate RightBefore(content: seq<byte>, k: nat, size: nat, target: seq<byte>) {
    var m := Min(ResumeAt(k), size);
    m <= |content| && m <= |target| && content[..m] == target[..m]
  }

  lemma ReceivedTailIff(content: seq<byte>, size: nat, target: seq<byte>, offset: nat, got: seq<byte>)
    requires size <= |content| && size <= |target|
    requires got == if size <= offset then [] else target[offset..size]
    ensures Received(content, offset, got)[..size] == target[..size] <==>
      content[..Min(offset, size)] == target[..Min(offset, size)]
  {
    var r, m := Received(content, offset, got), Min(offset, size);
    assert forall i :: 0 <= i < size ==> r[i] == if i < m then content[i] else target[i];
    if r[..size] == target[..size] {
      forall i | 0 <= i < m ensures content[i] == target[i] {
        assert r[..size][i] == target[..size][i];
      }
    }
    if content[..m] == target[..m] {
      forall i | 0 <= i < m ensures content[i] == target[i] {
        assert content[..m][i] == target[..m][i];
      }
    }
  }

  /** Downloads the rest of a part, whatever the file holds before. */
  method FetchRest(server: FileServer, md5: Name, fd: File, start: nat, size: nat, offset: nat,
                   ghost content: seq<byte>, ghost target: seq<byte>)
    requires HoldsPart(server.repository, md5, content, start, size) && |content| < 0x8000_0000
    requires size >= BigFileBoundary() && start % 4096 == 0 && target == content[start..]
    requires offset % 4096 == 0 && start + offset <= |content| && size <= |fd.content|
    modifies server, fd`content, fd`pages
    ensures server.repository == old(server.repository) && |fd.content| == |old(fd.content)|
    ensures fd.content[..size] == target[..size] <==>
      old(fd.content)[..Min(offset, size)] == target[..Min(offset, size)]
  {
    ghost var stored := server.repository[md5];
    CutReplyDelivers(stored, content, start, size, offset, false, 0);
    var reply := AskPart(server, md5, start, size, offset, false, 0, content);
    ghost var got := Arrived(reply.inFlight, size - offset);
    assert got == if size <= offset then [] else target[offset..size];
    ReceivedTailIff(fd.content, size, target, offset, got);
    var _ := RecvBigFile(reply, fd, offset, size - offset);
  }

  /** The client may resume from these pages: the file is long enough. */
  ghost predicate Usable(content: seq<byte>, k: nat, size: nat, room: nat) {
    (k > 0 ==> size <= |content|) && ResumeAt(k) <= room
  }

  lemma PreparedRightIff(before: seq<byte>, k: nat, size: nat, target: seq<byte>, room: nat)
    requires Usable(before, k, size, room) && size <= |target|
    ensures var c, m := Prepared(before, k, size), Min(ResumeAt(k), size);
      size <= |c| && (c[..m] == target[..m] <==> RightBefore(before, k, size, target))
  {}

  /** An attempt that is left alone, from whatever temporary files there are: it gives the file
      exactly if all before the two points of resumption is right. */
  method CleanAttempt(s1: FileServer, s2: FileServer, md5: Name, part1: nat, part2: nat,
                      temp1: File, temp2: File, ghost content: seq<byte>)
    requires temp1 != temp2 && IsBig(|content|) && |content| < 0x8000_0000
    requires part1 == Part1(|content|) && part2 == Part2(|content|)
    requires HoldsPart(s1.repository, md5, content, 0, part1)
    requires HoldsPart(s2.repository, md5, content, part1, part2)
    requires Usable(temp1.content, |temp1.pages|, part1, |content|)
    requires Usable(temp2.content, |temp2.pages|, part2, part2)
    modifies s1, s2, temp1`content, temp1`pages, temp2`content, temp2`pages
    ensures temp1.content == content <==>
      && RightBefore(old(temp1.content), |old(temp1.pages)|, part1, content)
      && RightBefore(old(temp2.content), |old(temp2.pages)|, part2, content[part1..])
  {
    SplitAgrees(|content|);
    ghost var rest := content[part1..];
    FetchRests(s1, s2, md5, part1, part2, temp1, temp2, content, rest);
    ghost var c1, c2 := temp1.content, temp2.content;
    MergedRightIff(c1, c2, part1, content);
    MergeAll(temp1, temp2, part1, part2);
    assert |rest| == part2 && temp1.content == Splice(Resized(c1, |content|), part1, c2[..|rest|]);
  }

  method FetchRests(s1: FileServer, s2: FileServer, md5: Name, part1: nat, part2: nat,
                    temp1: File, temp2: File, ghost content: seq<byte>, ghost rest: seq<byte>)
    requires temp1 != temp2 && |content| < 0x8000_0000
    requires part1 + part2 == |content| && part1 % 4096 == 0 && rest == content[part1..]
    requires part1 >= BigFileBoundary() && part2 >= BigFileBoundary()
    requires HoldsPart(s1.repository, md5, content, 0, part1)
    requires HoldsPart(s2.repository, md5, content, part1, part2)
    requires Usable(temp1.content, |temp1.pages|, part1, |content|)
    requires Usable(temp2.content, |temp2.pages|, part2, part2)
    modifies s1, s2, temp1`content, temp1`pages, temp2`content, temp2`pages
    ensures part1 <= |temp1.content| && part2 <= |temp2.content|
    ensures temp1.content[..part1] == content[..part1] <==>
      RightBefore(old(temp1.content), |old(temp1.pages)|, part1, content)
    ensures temp2.content[..part2] == rest <==>
      RightBefore(old(temp2.content), |old(temp2.pages)|, part2, rest)
  {
    var offset1 := Prepare(temp1, part1, content);
    var offset2 := Prepare(temp2, part2, rest);
    assert content[0..] == content && rest[..part2] == rest;
    PreparedRightIff(old(temp1.content), |old(temp1.pages)|, part1, content, |content|);
    PreparedRightIff(old(temp2.content), |old(temp2.pages)|, part2, rest, part2);
    FetchRest(s1, md5, temp1, 0, part1, offset1, content, content);
    assert HoldsPart(s2.repository, md5, content, part1, part2);
    FetchRest(s2, md5, temp2, part1, part2, offset2, content, rest);
  }

  // ---------------------------------------------------------------- broken, then killed

  /** The pages of the first temporary file after connections have broken and the client was
      killed when `copied` bytes had been merged. */
  ghost function PagesLeft(pages: set<nat>, part1: nat, got1: nat, copied: nat): set<nat> {
    var offset := ResumeAt(|pages|);
    pages + Touched(offset, ArrivedCount(part1 - offset, true, got1)) + Touched(part1, copied)
  }

  lemma PagesInside(pages: set<nat>, end: nat)
    requires forall p <- pages :: p * 4096 < end
    ensures ResumeAt(|pages|) <= end
  {
    var q := (end + 4095) / 4096;
    assert forall p <- pages :: p < q;
    Contained(pages, Below(q));
  }

  /** What the first temporary file holds then. */
  ghost predicate HalfMerged(content: seq<byte>, before: seq<byte>, k: nat, part1: nat, got1: nat,
                             target: seq<byte>, second: seq<byte>, copied: nat)
  {
    var offset := ResumeAt(k);
    var n := ArrivedCount(part1 - offset, true, got1);
    var c := Prepared(before, k, part1);
    && offset + n <= |target| && (n > 0 ==> offset + n <= |c|) && part1 <= |c| <= |target|
    && copied <= |second| && part1 + copied <= |target|
    && content == Splice(Resized(Grown(c, target, offset, n), |target|), part1, second[..copied])
  }

  /** The hole: what was to be downloaded, had not arrived when the connection broke, and lies
      before the point at which the client resumes. */
  ghost predicate HoleRight(before: seq<byte>, pages: set<nat>, part1: nat, got1: nat, copied: nat, target: seq<byte>) {
    var k, c := |pages|, Prepared(before, |pages|, part1);
    var end := Min(ResumeAt(|PagesLeft(pages, part1, got1, copied)|), part1);
    end <= |c| && end <= |target| && GapRight(c, DownloadedTo(k, part1, got1), end, target)
  }

  /** When the next attempt finds all right before its point of resumption. */
  lemma HoleIff(content: seq<byte>, before: seq<byte>, pages: set<nat>, part1: nat, got1: nat,
                target: seq<byte>, second: seq<byte>, copied: nat)
    requires HalfMerged(content, before, |pages|, part1, got1, target, second, copied)
    requires ResumeAt(|pages|) <= |target| && ResumeAt(|pages|) <= |Prepared(before, |pages|, part1)|
    requires Prepared(before, |pages|, part1)[..ResumeAt(|pages|)] == target[..ResumeAt(|pages|)]
    ensures RightBefore(content, |PagesLeft(pages, part1, got1, copied)|, part1, target) <==>
      HoleRight(before, pages, part1, got1, copied, target)
  {
    var c, offset := Prepared(before, |pages|, part1), ResumeAt(|pages|);
    var n := ArrivedCount(part1 - offset, true, got1);
    var end := Min(ResumeAt(|PagesLeft(pages, part1, got1, copied)|), part1);
    HalfMergedPrefix(c, target, offset, n, part1, second[..copied], end);
    assert DownloadedTo(|pages|, part1, got1) == offset + n;
    HoleIs(before, pages, part1, got1, copied, target);
  }

  lemma HoleIs(before: seq<byte>, pages: set<nat>, part1: nat, got1: nat, copied: nat, target: seq<byte>)
    requires part1 <= |Prepared(before, |pages|, part1)| && part1 <= |target|
    ensures HoleRight(before, pages, part1, got1, copied, target) <==>
      GapRight(Prepared(before, |pages|, part1), DownloadedTo(|pages|, part1, got1),
               Min(ResumeAt(|PagesLeft(pages, part1, got1, copied)|), part1), target)
  {}

  lemma HalfMergedPrefix(c: seq<byte>, target: seq<byte>, offset: nat, n: nat, part1: nat, merged: seq<byte>, end: nat)
    requires part1 <= |c| <= |target| && part1 + |merged| <= |target| && end <= part1
    requires offset <= |c| && offset + n <= |target| && (n > 0 ==> offset + n <= |c|) && c[..offset] == target[..offset]
    ensures var r := Splice(Resized(Grown(c, target, offset, n), |target|), part1, merged);
      r[..end] == target[..end] <==> GapRight(c, offset + n, end, target)
  {
    var r := Splice(Resized(Grown(c, target, offset, n), |target|), part1, merged);
    forall i | 0 <= i < end ensures r[i] == if i < offset + n then target[i] else c[i] {
      HalfMergedAt(c, target, offset, n, part1, merged, i);
    }
    PrefixEqual(r, target, end);
  }

  lemma HalfMergedAt(c: seq<byte>, target: seq<byte>, offset: nat, n: nat, part1: nat, merged: seq<byte>, i: nat)
    requires part1 <= |c| <= |target| && part1 + |merged| <= |target| && i < part1
    requires offset <= |c| && offset + n <= |target| && (n > 0 ==> offset + n <= |c|) && c[..offset] == target[..offset]
    ensures var r := Splice(Resized(Grown(c, target, offset, n), |target|), part1, merged);
      r[i] == if i < offset + n then target[i] else c[i]
  {
    assert i < offset ==> c[i] == c[..offset][i] == target[..offset][i];
    assert n > 0 && offset <= i < offset + n ==> target[offset..offset + n][i - offset] == target[i];
  }

  lemma PrefixEqual(a: seq<byte>, b: seq<byte>, n: nat)
    requires n <= |a| && n <= |b|
    ensures a[..n] == b[..n] <==> forall i :: 0 <= i < n ==> a[i] == b[i]
  {
    if a[..n] == b[..n] {
      forall i | 0 <= i < n ensures a[i] == b[i] {
        assert a[..n][i] == b[..n][i];
      }
    }
  }

  /** An attempt whose connections break after so many bytes, and which is killed when so many
      bytes have been merged. */
  method DroppedAndKilled(s1: FileServer, s2: FileServer, md5: Name, part1: nat, part2: nat,
                          temp1: File, temp2: File, got1: nat, got2: nat, copied: nat, ghost content: seq<byte>)
    requires temp1 != temp2 && |content| < 0x8000_0000 && copied < part2
    requires part1 + part2 == |content| && part1 % 4096 == 0
    requires part1 >= BigFileBoundary() && part2 >= BigFileBoundary()
    requires HoldsPart(s1.repository, md5, content, 0, part1)
    requires HoldsPart(s2.repository, md5, content, part1, part2)
    requires Progress(temp1.content, temp1.pages, part1, content)
    requires Progress(temp2.content, temp2.pages, part2, content[part1..])
    modifies s1, s2, temp1`content, temp1`pages, temp2`content, temp2`pages
    ensures s1.repository == old(s1.repository) && s2.repository == old(s2.repository)
    ensures temp1.pages == PagesLeft(old(temp1.pages), part1, got1, copied) && |temp1.content| == |content|
    ensures HalfMerged(temp1.content, old(temp1.content), |old(temp1.pages)|, part1, got1, content, temp2.content, copied)
    ensures Progress(temp2.content, temp2.pages, part2, content[part1..])
  {
    ghost var before, pagesBefore := temp1.content, temp1.pages;
    var offset1, c0 := FetchBroken(s1, s2, md5, part1, part2, temp1, temp2, got1, got2, content, content[part1..]);
    ghost var c, pages := temp1.content, temp1.pages;
    HalfMergedBy(before, pagesBefore, c0, offset1, part1, got1, content, c, pages, temp2.content, copied);
    LeftBy(pagesBefore, c0, offset1, part1, got1, content, c, pages, copied);
    HalfMerge(temp1, temp2, part1, part2, copied, content);
  }

  lemma HalfMergedBy(before: seq<byte>, pagesBefore: set<nat>, c0: seq<byte>, offset: nat, part1: nat, got1: nat,
                     target: seq<byte>, c: seq<byte>, pages: set<nat>, second: seq<byte>, copied: nat)
    requires c0 == Prepared(before, |pagesBefore|, part1) && offset == ResumeAt(|pagesBefore|) <= |target|
    requires Extended(c0, pagesBefore, c, pages, target, offset, ArrivedCount(part1 - offset, true, got1))
    requires part1 <= |c| <= |target| && copied <= |second| && part1 + copied <= |target|
    ensures HalfMerged(Splice(Resized(c, |target|), part1, second[..copied]), before, |pagesBefore|, part1, got1,
                       target, second, copied)
  {
    var n := ArrivedCount(part1 - offset, true, got1);
    assert c == Grown(c0, target, offset, n);
  }

  lemma LeftBy(pagesBefore: set<nat>, c0: seq<byte>, offset: nat, part1: nat, got1: nat, target: seq<byte>, c: seq<byte>,
               pages: set<nat>, copied: nat)
    requires offset == ResumeAt(|pagesBefore|)
    requires Extended(c0, pagesBefore, c, pages, target, offset, ArrivedCount(part1 - offset, true, got1))
    ensures pages + Touched(part1, copied) == PagesLeft(pagesBefore, part1, got1, copied)
  {}

  /** The downloads of such an attempt: what they add to the first file, `c0` as opened. */
  method FetchBroken(s1: FileServer, s2: FileServer, md5: Name, part1: nat, part2: nat,
                     temp1: File, temp2: File, got1: nat, got2: nat, ghost content: seq<byte>, ghost rest: seq<byte>)
    returns (offset1: nat, ghost c0: seq<byte>)
    requires temp1 != temp2 && |content| < 0x8000_0000
    requires part1 + part2 == |content| && part1 % 4096 == 0 && rest == content[part1..]
    requires part1 >= BigFileBoundary() && part2 >= BigFileBoundary()
    requires HoldsPart(s1.repository, md5, content, 0, part1)
    requires HoldsPart(s2.repository, md5, content, part1, part2)
    requires Progress(temp1.content, temp1.pages, part1, content)
    requires Progress(temp2.content, temp2.pages, part2, rest)
    modifies s1, s2, temp1`content, temp1`pages, temp2`content, temp2`pages
    ensures s1.repository == old(s1.repository) && s2.repository == old(s2.repository)
    ensures Progress(temp1.content, temp1.pages, part1, content) && part1 <= |temp1.content| <= |content|
    ensures Progress(temp2.content, temp2.pages, part2, rest) && part2 <= |temp2.content|
    ensures offset1 == ResumeAt(|old(temp1.pages)|) <= |content|
    ensures c0 == Prepared(old(temp1.content), |old(temp1.pages)|, part1)
    ensures Extended(c0, old(temp1.pages), temp1.content, temp1.pages, content, offset1,
                     ArrivedCount(part1 - offset1, true, got1))
  {
    offset1 := Prepare(temp1, part1, content);
    var offset2 := Prepare(temp2, part2, rest);
    c0 := temp1.content;
    var kill := WhileDownloading(got1, got2);
    MultiPointDownload(s1, s2, md5, part1, part2, temp1, temp2, offset1, offset2, kill, content, rest);
  }

  /** The merge of an attempt that is killed. */
  method HalfMerge(fd1: File, fd2: File, part1: nat, part2: nat, copied: nat, ghost content: seq<byte>)
    requires fd1 != fd2 && part1 % 4096 == 0 && copied < part2 && part1 + part2 == |content|
    requires Progress(fd1.content, fd1.pages, part1, content)
    requires part1 <= |fd1.content| && part2 <= |fd2.content|
    modifies fd1`content, fd1`pages
    ensures fd1.content == Splice(Resized(old(fd1.content), |content|), part1, fd2.content[..copied])
    ensures fd1.pages == old(fd1.pages) + Touched(part1, copied)
  {
    PagesKept(fd1.content, fd1.pages, part1, content);
    fd1.Truncate(part1 + part2);
    var _ := MergeFile(fd1, fd2, part1, part2, copied);
  }

  lemma PagesKept(content: seq<byte>, pages: set<nat>, size: nat, target: seq<byte>)
    requires Progress(content, pages, size, target)
    ensures (set p | p in pages && p * 4096 < |target|) == pages
  {
    forall p <- pages ensures p * 4096 < |target| {
      assert p in Below(|pages|);
    }
  }

  /** And the next attempt, left alone: it gives the file exactly if the hole was right in the
      first temporary file before.  The second file does not suffer. */
  method DroppedKilledResumed(s1: FileServer, s2: FileServer, md5: Name, part1: nat, part2: nat,
                              temp1: File, temp2: File, got1: nat, got2: nat, copied: nat, ghost content: seq<byte>)
    requires temp1 != temp2 && IsBig(|content|) && |content| < 0x8000_0000
    requires part1 == Part1(|content|) && part2 == Part2(|content|) && copied < part2
    requires HoldsPart(s1.repository, md5, content, 0, part1)
    requires HoldsPart(s2.repository, md5, content, part1, part2)
    requires Progress(temp1.content, temp1.pages, part1, content)
    requires Progress(temp2.content, temp2.pages, part2, content[part1..])
    modifies s1, s2, temp1`content, temp1`pages, temp2`content, temp2`pages
    ensures temp1.content == content <==>
      HoleRight(old(temp1.content), old(temp1.pages), part1, got1, copied, content)
  {
    ghost var before, pages, rest := temp1.content, temp1.pages, content[part1..];
    SplitAgrees(|content|);
    DroppedAndKilled(s1, s2, md5, part1, part2, temp1, temp2, got1, got2, copied, content);
    LeftUsable(before, pages, part1, got1, content, copied, part2);
    ProgressUsable(temp2.content, temp2.pages, part2, rest);
    HoleIff(temp1.content, before, pages, part1, got1, content, temp2.content, copied);
    CleanAttempt(s1, s2, md5, part1, part2, temp1, temp2, content);
  }

  lemma LeftUsable(before: seq<byte>, pages: set<nat>, part1: nat, got1: nat, target: seq<byte>, copied: nat, part2: nat)
    requires Progress(before, pages, part1, target) && part1 + part2 == |target| && copied < part2
    ensures ResumeAt(|PagesLeft(pages, part1, got1, copied)|) <= |target|
    ensures var offset, c := ResumeAt(|pages|), Prepared(before, |pages|, part1);
      offset <= |target| && offset <= |c| && c[..offset] == target[..offset]
  {
    forall p <- pages ensures p * 4096 < |target| {
      assert p in Below(|pages|);
    }
    PagesInside(PagesLeft(pages, part1, got1, copied), |target|);
  }

  lemma ProgressUsable(content: seq<byte>, pages: set<nat>, size: nat, target: seq<byte>)
    requires Progress(content, pages, size, target) && size == |target|
    ensures Usable(content, |pages|, size, size) && RightBefore(content, |pages|, size, target)
  {
    var m := Min(ResumeAt(|pages|), size);
    assert ResumeAt(|pages|) <= size;
    assert m <= |content| ==> content[..m] == target[..m];
  }

  /** An input: nothing of the first part arrives, and two pages are merged before the client is
      killed.  The next attempt resumes at the second page, so the first one stays zero. */
  lemma TwoPagesHole(part1: nat, target: seq<byte>)
    requires part1 % 4096 == 0 && 4096 <= part1 <= |target|
    ensures HoleRight([], {}, part1, 0, 8192, target) <==> forall i :: 0 <= i < 4096 ==> target[i] == 0
  {
    var q := part1 / 4096;
    var pages := PagesLeft({}, part1, 0, 8192);
    assert pages == {q, q + 1};
    assert |pages| == 2;
    assert forall i :: 0 <= i < part1 ==> Prepared([], 0, part1)[i] == 0;
  }
}
