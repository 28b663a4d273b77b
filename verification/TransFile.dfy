/** The transfer loops that client and file server share: small files through a buffer with
    `read` and `write`, big ones page by page through mappings. */
module TransFile {
  import opened Bytes
  import opened Channels
  import opened Files

  // ---------------------------------------------------------------- sending

  /** What n bytes read from position `pos` put on the wire: a short read leaves zeros. */
  function ReadOut(s: seq<byte>, pos: nat, n: nat): seq<byte>
    requires pos <= |s|
  {
    (s[pos..] + Zeros(n))[..n]
  }

  /** Sends from the current position, whatever the offset asked for. */
  method SendSmallFile(ch: Channel, fd: File, offset: int, partSize: int) returns (rc: int)
    requires fd.pos <= |fd.content|
    modifies ch, fd`pos
    ensures ch.inFlight == old(ch.inFlight) + ReadOut(fd.content, old(fd.pos), if partSize < 0 then 0 else partSize)
    ensures rc == partSize
  {
    var sendSize := 0;
    ghost var n := if partSize < 0 then 0 else partSize;
    while sendSize < partSize
      invariant 0 <= sendSize <= n
      invariant fd.pos == Min(old(fd.pos) + sendSize, |fd.content|)
      invariant ch.inFlight == old(ch.inFlight) + ReadOut(fd.content, old(fd.pos), sendSize)
    {
      var curSize := if partSize - sendSize < 1024 then partSize - sendSize else 1024;
      SendPiece(ch, fd, curSize, old(fd.pos), sendSize, old(ch.inFlight));
      sendSize := sendSize + curSize;
    }
    return partSize;
  }

  /** Reads and sends the next piece of a small file. */
  method SendPiece(ch: Channel, fd: File, curSize: nat, ghost pos: nat, ghost sendSize: nat, ghost start: seq<byte>)
    requires pos <= |fd.content| && fd.pos == Min(pos + sendSize, |fd.content|)
    requires ch.inFlight == start + ReadOut(fd.content, pos, sendSize)
    modifies ch, fd`pos
    ensures fd.pos == Min(pos + sendSize + curSize, |fd.content|)
    ensures ch.inFlight == start + ReadOut(fd.content, pos, sendSize + curSize)
  {
    var got := fd.Read(curSize);
    var buf := got + Zeros(curSize - |got|);
    ReadOutAppend(fd.content, pos, sendSize, curSize);
    Assoc(start, ReadOut(fd.content, pos, sendSize), buf);
    var _ := SendN(ch, buf);
  }

  lemma ReadOutAppend(s: seq<byte>, pos: nat, a: nat, b: nat)
    requires pos <= |s|
    ensures var p := Min(pos + a, |s|); var q := Min(pos + a + b, |s|);
      ReadOut(s, pos, a + b) == ReadOut(s, pos, a) + (s[p..q] + Zeros(b - (q - p)))
  {}

  /** Byte by byte: the file from the position on, then zeros. */
  lemma ReadOutIs(s: seq<byte>, pos: nat, n: nat)
    requires pos <= |s|
    ensures |ReadOut(s, pos, n)| == n
    ensures forall i :: 0 <= i < n ==> ReadOut(s, pos, n)[i] == if pos + i < |s| then s[pos + i] else 0
  {}

  /** What a big send from `offset` puts on the wire: up to n bytes of the padded file. */
  function Served(s: seq<byte>, offset: nat, n: int): seq<byte> {
    var t := Padded(s);
    if n <= 0 || |t| <= offset then [] else t[offset..Min(offset + n, |t|)]
  }

  /** Byte by byte: the file from the offset on, then zeros up to the end of its last page, n
      bytes at most. */
  lemma ServedIs(s: seq<byte>, offset: nat, n: nat)
    ensures var r, pages := Served(s, offset, n), (|s| + 4095) / 4096;
      && |r| == (if offset < 4096 * pages then Min(n, 4096 * pages - offset) else 0)
      && forall i :: 0 <= i < |r| ==> r[i] == if offset + i < |s| then s[offset + i] else 0
  {
    assert |Padded(s)| == 4096 * ((|s| + 4095) / 4096);
  }

  /** The first n bytes from the offset are all there and have been sent. */
  ghost predicate SentPages(s: seq<byte>, offset: nat, n: int, start: seq<byte>, stream: seq<byte>) {
    |Served(s, offset, n)| == n && stream == start + Served(s, offset, n)
  }

  /** Sends page by page; the first page past the end of the file stops it. */
  method SendBigFile(ch: Channel, fd: File, offset: nat, partSize: int) returns (rc: int)
    requires offset % 4096 == 0
    modifies ch
    ensures ch.inFlight == old(ch.inFlight) + Served(fd.content, offset, partSize)
    ensures rc == if partSize <= |Served(fd.content, offset, partSize)| then partSize else -1
  {
    var sendSize := 0;
    while sendSize < partSize
      invariant 0 <= sendSize && (sendSize <= partSize || sendSize == 0)
      invariant sendSize < partSize ==> sendSize % 4096 == 0
      invariant SentPages(fd.content, offset, sendSize, old(ch.inFlight), ch.inFlight)
    {
      var curSize := if partSize - sendSize < 4096 then partSize - sendSize else 4096;
      var fault := SendPage(ch, fd, offset, sendSize, curSize, old(ch.inFlight));
      if fault {
        ServedStops(fd.content, offset, sendSize, partSize);
        return -1;
      }
      sendSize := sendSize + curSize;
    }
    return partSize;
  }

  /** Maps and sends the next piece of a big file. */
  method SendPage(ch: Channel, fd: File, offset: nat, sendSize: nat, curSize: nat, ghost start: seq<byte>)
    returns (fault: bool)
    requires offset % 4096 == 0 && sendSize % 4096 == 0 && 0 < curSize <= 4096
    requires SentPages(fd.content, offset, sendSize, start, ch.inFlight)
    modifies ch
    ensures fault <==> |fd.content| <= offset + sendSize
    ensures fault ==> ch.inFlight == old(ch.inFlight)
    ensures !fault ==> SentPages(fd.content, offset, sendSize + curSize, start, ch.inFlight)
  {
    var at := offset + sendSize;
    assert at % 4096 == 0;
    var fault', buf := fd.MapLoad(at, curSize);
    fault := fault';
    if !fault {
      ServedAppend(fd.content, offset, sendSize, curSize);
      Assoc(start, Served(fd.content, offset, sendSize), buf);
      var _ := SendN(ch, buf);
    }
  }

  lemma ServedAppend(s: seq<byte>, offset: nat, a: nat, b: nat)
    requires offset + a + b <= |Padded(s)| && b > 0
    ensures Served(s, offset, a + b) == Served(s, offset, a) + Padded(s)[offset + a..offset + a + b]
    ensures |Served(s, offset, a + b)| == a + b
  {}

  lemma ServedShort(s: seq<byte>, offset: nat, a: nat, n: int)
    requires |Padded(s)| <= offset + a && a < n && |Served(s, offset, a)| == a
    ensures Served(s, offset, n) == Served(s, offset, a) && |Served(s, offset, n)| < n
  {}

  lemma PaddedEnd(n: nat, end: nat)
    requires n <= end && end % 4096 == 0
    ensures n + (4096 - n % 4096) % 4096 <= end
  {
    var q, r := n / 4096, n % 4096;
    assert n == 4096 * q + r && end == 4096 * (end / 4096);
    assert r > 0 ==> q < end / 4096;
  }

  lemma ServedStops(s: seq<byte>, offset: nat, a: nat, n: int)
    requires offset % 4096 == 0 && a % 4096 == 0 && a < n
    requires |s| <= offset + a && |Served(s, offset, a)| == a
    ensures Served(s, offset, n) == Served(s, offset, a) && |Served(s, offset, n)| < n
  {
    var end := offset + a;
    assert end % 4096 == 0;
    PaddedEnd(|s|, end);
    ServedShort(s, offset, a, n);
  }

  // ---------------------------------------------------------------- receiving

  /** How many of the bytes that arrive are written when a small file of n bytes is expected:
      a piece is written only once it is complete. */
  function Written(arrived: nat, n: nat): (m: nat)
    ensures m <= n && m <= arrived
  {
    if n <= arrived then n else arrived / 1024 * 1024
  }

  /** Writes what arrives at the current position, piece by piece.  If the stream ends early,
      the piece that it ends in is lost and the result is 0. */
  method RecvSmallFile(ch: Channel, fd: File, fileSize: nat) returns (rc: int)
    requires fd.pos <= |fd.content|
    modifies ch, fd
    ensures ch.inFlight == old(ch.inFlight)[Min(fileSize, |old(ch.inFlight)|)..]
    ensures var m := Written(|old(ch.inFlight)|, fileSize);
      fd.content == Overwritten(old(fd.content), old(fd.pos), old(ch.inFlight)[..m])
    ensures rc == if fileSize <= |old(ch.inFlight)| then fileSize else 0
  {
    var recvSize := 0;
    ghost var s, c, p := ch.inFlight, fd.content, fd.pos;
    assert Overwritten(c, p, s[..0]) == c;
    while recvSize < fileSize
      invariant recvSize <= fileSize && recvSize <= |s|
      invariant recvSize < fileSize ==> recvSize % 1024 == 0
      invariant ch.inFlight == s[recvSize..]
      invariant fd.pos == p + recvSize <= |fd.content|
      invariant fd.content == Overwritten(c, p, s[..recvSize])
    {
      var curSize := if fileSize - recvSize < 1024 then fileSize - recvSize else 1024;
      var ret := RecvPiece(ch, fd, recvSize, curSize, s, c, p);
      if ret <= 0 {
        PieceLost(|s|, fileSize, recvSize);
        return ret;
      }
      recvSize := recvSize + curSize;
    }
    return recvSize;
  }

  lemma PieceLost(arrived: nat, n: nat, recvSize: nat)
    requires recvSize < n && recvSize % 1024 == 0
    requires recvSize <= arrived < recvSize + (if n - recvSize < 1024 then n - recvSize else 1024)
    ensures arrived < n && Written(arrived, n) == recvSize
  {}

  /** Receives the next piece of a small file and writes it if it is complete. */
  method RecvPiece(ch: Channel, fd: File, recvSize: nat, curSize: nat,
                   ghost s: seq<byte>, ghost c: seq<byte>, ghost p: nat) returns (ret: int)
    requires recvSize <= |s| && ch.inFlight == s[recvSize..] && curSize > 0
    requires p <= |c| && fd.pos == p + recvSize <= |fd.content| && fd.content == Overwritten(c, p, s[..recvSize])
    modifies ch, fd
    ensures ret == if recvSize + curSize <= |s| then curSize else 0
    ensures var end := if recvSize + curSize <= |s| then recvSize + curSize else recvSize;
      fd.pos == p + end <= |fd.content| && fd.content == Overwritten(c, p, s[..end])
    ensures ch.inFlight == s[Min(recvSize + curSize, |s|)..]
  {
    var ret', buf := RecvN(ch, curSize);
    ret := ret';
    if ret > 0 {
      OverwrittenAppend(c, p, s[..recvSize], buf);
      assert s[..recvSize] + buf == s[..recvSize + curSize];
      fd.Write(buf);
    }
  }

  lemma OverwrittenAppend(s: seq<byte>, off: nat, a: seq<byte>, b: seq<byte>)
    requires off <= |s|
    ensures Overwritten(Overwritten(s, off, a), off + |a|, b) == Overwritten(s, off, a + b)
  {}

  /** The file after `got` has arrived at the offset. */
  ghost function Received(content: seq<byte>, offset: nat, got: seq<byte>): seq<byte>
    requires got != [] ==> offset + |got| <= |content|
  {
    if got == [] then content else Splice(content, offset, got)
  }

  /** The first n bytes of the stream s, and no others, have landed in the file from the
      offset on, and exactly the pages that they lie in have got blocks. */
  ghost predicate Landed(content: seq<byte>, pages: set<nat>, stream: seq<byte>,
                         before: seq<byte>, pagesBefore: set<nat>, s: seq<byte>, offset: nat, n: nat) {
    && n <= |s| && (n > 0 ==> offset + n <= |before|)
    && stream == s[n..]
    && content == Received(before, offset, s[..n])
    && pages == pagesBefore + Touched(offset, n)
  }

  lemma NothingLanded(content: seq<byte>, pages: set<nat>, s: seq<byte>, offset: nat)
    ensures Landed(content, pages, s, content, pages, s, offset, 0)
  {
    assert s[..0] == [] && s[0..] == s;
  }

  /** Receives into mapped pages from `offset`.  If the stream ends early, what had arrived
      is in the file and the result is not positive. */
  method RecvBigFile(ch: Channel, fd: File, offset: nat, partSize: int) returns (rc: int)
    requires offset % 4096 == 0 && (partSize > 0 ==> offset + partSize <= |fd.content|)
    modifies ch, fd`content, fd`pages
    ensures var got := Arrived(old(ch.inFlight), partSize);
      && ch.inFlight == old(ch.inFlight)[|got|..]
      && (got != [] ==> offset + |got| <= |old(fd.content)|)
      && fd.content == Received(old(fd.content), offset, got)
      && fd.pages == old(fd.pages) + Touched(offset, |got|)
    ensures rc > 0 <==> 0 < partSize <= |old(ch.inFlight)|
  {
    var recvSize := 0;
    ghost var s, c, pages := ch.inFlight, fd.content, fd.pages;
    NothingLanded(c, pages, s, offset);
    ArrivedLength(s, partSize);
    while recvSize < partSize
      invariant 0 <= recvSize <= |s| && (recvSize <= partSize || recvSize == 0)
      invariant recvSize < partSize ==> recvSize % 4096 == 0
      invariant Landed(fd.content, fd.pages, ch.inFlight, c, pages, s, offset, recvSize)
      decreases partSize - recvSize
    {
      var curSize := if partSize - recvSize < 4096 then partSize - recvSize else 4096;
      var ret := RecvPage(ch, fd, offset, recvSize, curSize, s, c, pages);
      if ret <= 0 {
        return ret;
      }
      recvSize := recvSize + curSize;
    }
    return recvSize;
  }

  lemma ArrivedLength(s: seq<byte>, n: int)
    ensures |Arrived(s, n)| == if n <= 0 then 0 else Min(n, |s|)
    ensures s[..|Arrived(s, n)|] == Arrived(s, n)
  {}

  /** One piece more has landed. */
  lemma PageLanded(content: seq<byte>, pages: set<nat>, stream: seq<byte>,
                   c: seq<byte>, pages0: set<nat>, s: seq<byte>, offset: nat, recvSize: nat, end: nat)
    requires Landed(content, pages, stream, c, pages0, s, offset, recvSize)
    requires offset % 4096 == 0 && recvSize % 4096 == 0 && recvSize <= end <= |s| && offset + end <= |c|
    ensures |content| == |c|
    ensures Landed(Splice(content, offset + recvSize, s[recvSize..end]),
                   pages + Touched(offset + recvSize, end - recvSize), s[end..], c, pages0, s, offset, end)
  {
    SpliceAppend(c, offset, s[..recvSize], s[recvSize..end]);
    assert s[..recvSize] + s[recvSize..end] == s[..end];
    assert s[..0] == [];
    TouchedAppend(offset, recvSize, end - recvSize);
    SpliceAppend(c, offset, [], s[..end]);
  }

  /** Maps the next page of a big file and receives into it. */
  method RecvPage(ch: Channel, fd: File, offset: nat, recvSize: nat, curSize: nat,
                  ghost s: seq<byte>, ghost c: seq<byte>, ghost pages: set<nat>) returns (ret: int)
    requires offset % 4096 == 0 && recvSize % 4096 == 0 && 0 < curSize <= 4096 && recvSize <= |s|
    requires offset + recvSize + curSize <= |c|
    requires Landed(fd.content, fd.pages, ch.inFlight, c, pages, s, offset, recvSize)
    modifies ch, fd`content, fd`pages
    ensures var end := Min(recvSize + curSize, |s|);
      && Landed(fd.content, fd.pages, ch.inFlight, c, pages, s, offset, end)
      && ret == if end == recvSize + curSize then curSize else 0
  {
    var at := offset + recvSize;
    assert at % 4096 == 0;
    ghost var end := Min(recvSize + curSize, |s|);
    PageLanded(fd.content, fd.pages, ch.inFlight, c, pages, s, offset, recvSize, end);
    var ret', buf := RecvN(ch, curSize);
    assert buf == s[recvSize..end] && ch.inFlight == s[end..];
    fd.MapStore(at, curSize, buf);
    ret := ret';
  }

  lemma SpliceAppend(s: seq<byte>, off: nat, a: seq<byte>, b: seq<byte>)
    requires off + |a| + |b| <= |s|
    ensures Splice(s, off, []) == s
    ensures Splice(Splice(s, off, a), off + |a|, b) == Splice(s, off, a + b)
  {}

  lemma TouchedAppend(off: nat, a: nat, b: nat)
    requires off % 4096 == 0 && a % 4096 == 0
    ensures Touched(off, a) + Touched(off + a, b) == Touched(off, a + b)
  {}
}
