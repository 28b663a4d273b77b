/** An open file: its bytes, the descriptor's position, and the pages of it that have blocks
    on the disk.  A page gets its blocks when it is first written. */
module Files {
  import opened Bytes

  /** `s` with `data` written over it from position `off`. */
  function Splice(s: seq<byte>, off: nat, data: seq<byte>): (r: seq<byte>)
    requires off + |data| <= |s|
    ensures |r| == |s|
  {
    s[..off] + data + s[off + |data|..]
  }

  /** The pages that n bytes from position `off` lie in. */
  function Touched(off: nat, n: nat): (r: set<nat>)
    ensures forall p: nat :: p in r <==> n > 0 && off < p * 4096 + 4096 && p * 4096 < off + n
  {
    set p: nat | p < off + n && n > 0 && off < p * 4096 + 4096 && p * 4096 < off + n
  }

  /** The file as the memory of its mapped pages shows it: the rest of the last page reads
      as zeros. */
  function Padded(s: seq<byte>): (r: seq<byte>)
    ensures |s| <= |r| < |s| + 4096 && |r| % 4096 == 0 && s <= r
  {
    s + Zeros((4096 - |s| % 4096) % 4096)
  }

  /** The file cut or extended with a hole to n bytes. */
  function Resized(s: seq<byte>, n: nat): (r: seq<byte>)
    ensures |r| == n
  {
    if n <= |s| then s[..n] else s + Zeros(n - |s|)
  }

  /** `s` with `data` written from position `off`, past the end if need be. */
  function Overwritten(s: seq<byte>, off: nat, data: seq<byte>): (r: seq<byte>)
    requires off <= |s|
    ensures |r| >= off + |data|
  {
    s[..off] + data + (if off + |data| < |s| then s[off + |data|..] else [])
  }

  class File {
    var content: seq<byte>
    var pos: nat
    var pages: set<nat>

    /** An existing file, just opened; or with [] and no pages a file just created. */
    constructor (content: seq<byte>, pages: set<nat>)
      ensures this.content == content && pos == 0 && this.pages == pages
    {
      this.content, this.pages := content, pages;
      pos := 0;
    }

    /** `ftruncate`: pages wholly beyond the new end lose their blocks. */
    method Truncate(n: nat)
      modifies this`content, this`pages
      ensures content == Resized(old(content), n)
      ensures pages == set p | p in old(pages) && p * 4096 < n
    {
      content := Resized(content, n);
      pages := set p | p in pages && p * 4096 < n;
    }

    /** `read` of at most n bytes from the current position. */
    method Read(n: nat) returns (buf: seq<byte>)
      requires pos <= |content|
      modifies this`pos
      ensures |buf| == if old(pos) + n <= |content| then n else |content| - old(pos)
      ensures buf == content[old(pos)..old(pos) + |buf|]
      ensures pos == old(pos) + |buf| <= |content|
    {
      var end := if pos + n <= |content| then pos + n else |content|;
      buf := content[pos..end];
      pos := end;
    }

    /** `write` at the current position, over what is there or past the end. */
    method Write(buf: seq<byte>)
      requires pos <= |content|
      modifies this
      ensures content == Overwritten(old(content), old(pos), buf)
      ensures pos == old(pos) + |buf| <= |content|
      ensures pages == old(pages) + Touched(old(pos), |buf|)
    {
      pages := pages + Touched(pos, |buf|);
      content := Overwritten(content, pos, buf);
      pos := pos + |buf|;
    }

    /** Loads from a shared mapping of n bytes at `off`; a mapping wholly past the end of the
        file faults instead. */
    method MapLoad(off: nat, n: nat) returns (fault: bool, buf: seq<byte>)
      requires off % 4096 == 0 && 0 < n <= 4096
      ensures fault <==> |content| <= off
      ensures !fault ==> off + n <= |Padded(content)| && buf == Padded(content)[off..off + n]
    {
      fault := |content| <= off;
      buf := if fault then [] else Padded(content)[off..off + n];
    }

    /** Stores into the first bytes of a shared mapping of n bytes at `off`. */
    method MapStore(off: nat, n: nat, data: seq<byte>)
      requires off % 4096 == 0 && |data| <= n <= 4096 && off + n <= |content|
      modifies this`content, this`pages
      ensures content == Splice(old(content), off, data)
      ensures pages == old(pages) + Touched(off, |data|)
    {
      content := Splice(content, off, data);
      pages := pages + Touched(off, |data|);
    }
  }
}
