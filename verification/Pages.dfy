/** A frame of the buffer pool (src/storage/page.h, src/storage/page.cc) and the files below it
    (src/system/file_manager.cc). */
module Pages {
  import opened Bytes

  type FileId = int

  const UNASSIGNED: FileId := 0x7FFF_FFFF

  // Offsets into a file, and the length of a file that grows, are computed in 32 bits, so the length of a file
  // in bytes stays below 2^31.
  const MAX_PAGES := 0x7_FFFF

  lemma Offsets()
    ensures SIZE == 4096 && UNASSIGNED == 0x7FFF_FFFF
    ensures MAX_PAGES * SIZE < 0x8000_0000 <= (MAX_PAGES + 1) * SIZE
  {
  }

  datatype PageId = PageId(file: FileId, number: nat)

  class Page {
    const bytes: array<byte>
    var pageId: PageId
    var pins: nat
    var secondChance: bool
    var dirty: bool

    constructor ()
      ensures Ok() && fresh(bytes)
      ensures pageId == PageId(UNASSIGNED, 0) && pins == 0 && !secondChance && !dirty
    {
      bytes := new byte[SIZE];
      pageId, pins, secondChance, dirty := PageId(UNASSIGNED, 0), 0, false, false;
    }

    ghost predicate Ok() {
      bytes.Length == SIZE
    }

    ghost function Data(): Block
      requires Ok()
      reads bytes
    {
      bytes[..]
    }

    method Pin()
      modifies `pins, `secondChance
      ensures pins == old(pins) + 1 && secondChance
    {
      pins := pins + 1;
      secondChance := true;
    }

    method Unpin()
      requires pins > 0
      modifies `pins
      ensures pins == old(pins) - 1
    {
      pins := pins - 1;
    }

    /** The preconditions are the three assertions of the original. */
    method Reassign(pid: PageId)
      requires !dirty && pins == 0 && !secondChance
      modifies `pageId, `pins, `secondChance
      ensures pageId == pid && pins == 1 && secondChance
    {
      pageId := pid;
      pins := 1;
      secondChance := true;
    }

    method Read(offset: nat, size: nat) returns (s: seq<byte>)
      requires Ok() && offset + size <= SIZE
      ensures s == Data()[offset..offset + size]
    {
      s := bytes[offset..offset + size];
    }

    method ReadUint8(offset: nat) returns (x: byte)
      requires Ok() && offset + 1 <= SIZE
      ensures x == Data()[offset]
    {
      x := bytes[offset];
    }

    method ReadInt32(offset: nat) returns (x: int32)
      requires Ok() && offset + 4 <= SIZE
      ensures x == Get32(Data(), offset)
    {
      x := Dec32(bytes[offset..offset + 4]);
    }

    method ReadInt64(offset: nat) returns (x: int64)
      requires Ok() && offset + 8 <= SIZE
      ensures x == Get64(Data(), offset)
    {
      x := Dec64(bytes[offset..offset + 8]);
    }

    method Write(offset: nat, s: seq<byte>)
      requires Ok() && offset + |s| <= SIZE
      modifies `dirty, bytes
      ensures dirty && Data() == Put(old(Data()), offset, s)
    {
      forall k | 0 <= k < |s| {
        bytes[offset + k] := s[k];
      }
      dirty := true;
    }

    method WriteInt8(offset: nat, x: byte)
      requires Ok() && offset + 1 <= SIZE
      modifies `dirty, bytes
      ensures dirty && Data() == Put(old(Data()), offset, [x])
    {
      bytes[offset] := x;
      dirty := true;
    }

    method WriteInt32(offset: nat, x: int32)
      requires Ok() && offset + 4 <= SIZE
      modifies `dirty, bytes
      ensures dirty && Data() == Put(old(Data()), offset, Enc32(x))
    {
      Write(offset, Enc32(x));
    }

    method WriteInt64(offset: nat, x: int64)
      requires Ok() && offset + 8 <= SIZE
      modifies `dirty, bytes
      ensures dirty && Data() == Put(old(Data()), offset, Enc64(x))
    {
      Write(offset, Enc64(x));
    }
  }

  /** The contents of all open files, page by page. */
  type Files = map<FileId, seq<Block>>

  function Zeros(n: nat): (s: seq<Block>)
    ensures |s| == n && forall i :: 0 <= i < n ==> s[i] == ZeroBlock()
  {
    seq(n, i => ZeroBlock())
  }

  /** What a read of page pid does to the files: nothing if the page exists, otherwise the file grows
      with zero pages up to and including that page. */
  function Extend(v: Files, pid: PageId): (w: Files)
    requires pid.file in v
    ensures w.Keys == v.Keys && forall f :: f in v && f != pid.file ==> w[f] == v[f]
    ensures |w[pid.file]| > pid.number && v[pid.file] <= w[pid.file]
    ensures pid.number < |v[pid.file]| ==> w == v
    ensures forall i :: |v[pid.file]| <= i < |w[pid.file]| ==> w[pid.file][i] == ZeroBlock()
  {
    var old_ := v[pid.file];
    if pid.number < |old_| then v else v[pid.file := old_ + Zeros(pid.number + 1 - |old_|)]
  }

  function SetBlock(s: seq<Block>, n: nat, b: Block): (r: seq<Block>)
    requires n < |s|
    ensures |r| == |s| && r[n] == b && forall i :: 0 <= i < |s| && i != n ==> r[i] == s[i]
  {
    s[n := b]
  }

  /** The files with the content of one existing page replaced. */
  function Store(v: Files, pid: PageId, b: Block): (w: Files)
    requires pid.file in v && pid.number < |v[pid.file]|
    ensures w.Keys == v.Keys && forall f :: f in v ==> |w[f]| == |v[f]|
  {
    v[pid.file := SetBlock(v[pid.file], pid.number, b)]
  }

  /** No file but those of fs differs between v and w. */
  predicate OnlyChanged(v: Files, w: Files, fs: set<FileId>) {
    w.Keys == v.Keys && forall f :: f in v && f !in fs ==> w[f] == v[f]
  }

  lemma OnlyChangedBoth(u: Files, v: Files, w: Files, fs: set<FileId>, gs: set<FileId>)
    requires OnlyChanged(u, v, fs) && OnlyChanged(v, w, gs)
    ensures OnlyChanged(u, w, fs + gs)
  {
  }

  class FileManager {
    var files: Files

    constructor (files: Files)
      ensures this.files == files
    {
      this.files := files;
    }

    method CountPages(file: FileId) returns (n: nat)
      requires file in files
      ensures n == |files[file]|
    {
      n := |files[file]|;
    }

    method Flush(page: Page)
      requires page.Ok() && page.pageId.file in files && page.pageId.number < |files[page.pageId.file]|
      requires page.pageId.number < MAX_PAGES
      modifies this, page`dirty
      ensures !page.dirty && files == Store(old(files), page.pageId, page.Data())
    {
      files := Store(files, page.pageId, page.bytes[..]);
      page.dirty := false;
    }

    method ReadPage(pid: PageId, bytes: array<byte>)
      requires bytes.Length == SIZE && pid.file in files && pid.number < MAX_PAGES
      modifies this, bytes
      ensures files == Extend(old(files), pid)
      ensures bytes[..] == files[pid.file][pid.number]
    {
      var count := |files[pid.file]|;
      if count <= pid.number {
        forall k | 0 <= k < SIZE {
          bytes[k] := 0;
        }
        files := files[pid.file := files[pid.file] + Zeros(pid.number + 1 - count)];
        assert bytes[..] == ZeroBlock();
      } else {
        var content := files[pid.file][pid.number];
        forall k | 0 <= k < SIZE {
          bytes[k] := content[k];
        }
      }
    }
  }
}
