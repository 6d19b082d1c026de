/** The on-disk file system as the read path sees it: inodes and directory entries decoded
    from blocks, the content of a file, directory search and path resolution. Everything
    here is a function of the disk, so it is what the cached code is proved against. */
module Disk {
  import opened Memory
  import opened CString

  const BSIZE: nat := 1024
  const DISK_NBLOCKS: nat := 1024
  const NDIRECT: nat := 12
  const DIRSIZ: nat := 14
  const DIRENT: nat := 16
  const DINODE: nat := 64
  const IPB: nat := 16
  const ROOT_INO: nat := 1
  const T_DIR: nat := 1
  const T_FILE: nat := 2

  /** All bytes of the disk, block after block. */
  type Image = d: seq<byte> | |d| == DISK_NBLOCKS * BSIZE witness Zeros(DISK_NBLOCKS * BSIZE)

  datatype Record = Record(kind: nat, major: nat, minor: nat, nlink: nat, size: word, addrs: seq<word>)

  const NO_DINODE := Record(0, 0, 0, 0, 0, [0, 0, 0, 0, 0, 0, 0, 0, 0, 0, 0, 0, 0])

  /** A struct dinode: its address array has NDIRECT + 1 entries. */
  type Dinode = r: Record | |r.addrs| == NDIRECT + 1 witness NO_DINODE

  function Half(s: seq<byte>, a: nat): nat
    requires a + 2 <= |s|
  {
    (s[a] as int) + 0x100 * (s[a + 1] as int)
  }

  /** The struct dinode at offset `a`. */
  function DecodeDinode(s: seq<byte>, a: nat): Dinode
    requires a + DINODE <= |s|
  {
    Record(Half(s, a), Half(s, a + 2), Half(s, a + 4), Half(s, a + 6), Word(s, a + 8),
           seq(NDIRECT + 1, k requires 0 <= k < NDIRECT + 1 => Word(s, a + 12 + 4 * k)))
  }

  /** A dinode depends on its own 64 bytes only. */
  lemma DecodeLocal(s: seq<byte>, a: nat)
    requires a + DINODE <= |s|
    ensures DecodeDinode(s, a) == DecodeDinode(s[a..a + DINODE], 0)
  {
    var t := s[a..a + DINODE];
    forall k: nat | k < NDIRECT + 1 ensures Word(s, a + 12 + 4 * k) == Word(t, 12 + 4 * k) {
    }
  }

  /** fs_inode.c inode_blockno, in 32 bits. */
  function InodeBlock(inodestart: word, inum: word): word
  {
    (inodestart + inum / IPB) % WORD_LIMIT
  }

  /** The dinode of `inum`, or none when its block lies off the disk. */
  function DinodeOn(d: Image, inodestart: word, inum: word): Option<Dinode>
  {
    var b := InodeBlock(inodestart, inum);
    if b >= DISK_NBLOCKS then None else Some(DecodeDinode(d, b * BSIZE + inum % IPB * DINODE))
  }

  // ---------------------------------------------------------------- file content

  /** fs_inode.c bmap: indirect blocks are absent. */
  function Bmap(ino: Dinode, bn: nat): word
  {
    if bn < NDIRECT then ino.addrs[bn] else 0
  }

  /** Byte `i` of the file exists: it is within the size and its block is present and on the disk. */
  predicate Readable(ino: Dinode, i: nat)
  {
    i < ino.size && 0 < Bmap(ino, i / BSIZE) < DISK_NBLOCKS
  }

  function ByteAt(d: Image, ino: Dinode, i: nat): byte
    requires Readable(ino, i)
  {
    d[Bmap(ino, i / BSIZE) * BSIZE + i % BSIZE]
  }

  /** The end of the readable stretch that starts at `off`. */
  function Extent(ino: Dinode, off: nat): (e: nat)
    ensures off <= e && forall i | off <= i < e :: Readable(ino, i)
    ensures !Readable(ino, e)
    decreases if off < ino.size then ino.size - off else 0
  {
    if Readable(ino, off) then Extent(ino, off + 1) else off
  }

  lemma ExtentIs(ino: Dinode, off: nat, e: nat)
    requires off <= e
    requires (forall i | off <= i < e :: Readable(ino, i)) && !Readable(ino, e)
    ensures Extent(ino, off) == e
  {
  }

  /** A readable stretch ends within the direct blocks. */
  lemma ExtentBound(ino: Dinode, off: nat)
    ensures Extent(ino, off) > off ==> Extent(ino, off) <= NDIRECT * BSIZE && Extent(ino, off) <= ino.size
  {
    var e := Extent(ino, off);
    if e > off {
      assert Readable(ino, e - 1);
    }
  }

  /** The bytes of the file in [off, end). */
  function Slice(d: Image, ino: Dinode, off: nat, end: nat): (s: seq<byte>)
    requires off <= end
    requires forall i | off <= i < end :: Readable(ino, i)
    ensures |s| == end - off && forall j | 0 <= j < |s| :: s[j] == ByteAt(d, ino, off + j)
    decreases end - off
  {
    if off == end then [] else [ByteAt(d, ino, off)] + Slice(d, ino, off + 1, end)
  }

  function Min(a: nat, b: nat): nat { if a <= b then a else b }

  /** What a read of `n` bytes at `off` yields: the file's bytes up to the end of the readable stretch. */
  function Chunk(d: Image, ino: Dinode, off: nat, n: nat): (s: seq<byte>)
    ensures |s| == Min(n, Extent(ino, off) - off)
  {
    Slice(d, ino, off, Min(off + n, Extent(ino, off)))
  }

  /** The file as a reader that starts at 0 can see it. */
  function Content(d: Image, ino: Dinode): seq<byte>
  {
    Slice(d, ino, 0, Extent(ino, 0))
  }

  lemma ContentBound(d: Image, ino: Dinode)
    ensures |Content(d, ino)| <= NDIRECT * BSIZE
  {
    ExtentBound(ino, 0);
  }

  /** A file whose blocks are all direct, present and on the disk is all content. */
  lemma WholeFileReadable(d: Image, ino: Dinode)
    requires ino.size <= NDIRECT * BSIZE
    requires forall bn: nat | bn * BSIZE < ino.size :: 0 < Bmap(ino, bn) < DISK_NBLOCKS
    ensures |Content(d, ino)| == ino.size
    ensures forall i: nat | i < ino.size :: Readable(ino, i) && Content(d, ino)[i] == ByteAt(d, ino, i)
  {
    forall i: nat | i < ino.size ensures Readable(ino, i) {
      assert (i / BSIZE) * BSIZE <= i;
    }
    ExtentIs(ino, 0, ino.size);
  }

  // ---------------------------------------------------------------- reading in chunks

  /** The bytes delivered by reads of the given sizes, one after another from `off` on. */
  function Chunks(d: Image, ino: Dinode, off: nat, sizes: seq<nat>): seq<byte>
    decreases |sizes|
  {
    if sizes == [] then []
    else
      var c := Chunk(d, ino, off, sizes[0]);
      c + Chunks(d, ino, off + |c|, sizes[1..])
  }

  function Total(sizes: seq<nat>): nat
  {
    if sizes == [] then 0 else sizes[0] + Total(sizes[1..])
  }

  lemma TwoChunks(d: Image, ino: Dinode, off: nat, n: nat, m: nat)
    ensures var c := Chunk(d, ino, off, n);
      c + Chunk(d, ino, off + |c|, m) == Chunk(d, ino, off, n + m)
  {
    hide Readable, ByteAt;
    var e := Extent(ino, off);
    var mid := Min(off + n, e);
    ExtentIs(ino, mid, e);
    hide Extent;
    var c, c2, whole := Chunk(d, ino, off, n), Chunk(d, ino, mid, m), Chunk(d, ino, off, n + m);
    forall j | 0 <= j < |whole| ensures whole[j] == (c + c2)[j] {
      assert whole[j] == ByteAt(d, ino, off + j);
    }
  }

  /** The delivered bytes do not depend on how the reads are cut: they are those of one read of the total size. */
  lemma {:induction false} ChunksAreOneRead(d: Image, ino: Dinode, off: nat, sizes: seq<nat>)
    ensures Chunks(d, ino, off, sizes) == Chunk(d, ino, off, Total(sizes))
    decreases |sizes|
  {
    hide Chunk;
    if sizes == [] {
      EmptyChunk(d, ino, off);
    } else {
      var c := Chunk(d, ino, off, sizes[0]);
      ChunksAreOneRead(d, ino, off + |c|, sizes[1..]);
      TwoChunks(d, ino, off, sizes[0], Total(sizes[1..]));
    }
  }

  lemma EmptyChunk(d: Image, ino: Dinode, off: nat)
    ensures Chunk(d, ino, off, 0) == []
  {
  }

  /** Reads that ended empty have delivered the whole content, however they were cut. */
  lemma ChunksUntilEmpty(d: Image, ino: Dinode, sizes: seq<nat>, n: nat)
    requires n > 0 && Chunk(d, ino, |Chunks(d, ino, 0, sizes)|, n) == []
    ensures Chunks(d, ino, 0, sizes) == Content(d, ino)
  {
    ChunksAreOneRead(d, ino, 0, sizes);
    var len := |Chunks(d, ino, 0, sizes)|;
    EmptyReadAtEnd(d, ino, len, n);
    assert len == Extent(ino, 0);
  }

  /** A read within the readable start of the file is a slice of its content. */
  lemma ChunkOfContent(d: Image, ino: Dinode, off: nat, n: nat)
    requires off <= |Content(d, ino)|
    ensures Chunk(d, ino, off, n) == Content(d, ino)[off..Min(off + n, |Content(d, ino)|)]
  {
    var e := Extent(ino, 0);
    ExtentIs(ino, off, e);
    var c, s := Chunk(d, ino, off, n), Content(d, ino)[off..Min(off + n, e)];
    forall j | 0 <= j < |c| ensures c[j] == s[j] {
      assert Content(d, ino)[off + j] == ByteAt(d, ino, off + j);
    }
  }

  /** A read of a positive size comes back empty exactly at the end of the readable stretch. */
  lemma EmptyReadAtEnd(d: Image, ino: Dinode, off: nat, n: nat)
    requires n > 0
    ensures Chunk(d, ino, off, n) == [] <==> !Readable(ino, off)
  {
  }

  // ---------------------------------------------------------------- directories

  /** Entry `k` of a directory starts before its end and can be read in full. */
  predicate EntryOk(ino: Dinode, k: nat)
  {
    k * DIRENT < ino.size && Extent(ino, k * DIRENT) >= k * DIRENT + DIRENT
  }

  function Entry(d: Image, ino: Dinode, k: nat): (e: seq<byte>)
    requires EntryOk(ino, k)
    ensures |e| == DIRENT
  {
    Slice(d, ino, k * DIRENT, k * DIRENT + DIRENT)
  }

  /** The entry is in use and has the given name, compared up to DIRSIZ bytes or a zero. */
  predicate Matches(d: Image, ino: Dinode, k: nat, name: seq<byte>)
    requires EntryOk(ino, k)
  {
    Half(Entry(d, ino, k), 0) != 0 && Trunc(Entry(d, ino, k)[2..]) == name
  }

  /** The first matching entry from `k` on; none at the end of the directory or at an entry
      that cannot be read in full. */
  function Search(d: Image, ino: Dinode, name: seq<byte>, k: nat): (r: Option<nat>)
    ensures r.Some? ==> EntryOk(ino, r.value)
    decreases if k * DIRENT < ino.size then ino.size - k * DIRENT else 0
  {
    if !EntryOk(ino, k) then None
    else if Matches(d, ino, k, name) then Some(k)
    else Search(d, ino, name, k + 1)
  }

  /** Entry `k` matches, and every entry before it can be read and does not match. */
  predicate FirstMatch(d: Image, ino: Dinode, name: seq<byte>, k: nat)
  {
    && (forall j: nat | j <= k :: EntryOk(ino, j))
    && Matches(d, ino, k, name)
    && (forall j: nat | j < k :: !Matches(d, ino, j, name))
  }

  /** The search from entry `k` returns the first match, and nothing when there is none. */
  lemma {:induction false} SearchFindsFirst(d: Image, ino: Dinode, name: seq<byte>, k: nat)
    requires forall j: nat | j < k :: EntryOk(ino, j) && !Matches(d, ino, j, name)
    ensures match Search(d, ino, name, k)
      case Some(m) => FirstMatch(d, ino, name, m)
      case None => forall m: nat :: !FirstMatch(d, ino, name, m)
    decreases if k * DIRENT < ino.size then ino.size - k * DIRENT else 0
  {
    hide Matches, Extent;
    if EntryOk(ino, k) && !Matches(d, ino, k, name) {
      SearchFindsFirst(d, ino, name, k + 1);
    } else if !EntryOk(ino, k) {
      forall m: nat ensures !FirstMatch(d, ino, name, m) {
        assert m >= k ==> !EntryOk(ino, k);
      }
    }
  }

  // ---------------------------------------------------------------- paths

  /** The inode number that a directory gives to a name. */
  function Lookup(d: Image, inodestart: word, dir: word, name: seq<byte>): (r: Option<word>)
  {
    match DinodeOn(d, inodestart, dir)
    case None => None
    case Some(ino) =>
      if ino.kind != T_DIR then None
      else match Search(d, ino, name, 0)
        case None => None
        case Some(k) => Some(Half(Entry(d, ino, k), 0))
  }

  /** The inode that a list of components leads to from `inum`. */
  function Resolve(d: Image, inodestart: word, comps: seq<seq<byte>>, inum: word): Option<word>
    decreases |comps|
  {
    if comps == [] then Some(inum)
    else match Lookup(d, inodestart, inum, comps[0])
      case None => None
      case Some(next) => Resolve(d, inodestart, comps[1..], next)
  }

  /** The inodes met on the way, after `inum` itself. */
  function Visited(d: Image, inodestart: word, comps: seq<seq<byte>>, inum: word): seq<word>
    decreases |comps|
  {
    if comps == [] then []
    else match Lookup(d, inodestart, inum, comps[0])
      case None => []
      case Some(next) => [next] + Visited(d, inodestart, comps[1..], next)
  }

  /** The inodes met on a path, the root included. */
  function Met(d: Image, inodestart: word, comps: seq<seq<byte>>): seq<word>
  {
    [ROOT_INO] + Visited(d, inodestart, comps, ROOT_INO)
  }

  /** A resolution that succeeds ends at the last inode it met. */
  lemma {:induction false} ResolveEndsAtLast(d: Image, inodestart: word, comps: seq<seq<byte>>, inum: word)
    ensures Resolve(d, inodestart, comps, inum).Some? <==> |Visited(d, inodestart, comps, inum)| == |comps|
    ensures |Visited(d, inodestart, comps, inum)| <= |comps|
    ensures Resolve(d, inodestart, comps, inum).Some? ==>
      var v := [inum] + Visited(d, inodestart, comps, inum);
      Resolve(d, inodestart, comps, inum).value == v[|v| - 1]
    decreases |comps|
  {
    hide Lookup;
    if comps != [] && Lookup(d, inodestart, inum, comps[0]).Some? {
      var next := Lookup(d, inodestart, inum, comps[0]).value;
      ResolveEndsAtLast(d, inodestart, comps[1..], next);
      assert Visited(d, inodestart, comps, inum) == [next] + Visited(d, inodestart, comps[1..], next);
    }
  }
}
