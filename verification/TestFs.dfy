/** kernel/fs_test_layout.c: the disk layout as its builder writes it. Dinodes and directory
    entries are written in place in block buffers, and the reader of the other modules finds
    in them what was written. */
module TestFs {
  import opened Memory
  import opened CString
  import opened Disk
  import opened DiskLayout
  import opened BlockDevice

  const HELLO_INO: nat := 2
  const SUPERBLOCK_BLOCKNO: nat := 1
  const INODESTART: nat := 3
  const BMAPSTART: nat := 10
  const HELLO_BLOCK: nat := 11
  const ROOT_BLOCK: nat := 12

  function Ascii(s: string): (b: seq<byte>)
    requires forall k | 0 <= k < |s| :: 0 < s[k] as int < 0x80
    ensures |b| == |s| && 0 !in b
  {
    if s == "" then [] else [s[0] as int] + Ascii(s[1..])
  }

  // ---------------------------------------------------------------- encoding

  function HalfBytes(h: nat): (b: seq<byte>)
    requires h < 0x1_0000
    ensures |b| == 2 && Half(b, 0) == h
  {
    [h % 0x100, h / 0x100]
  }

  function WordBytes(w: word): (b: seq<byte>)
    ensures |b| == 4 && Word(b, 0) == w
  {
    BytesOfWord(w);
    [w % 0x100, w / 0x100 % 0x100, w / 0x1_0000 % 0x100, w / 0x100_0000]
  }

  function WordsBytes(ws: seq<word>): (b: seq<byte>)
    ensures |b| == 4 * |ws|
  {
    if ws == [] then [] else WordBytes(ws[0]) + WordsBytes(ws[1..])
  }

  lemma {:induction false} WordsBytesReads(ws: seq<word>, k: nat)
    requires k < |ws|
    ensures Word(WordsBytes(ws), 4 * k) == ws[k]
  {
    if k > 0 {
      WordsBytesReads(ws[1..], k - 1);
      assert Word(WordsBytes(ws), 4 * k) == Word(WordsBytes(ws[1..]), 4 * (k - 1));
    } else {
      assert Word(WordsBytes(ws), 0) == Word(WordBytes(ws[0]), 0);
    }
  }

  predicate Encodable(r: Dinode)
  {
    r.kind < 0x1_0000 && r.major < 0x1_0000 && r.minor < 0x1_0000 && r.nlink < 0x1_0000
  }

  /** The 64 bytes of a dinode. */
  function EncodeDinode(r: Dinode): (b: seq<byte>)
    requires Encodable(r)
    ensures |b| == DINODE
  {
    HalfBytes(r.kind) + HalfBytes(r.major) + HalfBytes(r.minor) + HalfBytes(r.nlink)
    + WordBytes(r.size) + WordsBytes(r.addrs)
  }

  /** Round trip. */
  lemma DecodeEncode(r: Dinode)
    requires Encodable(r)
    ensures DecodeDinode(EncodeDinode(r), 0) == r
  {
    hide WordBytes, HalfBytes;
    var b := EncodeDinode(r);
    assert b[0..2] == HalfBytes(r.kind) && b[2..4] == HalfBytes(r.major) && b[4..6] == HalfBytes(r.minor)
      && b[6..8] == HalfBytes(r.nlink);
    assert b[8..12] == WordBytes(r.size) && b[12..] == WordsBytes(r.addrs);
    assert Half(b, 0) == Half(b[0..2], 0) && Half(b, 2) == Half(b[2..4], 0) && Half(b, 4) == Half(b[4..6], 0)
      && Half(b, 6) == Half(b[6..8], 0);
    assert Word(b, 8) == Word(b[8..12], 0);
    forall k: nat | k < NDIRECT + 1 ensures Word(b, 12 + 4 * k) == r.addrs[k] {
      assert Word(b, 12 + 4 * k) == Word(b[12..], 4 * k);
      WordsBytesReads(r.addrs, k);
    }
    assert DecodeDinode(b, 0).addrs == r.addrs;
  }

  // ---------------------------------------------------------------- the inode table

  function WithDinode(d: Image, inodestart: word, inum: word, r: Dinode): Image
    requires InodeBlock(inodestart, inum) < DISK_NBLOCKS && Encodable(r)
  {
    var b := InodeBlock(inodestart, inum);
    WithBlock(d, b, Splice(BlockOf(d, b), inum % IPB * DINODE, EncodeDinode(r)))
  }

  lemma DinodeInBlock(d: Image, inodestart: word, inum: word)
    ensures DinodeOn(d, inodestart, inum) ==
      var b := InodeBlock(inodestart, inum);
      var a := inum % IPB * DINODE;
      if b < DISK_NBLOCKS then Some(DecodeDinode(BlockOf(d, b)[a..a + DINODE], 0)) else None
  {
    hide DecodeDinode;
    var b := InodeBlock(inodestart, inum);
    if b < DISK_NBLOCKS {
      var a := inum % IPB * DINODE;
      DecodeLocal(d, b * BSIZE + a);
      SliceOfSlice(d, b * BSIZE, BSIZE, a, DINODE);
    }
  }

  /** A dinode written is read back, and every other inode of the table stays as it was. */
  lemma WithDinodeReads(d: Image, inodestart: word, inum: word, r: Dinode, other: word)
    requires InodeBlock(inodestart, inum) < DISK_NBLOCKS && Encodable(r)
    ensures DinodeOn(WithDinode(d, inodestart, inum, r), inodestart, other)
            == if other == inum then Some(r) else DinodeOn(d, inodestart, other)
  {
    hide DinodeOn, DecodeDinode, EncodeDinode, BlockOf, WithBlock;
    var d' := WithDinode(d, inodestart, inum, r);
    var b, c := InodeBlock(inodestart, inum), InodeBlock(inodestart, other);
    DinodeInBlock(d, inodestart, other);
    DinodeInBlock(d', inodestart, other);
    if c < DISK_NBLOCKS {
      var a, e := inum % IPB * DINODE, other % IPB * DINODE;
      var block := Splice(BlockOf(d, b), a, EncodeDinode(r));
      WithBlockReads(d, b, block, c);
      SameBlock(inodestart, inum, other);
      if other == inum {
        assert block[a..a + DINODE] == EncodeDinode(r);
        DecodeEncode(r);
      } else if b == c {
        assert block[e..e + DINODE] == BlockOf(d, b)[e..e + DINODE];
      }
    }
  }

  /** Inodes that share a block differ in their place in it. */
  lemma SameBlock(inodestart: word, inum: word, other: word)
    ensures inum != other && InodeBlock(inodestart, inum) == InodeBlock(inodestart, other) ==> inum % IPB != other % IPB
  {
  }

  /** What the builder writes into an inode. */
  function NewDinode(kind: nat, size: word, addr: word): (r: Dinode)
    requires kind < 0x1_0000
    ensures Encodable(r)
  {
    Record(kind, 0, 0, 1, size, [addr, 0, 0, 0, 0, 0, 0, 0, 0, 0, 0, 0, 0])
  }

  lemma {:induction false} ZeroWords(ws: seq<word>)
    requires forall k | 0 <= k < |ws| :: ws[k] == 0
    ensures WordsBytes(ws) == Zeros(4 * |ws|)
  {
    if ws != [] { ZeroWords(ws[1..]); }
  }

  lemma NewDinodeBytes(kind: nat, size: word, addr: word)
    requires kind < 0x1_0000
    ensures EncodeDinode(NewDinode(kind, size, addr))
            == HalfBytes(kind) + [0, 0, 0, 0, 1, 0] + WordBytes(size) + WordBytes(addr) + Zeros(48)
  {
    hide NewDinode, HalfBytes, WordBytes, Half, Word, Zeros;
    var r := NewDinode(kind, size, addr);
    NewDinodeFields(kind, size, addr);
    ZeroWords(r.addrs[1..]);
    assert WordsBytes(r.addrs) == WordBytes(addr) + Zeros(48);
    hide WordsBytes;
    SmallHalves();
    assert HalfBytes(0) + HalfBytes(0) + HalfBytes(1) == [0, 0, 0, 0, 1, 0];
  }

  lemma NewDinodeFields(kind: nat, size: word, addr: word)
    requires kind < 0x1_0000
    ensures var r := NewDinode(kind, size, addr);
      && r.kind == kind && r.major == 0 && r.minor == 0 && r.nlink == 1 && r.size == size
      && |r.addrs| == 13 && r.addrs[0] == addr && forall k | 0 <= k < 12 :: r.addrs[1..][k] == 0
  {
  }

  lemma SmallHalves()
    ensures HalfBytes(0) == [0, 0] && HalfBytes(1) == [1, 0]
  {
  }

  /** One inode written by read-modify-write: clear the dinode, then set its fields. */
  method WriteDinode(disk: array<byte>, inodestart: word, inum: word, kind: nat, size: word, addr: word)
    returns (ok: bool)
    requires disk.Length == DISK_NBLOCKS * BSIZE && kind < 0x1_0000
    modifies disk
    ensures ok <==> InodeBlock(inodestart, inum) < DISK_NBLOCKS
    ensures disk[..] == if ok
      then WithDinode(old(disk[..]), inodestart, inum, NewDinode(kind, size, addr)) else old(disk[..])
  {
    hide EncodeDinode, BlockOf, WithBlock, HalfBytes, WordBytes, NewDinode, Half, Word;
    var ibuf := new byte[BSIZE];
    var bno := (inodestart + inum / IPB) % WORD_LIMIT;
    var idx := inum % IPB;
    var read := BdevRead(disk, bno, ibuf);
    if read != 0 {
      return false;
    }
    ghost var b0, a := ibuf[..], idx * DINODE;
    Memcpy(ibuf, idx * DINODE, Zeros(DINODE));
    Memcpy(ibuf, idx * DINODE, HalfBytes(kind));
    Memcpy(ibuf, idx * DINODE + 6, HalfBytes(1));
    Memcpy(ibuf, idx * DINODE + 8, WordBytes(size));
    Memcpy(ibuf, idx * DINODE + 12, WordBytes(addr));
    FieldsAreDinode(b0, ibuf[..], a, kind, size, addr);
    var written := BdevWrite(disk, bno, ibuf);
    return written == 0;
  }

  lemma FieldsAreDinode(b: Mem, b': Mem, a: nat, kind: nat, size: word, addr: word)
    requires a + DINODE <= |b| && kind < 0x1_0000
    requires var b3 := Splice(Splice(Splice(b, a, Zeros(DINODE)), a, HalfBytes(kind)), a + 6, HalfBytes(1));
      b' == Splice(Splice(b3, a + 8, WordBytes(size)), a + 12, WordBytes(addr))
    ensures b' == Splice(b, a, EncodeDinode(NewDinode(kind, size, addr)))
  {
    NewDinodeBytes(kind, size, addr);
    SmallHalves();
    hide EncodeDinode, NewDinode, HalfBytes, WordBytes, Half, Word;
    var e := EncodeDinode(NewDinode(kind, size, addr));
    forall k | 0 <= k < |b| ensures b'[k] == Splice(b, a, e)[k] {
    }
  }

  // ---------------------------------------------------------------- directories

  datatype Dirent = Dirent(inum: nat, name: seq<byte>)

  predicate DirentOk(e: Dirent)
  {
    e.inum < 0x1_0000 && 0 !in e.name && |e.name| <= DIRSIZ
  }

  function DirentBytes(e: Dirent): (b: seq<byte>)
    requires DirentOk(e)
    ensures |b| == DIRENT
  {
    HalfBytes(e.inum) + NameField(e.name, DIRSIZ)
  }

  /** The content of a directory with the given entries. */
  function Packed(es: seq<Dirent>): (b: seq<byte>)
    requires forall k | 0 <= k < |es| :: DirentOk(es[k])
    ensures |b| == |es| * DIRENT
  {
    if es == [] then [] else DirentBytes(es[0]) + Packed(es[1..])
  }

  lemma {:induction false} PackedEntry(es: seq<Dirent>, k: nat)
    requires (forall j | 0 <= j < |es| :: DirentOk(es[j])) && k < |es|
    ensures Packed(es)[k * DIRENT..k * DIRENT + DIRENT] == DirentBytes(es[k])
  {
    hide DirentBytes;
    if k > 0 {
      PackedEntry(es[1..], k - 1);
      assert Packed(es)[k * DIRENT..k * DIRENT + DIRENT]
        == Packed(es[1..])[(k - 1) * DIRENT..(k - 1) * DIRENT + DIRENT];
    }
  }

  /** The first entry in use with the given name, from `k` on. */
  function FirstNamed(es: seq<Dirent>, name: seq<byte>, k: nat): Option<nat>
    requires k <= |es|
    decreases |es| - k
  {
    if k == |es| then None
    else if es[k].inum != 0 && es[k].name == name then Some(k)
    else FirstNamed(es, name, k + 1)
  }

  lemma TruncWhole(s: seq<byte>)
    requires 0 !in s
    ensures Trunc(s) == s
  {
    assert s[..|s|] == s;
    TruncIs(s, |s|);
  }

  lemma EntryNames(e: Dirent)
    requires DirentOk(e)
    ensures Half(DirentBytes(e), 0) == e.inum && Trunc(DirentBytes(e)[2..]) == e.name
  {
    var b := DirentBytes(e);
    assert Half(b, 0) == Half(HalfBytes(e.inum), 0);
    assert b[2..] == NameField(e.name, DIRSIZ);
    TruncWhole(e.name);
    NameFieldReads(e.name, DIRSIZ);
  }

  lemma PackedMatches(d: Image, ino: Dinode, es: seq<Dirent>, name: seq<byte>, k: nat)
    requires (forall j | 0 <= j < |es| :: DirentOk(es[j])) && k < |es|
    requires Content(d, ino) == Packed(es)
    ensures EntryOk(ino, k) && Half(Entry(d, ino, k), 0) == es[k].inum
    ensures Matches(d, ino, k, name) <==> es[k].inum != 0 && es[k].name == name
  {
    hide Packed, Extent, EntryOk, Entry, Content, Trunc, Half, DirentBytes;
    PackedEntry(es, k);
    EntryInContent(d, ino, k);
    EntryNames(es[k]);
  }

  /** Searching a directory whose content is packed entries is searching the entries. */
  lemma {:induction false} PackedSearch(d: Image, ino: Dinode, es: seq<Dirent>, name: seq<byte>, k: nat)
    requires (forall j | 0 <= j < |es| :: DirentOk(es[j])) && k <= |es|
    requires Content(d, ino) == Packed(es) && ino.size == |es| * DIRENT
    ensures Search(d, ino, name, k) == FirstNamed(es, name, k)
    decreases |es| - k
  {
    hide Packed, DirentBytes, Matches, Content, Extent;
    if k < |es| {
      PackedMatches(d, ino, es, name, k);
      PackedSearch(d, ino, es, name, k + 1);
    }
  }

  /** Looking a name up in such a directory gives the inode number of its first entry of that name. */
  lemma PackedLookup(d: Image, inodestart: word, dir: word, ino: Dinode, es: seq<Dirent>, name: seq<byte>)
    requires DinodeOn(d, inodestart, dir) == Some(ino) && ino.kind == T_DIR
    requires forall j | 0 <= j < |es| :: DirentOk(es[j])
    requires Content(d, ino) == Packed(es) && ino.size == |es| * DIRENT
    ensures Lookup(d, inodestart, dir, name) ==
      match FirstNamed(es, name, 0)
      case None => None
      case Some(k) => if k < |es| then Some(es[k].inum as word) else None
  {
    hide Packed, DirentBytes, Matches, Content, Extent, DinodeOn, Entry, Half;
    PackedSearch(d, ino, es, name, 0);
    FirstNamedIn(es, name, 0);
    if FirstNamed(es, name, 0).Some? {
      PackedMatches(d, ino, es, name, FirstNamed(es, name, 0).value);
    }
  }

  lemma {:induction false} FirstNamedIn(es: seq<Dirent>, name: seq<byte>, k: nat)
    requires k <= |es|
    ensures FirstNamed(es, name, k).Some? ==> k <= FirstNamed(es, name, k).value < |es|
    decreases |es| - k
  {
    if k < |es| { FirstNamedIn(es, name, k + 1); }
  }

  // ---------------------------------------------------------------- the builder

  const MESSAGE: seq<byte> := Ascii("Hello from inode!\n")
  const SUPERBLOCK: seq<word> := [DISK_NBLOCKS, DISK_NBLOCKS - 10, 64, 0, 2, INODESTART, BMAPSTART]
  const DOT: byte := '.' as int
  const HELLO_NAME: seq<byte> := ['h' as int, 'e' as int, 'l' as int, 'l' as int, 'o' as int]
  const ROOT_ENTRIES: seq<Dirent> :=
    [Dirent(ROOT_INO, [DOT]), Dirent(ROOT_INO, [DOT, DOT]), Dirent(HELLO_INO, HELLO_NAME)]
  const ROOT_CONTENT: seq<byte> := Packed(ROOT_ENTRIES)
  const ROOT_DINODE := NewDinode(T_DIR, 48, ROOT_BLOCK)
  const HELLO_DINODE := NewDinode(T_FILE, 18, HELLO_BLOCK)

  lemma ConstantSizes()
    ensures |MESSAGE| == 18 && |ROOT_ENTRIES| == 3 && |ROOT_CONTENT| == 48
    ensures forall k | 0 <= k < 3 :: DirentOk(ROOT_ENTRIES[k])
  {
    hide Ascii;
    assert forall k | 0 <= k < 3 :: DirentOk(ROOT_ENTRIES[k]);
  }

  function ZeroPadded(s: seq<byte>): (b: seq<byte>)
    requires |s| <= BSIZE
    ensures |b| == BSIZE && b[..|s|] == s
  {
    s + Zeros(BSIZE - |s|)
  }

  lemma ByteInFirstBlock(d: Image, ino: Dinode, i: nat)
    requires i < ino.size && i < BSIZE && 0 < ino.addrs[0] < DISK_NBLOCKS
    ensures Readable(ino, i) && ByteAt(d, ino, i) == BlockOf(d, ino.addrs[0])[i]
  {
    assert i / BSIZE == 0 && i % BSIZE == i;
  }

  /** The content of a file of at most one block. */
  lemma OneBlockFile(d: Image, kind: nat, size: word, addr: word)
    requires kind < 0x1_0000 && size <= BSIZE && 0 < addr < DISK_NBLOCKS
    ensures Content(d, NewDinode(kind, size, addr)) == BlockOf(d, addr)[..size]
  {
    var ino := NewDinode(kind, size, addr);
    assert ino.addrs[0] == addr && ino.size == size;
    hide NewDinode, Content, Readable, ByteAt, BlockOf;
    WholeFileReadable(d, ino);
    forall i: nat | i < size ensures Content(d, ino)[i] == BlockOf(d, addr)[..size][i] {
      ByteInFirstBlock(d, ino, i);
    }
  }

  /** A disk that holds nothing but a root directory with the given entries. */
  function RootDir(es: seq<Dirent>): Dinode
    requires |es| * DIRENT <= BSIZE
  {
    NewDinode(T_DIR, |es| * DIRENT, ROOT_BLOCK)
  }

  predicate OneBlock(es: seq<Dirent>)
  {
    |es| * DIRENT <= BSIZE && forall k | 0 <= k < |es| :: DirentOk(es[k])
  }

  function RootDisk(es: seq<Dirent>): Image
    requires OneBlock(es)
  {
    var d := WithBlock(Zeros(DISK_NBLOCKS * BSIZE), ROOT_BLOCK, ZeroPadded(Packed(es)));
    WithDinode(d, INODESTART, ROOT_INO, RootDir(es))
  }

  lemma RootDiskHolds(es: seq<Dirent>)
    requires OneBlock(es)
    ensures DinodeOn(RootDisk(es), INODESTART, ROOT_INO) == Some(RootDir(es))
    ensures Content(RootDisk(es), RootDir(es)) == Packed(es)
  {
    hide WithBlock, BlockOf, DinodeOn, EncodeDinode, NewDinode, Packed, ZeroPadded, Content;
    var block := ZeroPadded(Packed(es));
    var d := WithBlock(Zeros(DISK_NBLOCKS * BSIZE), ROOT_BLOCK, block);
    var d' := WithDinode(d, INODESTART, ROOT_INO, RootDir(es));
    WithDinodeReads(d, INODESTART, ROOT_INO, RootDir(es), ROOT_INO);
    OneBlockFile(d', T_DIR, |es| * DIRENT, ROOT_BLOCK);
    WithBlockReads(d, INODESTART, Splice(BlockOf(d, INODESTART), DINODE, EncodeDinode(RootDir(es))), ROOT_BLOCK);
    WithBlockReads(Zeros(DISK_NBLOCKS * BSIZE), ROOT_BLOCK, block, ROOT_BLOCK);
  }

  /** Write a block that holds `s` and zeros. */
  method WriteZeroPadded(disk: array<byte>, blockno: word, s: seq<byte>)
    requires disk.Length == DISK_NBLOCKS * BSIZE && blockno < DISK_NBLOCKS && |s| <= BSIZE
    modifies disk
    ensures disk[..] == WithBlock(old(disk[..]), blockno, ZeroPadded(s))
  {
    var buf := new byte[BSIZE](_ => 0);
    assert buf[..] == Zeros(BSIZE);
    Memcpy(buf, 0, s);
    assert buf[..] == ZeroPadded(s);
    var _ := BdevWrite(disk, blockno, buf);
  }

  method ZeroDisk(disk: array<byte>)
    requires disk.Length == DISK_NBLOCKS * BSIZE
    modifies disk
    ensures disk[..] == Zeros(DISK_NBLOCKS * BSIZE)
  {
    var zero := new byte[BSIZE](_ => 0);
    assert zero[..] == Zeros(BSIZE);
    for b := 0 to DISK_NBLOCKS
      invariant zero[..] == Zeros(BSIZE) && forall k | 0 <= k < b * BSIZE :: disk[k] == 0
    {
      ghost var before := disk[..];
      var _ := BdevWrite(disk, b, zero);
      forall k | 0 <= k < (b + 1) * BSIZE ensures disk[..][k] == 0 {
        assert disk[..][k] == if k < b * BSIZE then before[k] else zero[..][k - b * BSIZE];
      }
    }
  }

  /** One struct dirent: the name by memset and strncpy. */
  method StoreDirent(de: array<byte>, at: nat, e: Dirent)
    requires DirentOk(e) && at + DIRENT <= de.Length
    modifies de
    ensures de[..] == Splice(old(de[..]), at, DirentBytes(e))
  {
    var name := new byte[DIRSIZ](_ => 0);
    TruncIs(e.name + [0], |e.name|);
    TruncWhole(e.name);
    Strncpy(name, e.name + [0], DIRSIZ);
    assert name[..] == NameField(e.name, DIRSIZ);
    Memcpy(de, at, HalfBytes(e.inum) + name[..]);
  }

  /** struct dirent de[3]. */
  method BuildEntries() returns (de: array<byte>)
    ensures fresh(de) && de[..] == ROOT_CONTENT
  {
    hide Packed, DirentBytes, Ascii;
    ConstantSizes();
    de := new byte[3 * DIRENT];
    var es := ROOT_ENTRIES;
    for k := 0 to 3
      invariant fresh(de) && de.Length == 3 * DIRENT && de[..k * DIRENT] == Packed(es)[..k * DIRENT]
    {
      ghost var before := de[..];
      StoreDirent(de, k * DIRENT, es[k]);
      PackedEntry(es, k);
      assert de[..(k + 1) * DIRENT] == before[..k * DIRENT] + DirentBytes(es[k]);
      assert Packed(es)[..(k + 1) * DIRENT] == Packed(es)[..k * DIRENT] + Packed(es)[k * DIRENT..k * DIRENT + DIRENT];
    }
    assert Packed(es)[..3 * DIRENT] == Packed(es) && de[..3 * DIRENT] == de[..];
  }

  /** A disk of zeros but for three blocks. */
  function DataImage(sb: seq<byte>, msg: seq<byte>, dir: seq<byte>): Image
    requires |sb| <= BSIZE && |msg| <= BSIZE && |dir| <= BSIZE
  {
    var d1 := WithBlock(Zeros(DISK_NBLOCKS * BSIZE), SUPERBLOCK_BLOCKNO, ZeroPadded(sb));
    WithBlock(WithBlock(d1, HELLO_BLOCK, ZeroPadded(msg)), ROOT_BLOCK, ZeroPadded(dir))
  }

  function WithInodes(d: Image): Image
  {
    WithDinode(WithDinode(d, INODESTART, ROOT_INO, ROOT_DINODE), INODESTART, HELLO_INO, HELLO_DINODE)
  }

  /** All bytes of the disk that the builder leaves. */
  function TestImage(): Image
  {
    ConstantSizes();
    WithInodes(DataImage(WordsBytes(SUPERBLOCK), MESSAGE, ROOT_CONTENT))
  }

  /** What a reader finds on it. */
  ghost predicate TestLayout(d: Image)
  {
    && BlockOf(d, SUPERBLOCK_BLOCKNO)[..28] == WordsBytes(SUPERBLOCK)
    && DinodeOn(d, INODESTART, ROOT_INO) == Some(ROOT_DINODE) && Content(d, ROOT_DINODE) == ROOT_CONTENT
    && DinodeOn(d, INODESTART, HELLO_INO) == Some(HELLO_DINODE) && Content(d, HELLO_DINODE) == MESSAGE
  }

  lemma TestImageLayout()
    ensures TestLayout(TestImage())
  {
    hide WithBlock, BlockOf, DinodeOn, WithDinode, WordsBytes, Packed, Ascii, NewDinode, EncodeDinode, DirentOk,
      Content;
    hide DataImage, WithInodes;
    ConstantSizes();
    var d := DataImage(WordsBytes(SUPERBLOCK), MESSAGE, ROOT_CONTENT);
    DataBlocks(WordsBytes(SUPERBLOCK), MESSAGE, ROOT_CONTENT);
    TwoInodes(d);
    OneBlockFile(TestImage(), T_DIR, 48, ROOT_BLOCK);
    OneBlockFile(TestImage(), T_FILE, 18, HELLO_BLOCK);
  }

  /** fs_build_test_fs_basic; the result is what it leaves in g_sb. */
  method BuildTestFs(disk: array<byte>) returns (sb: seq<word>)
    requires disk.Length == DISK_NBLOCKS * BSIZE
    modifies disk
    ensures disk[..] == TestImage() && sb == SUPERBLOCK
  {
    hide WithBlock, WordsBytes, Packed, Ascii, NewDinode, DirentOk, DataImage, WithInodes;
    ConstantSizes();
    sb := SUPERBLOCK;
    var de := BuildEntries();
    var entries := de[..];
    WriteData(disk, WordsBytes(sb), MESSAGE, entries);
    WriteInodes(disk);
  }

  method WriteInodes(disk: array<byte>)
    requires disk.Length == DISK_NBLOCKS * BSIZE
    modifies disk
    ensures disk[..] == WithInodes(old(disk[..]))
  {
    hide WithBlock, BlockOf, DinodeOn, WithDinode, EncodeDinode, NewDinode, DecodeDinode;
    var _ := WriteDinode(disk, INODESTART, ROOT_INO, T_DIR, 48, ROOT_BLOCK);
    var _ := WriteDinode(disk, INODESTART, HELLO_INO, T_FILE, 18, HELLO_BLOCK);
  }

  /** The blocks other than those of the inode table. */
  method WriteData(disk: array<byte>, sb: seq<byte>, msg: seq<byte>, dir: seq<byte>)
    requires disk.Length == DISK_NBLOCKS * BSIZE && |sb| <= BSIZE && |msg| <= BSIZE && |dir| <= BSIZE
    modifies disk
    ensures disk[..] == DataImage(sb, msg, dir)
  {
    hide WithBlock, ZeroPadded;
    ZeroDisk(disk);
    WriteZeroPadded(disk, SUPERBLOCK_BLOCKNO, sb);
    WriteZeroPadded(disk, HELLO_BLOCK, msg);
    WriteZeroPadded(disk, ROOT_BLOCK, dir);
  }

  /** Blocks written one after another are all there. */
  lemma DataBlocks(sb: seq<byte>, msg: seq<byte>, dir: seq<byte>)
    requires |sb| <= BSIZE && |msg| <= BSIZE && |dir| <= BSIZE
    ensures var d := DataImage(sb, msg, dir);
      && BlockOf(d, SUPERBLOCK_BLOCKNO) == ZeroPadded(sb) && BlockOf(d, HELLO_BLOCK) == ZeroPadded(msg)
      && BlockOf(d, ROOT_BLOCK) == ZeroPadded(dir)
  {
    hide WithBlock, BlockOf, ZeroPadded;
    var d0: Image := Zeros(DISK_NBLOCKS * BSIZE);
    var d1 := WithBlock(d0, SUPERBLOCK_BLOCKNO, ZeroPadded(sb));
    var d2 := WithBlock(d1, HELLO_BLOCK, ZeroPadded(msg));
    WithBlockReads(d0, SUPERBLOCK_BLOCKNO, ZeroPadded(sb), SUPERBLOCK_BLOCKNO);
    WithBlockReads(d1, HELLO_BLOCK, ZeroPadded(msg), SUPERBLOCK_BLOCKNO);
    WithBlockReads(d1, HELLO_BLOCK, ZeroPadded(msg), HELLO_BLOCK);
    WithBlockReads(d2, ROOT_BLOCK, ZeroPadded(dir), SUPERBLOCK_BLOCKNO);
    WithBlockReads(d2, ROOT_BLOCK, ZeroPadded(dir), HELLO_BLOCK);
    WithBlockReads(d2, ROOT_BLOCK, ZeroPadded(dir), ROOT_BLOCK);
  }

  /** Writing the two inodes puts both in the table and touches no block outside it. */
  lemma TwoInodes(d: Image)
    ensures var d' := WithInodes(d);
      && DinodeOn(d', INODESTART, ROOT_INO) == Some(ROOT_DINODE)
      && DinodeOn(d', INODESTART, HELLO_INO) == Some(HELLO_DINODE)
      && forall b: nat | b < DISK_NBLOCKS && b != INODESTART :: BlockOf(d', b) == BlockOf(d, b)
  {
    hide WithBlock, BlockOf, DinodeOn, EncodeDinode, NewDinode;
    var d1 := WithDinode(d, INODESTART, ROOT_INO, ROOT_DINODE);
    var d2 := WithDinode(d1, INODESTART, HELLO_INO, HELLO_DINODE);
    WithDinodeReads(d, INODESTART, ROOT_INO, ROOT_DINODE, ROOT_INO);
    WithDinodeReads(d1, INODESTART, HELLO_INO, HELLO_DINODE, ROOT_INO);
    WithDinodeReads(d1, INODESTART, HELLO_INO, HELLO_DINODE, HELLO_INO);
    forall b: nat | b < DISK_NBLOCKS && b != INODESTART ensures BlockOf(d2, b) == BlockOf(d, b) {
      WithBlockReads(d, INODESTART, Splice(BlockOf(d, INODESTART), DINODE, EncodeDinode(ROOT_DINODE)), b);
      WithBlockReads(d1, INODESTART, Splice(BlockOf(d1, INODESTART), 2 * DINODE, EncodeDinode(HELLO_DINODE)), b);
    }
  }

  /** fs_load_super: the first seven words of block 1, in the order of struct superblock. */
  method LoadSuper(disk: array<byte>) returns (sb: seq<word>)
    requires disk.Length == DISK_NBLOCKS * BSIZE
    ensures |sb| == 7 && forall k: nat | k < 7 :: sb[k] == Word(BlockOf(disk[..], SUPERBLOCK_BLOCKNO), 4 * k)
  {
    hide BlockOf, Word;
    var buf := new byte[BSIZE];
    var _ := BdevRead(disk, SUPERBLOCK_BLOCKNO, buf);
    sb := [];
    for k := 0 to 7
      invariant buf.Length == BSIZE && buf[..] == BlockOf(disk[..], SUPERBLOCK_BLOCKNO)
      invariant |sb| == k && forall j: nat | j < k :: sb[j] == Word(BlockOf(disk[..], SUPERBLOCK_BLOCKNO), 4 * j)
    {
      sb := sb + [Word(buf[..], 4 * k)];
    }
  }

  /** On the disk of the builder those are the superblock it wrote. */
  lemma LoadedSuper(d: Image, k: nat)
    requires TestLayout(d) && k < 7
    ensures Word(BlockOf(d, SUPERBLOCK_BLOCKNO), 4 * k) == SUPERBLOCK[k]
  {
    hide BlockOf, DinodeOn, Packed, Ascii, Content, NewDinode, Word, WordsBytes;
    WordsBytesReads(SUPERBLOCK, k);
    WordOfPrefix(BlockOf(d, SUPERBLOCK_BLOCKNO), 28, 4 * k);
  }

  lemma WordOfPrefix(m: Mem, n: nat, a: nat)
    requires a + 4 <= n <= |m|
    ensures Word(m, a) == Word(m[..n], a)
  {
  }
}
