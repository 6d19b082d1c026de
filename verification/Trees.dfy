/** A disk with a directory inside the root and a file inside that, of any names and any content
    of up to twelve blocks, and a program that reads the file by its path. */
module Trees {
  import opened Memory
  import opened CString
  import opened Disk
  import opened DiskLayout
  import opened BlockDevice
  import opened Paths
  import opened InodeCache
  import opened Inodes
  import opened FileTables
  import opened Files
  import opened Sessions
  import opened TestFs
  import Names

  // ---------------------------------------------------------------- a file of several blocks

  /** `c` stored block by block, the last one padded with zeros. */
  function Stored(d: Image, bs: seq<word>, c: seq<byte>): Image
    requires |c| <= |bs| * BSIZE && forall k | 0 <= k < |bs| :: bs[k] < DISK_NBLOCKS
    decreases |bs|
  {
    if c == [] then d
    else
      var m := Min(BSIZE, |c|);
      Stored(WithBlock(d, bs[0], ZeroPadded(c[..m])), bs[1..], c[m..])
  }

  lemma {:induction false} StoredElsewhere(d: Image, bs: seq<word>, c: seq<byte>, b: nat)
    requires |c| <= |bs| * BSIZE && forall k | 0 <= k < |bs| :: bs[k] < DISK_NBLOCKS
    requires b < DISK_NBLOCKS && b !in bs
    ensures BlockOf(Stored(d, bs, c), b) == BlockOf(d, b)
    decreases |bs|
  {
    hide BlockOf, WithBlock, ZeroPadded;
    if c != [] {
      var m := Min(BSIZE, |c|);
      StoredElsewhere(WithBlock(d, bs[0], ZeroPadded(c[..m])), bs[1..], c[m..], b);
      WithBlockReads(d, bs[0], ZeroPadded(c[..m]), b);
    }
  }

  /** Blocks stored in different places are all there. */
  lemma {:induction false} StoredReads(d: Image, bs: seq<word>, c: seq<byte>, k: nat)
    requires |c| <= |bs| * BSIZE && forall j | 0 <= j < |bs| :: bs[j] < DISK_NBLOCKS
    requires (forall i, j | 0 <= i < j < |bs| :: bs[i] != bs[j]) && k * BSIZE < |c|
    ensures var m := Min(BSIZE, |c| - k * BSIZE);
      BlockOf(Stored(d, bs, c), bs[k])[..m] == c[k * BSIZE..k * BSIZE + m]
    decreases |bs|
  {
    hide BlockOf, WithBlock, ZeroPadded;
    var m := Min(BSIZE, |c|);
    var d1 := WithBlock(d, bs[0], ZeroPadded(c[..m]));
    if k == 0 {
      StoredElsewhere(d1, bs[1..], c[m..], bs[0]);
      WithBlockReads(d, bs[0], ZeroPadded(c[..m]), bs[0]);
    } else {
      StoredReads(d1, bs[1..], c[m..], k - 1);
      var n := Min(BSIZE, |c| - k * BSIZE);
      assert c[m..][(k - 1) * BSIZE..(k - 1) * BSIZE + n] == c[k * BSIZE..k * BSIZE + n];
    }
  }

  /** A disk whose blocks `bs` hold `c`, and an inode that lists them: the file is `c`. */
  lemma StoredIsFile(d: Image, bs: seq<word>, c: seq<byte>, ino: Dinode)
    requires |bs| == NDIRECT && |c| <= NDIRECT * BSIZE && ino.size == |c| && ino.addrs[..NDIRECT] == bs
    requires forall j | 0 <= j < |bs| :: 0 < bs[j] < DISK_NBLOCKS
    requires forall k: nat | k * BSIZE < |c| ::
      BlockOf(d, bs[k])[..Min(BSIZE, |c| - k * BSIZE)] == c[k * BSIZE..k * BSIZE + Min(BSIZE, |c| - k * BSIZE)]
    ensures FileIs(d, ino, c) && Content(d, ino) == c
  {
    forall k: nat | k * 1024 < |c| ensures BlockAt(d, ino.addrs[k], c, k) {
      var m := Min(1024, |c| - k * 1024);
      assert ino.addrs[k] == bs[k];
      assert BlockOf(d, bs[k])[..m] == d[bs[k] * 1024..bs[k] * 1024 + m];
    }
    BlocksAreFile(d, ino, c);
  }

  // ---------------------------------------------------------------- the disk

  const SUB_INO: nat := 2
  const FILE_INO: nat := 3
  const SUB_BLOCK: nat := 13

  function FileBlocks(): (bs: seq<word>)
    ensures |bs| == NDIRECT && forall k | 0 <= k < NDIRECT :: bs[k] == 20 + k
  {
    seq(NDIRECT, k requires 0 <= k < NDIRECT => 20 + k)
  }

  function FileInode(size: word): (r: Dinode)
    ensures Encodable(r) && r.size == size && r.kind == T_FILE && r.addrs[..NDIRECT] == FileBlocks()
  {
    Record(T_FILE, 0, 0, 1, size, FileBlocks() + [0])
  }

  predicate Fits(sub: seq<byte>, name: seq<byte>, c: seq<byte>)
  {
    Names.Nameable(sub) && Names.Nameable(name) && |c| <= NDIRECT * BSIZE
  }

  function OneEntry(name: seq<byte>, inum: word): (es: seq<Dirent>)
    requires Names.Nameable(name) && inum < 0x1_0000
    ensures OneBlock(es) && |es| == 1
  {
    [Dirent(inum, name)]
  }

  /** The blocks of the two directories and of the file. */
  function TreeBlocks(sub: seq<byte>, name: seq<byte>, c: seq<byte>): Image
    requires Fits(sub, name, c)
  {
    var d1 := WithBlock(Zeros(DISK_NBLOCKS * BSIZE), ROOT_BLOCK, ZeroPadded(Packed(OneEntry(sub, SUB_INO))));
    var d2 := WithBlock(d1, SUB_BLOCK, ZeroPadded(Packed(OneEntry(name, FILE_INO))));
    Stored(d2, FileBlocks(), c)
  }

  function WithTree(d: Image, size: word): Image
  {
    var d1 := WithDinode(d, INODESTART, ROOT_INO, NewDinode(T_DIR, DIRENT, ROOT_BLOCK));
    var d2 := WithDinode(d1, INODESTART, SUB_INO, NewDinode(T_DIR, DIRENT, SUB_BLOCK));
    WithDinode(d2, INODESTART, FILE_INO, FileInode(size))
  }

  function TreeDisk(sub: seq<byte>, name: seq<byte>, c: seq<byte>): Image
    requires Fits(sub, name, c)
  {
    WithTree(TreeBlocks(sub, name, c), |c|)
  }

  lemma InodesApart(d: Image, inum: word, r: Dinode, b: nat)
    requires inum < IPB && Encodable(r) && b < DISK_NBLOCKS && b != INODESTART
    ensures InodeBlock(INODESTART, inum) == INODESTART
    ensures BlockOf(WithDinode(d, INODESTART, inum, r), b) == BlockOf(d, b)
  {
    hide BlockOf, WithBlock, EncodeDinode;
    WithBlockReads(d, INODESTART, Splice(BlockOf(d, INODESTART), inum % IPB * DINODE, EncodeDinode(r)), b);
  }

  lemma TreeInodes(d: Image, size: word)
    ensures var t := WithTree(d, size);
      && DinodeOn(t, INODESTART, ROOT_INO) == Some(NewDinode(T_DIR, DIRENT, ROOT_BLOCK))
      && DinodeOn(t, INODESTART, SUB_INO) == Some(NewDinode(T_DIR, DIRENT, SUB_BLOCK))
      && DinodeOn(t, INODESTART, FILE_INO) == Some(FileInode(size))
      && forall b: nat | b < DISK_NBLOCKS && b != INODESTART :: BlockOf(t, b) == BlockOf(d, b)
  {
    hide DinodeOn, WithDinode, NewDinode, FileInode, BlockOf;
    var root, sub := NewDinode(T_DIR, DIRENT, ROOT_BLOCK), NewDinode(T_DIR, DIRENT, SUB_BLOCK);
    var d1 := WithDinode(d, INODESTART, ROOT_INO, root);
    var d2 := WithDinode(d1, INODESTART, SUB_INO, sub);
    forall inum: word ensures
      DinodeOn(WithTree(d, size), INODESTART, inum) ==
        if inum == FILE_INO then Some(FileInode(size)) else if inum == SUB_INO then Some(sub)
        else if inum == ROOT_INO then Some(root) else DinodeOn(d, INODESTART, inum)
    {
      WithDinodeReads(d, INODESTART, ROOT_INO, root, inum);
      WithDinodeReads(d1, INODESTART, SUB_INO, sub, inum);
      WithDinodeReads(d2, INODESTART, FILE_INO, FileInode(size), inum);
    }
    forall b: nat | b < DISK_NBLOCKS && b != INODESTART ensures BlockOf(WithTree(d, size), b) == BlockOf(d, b) {
      InodesApart(d, ROOT_INO, root, b);
      InodesApart(d1, SUB_INO, sub, b);
      InodesApart(d2, FILE_INO, FileInode(size), b);
    }
  }

  /** The directories have their entries, and the file its content. */
  lemma TreeContents(sub: seq<byte>, name: seq<byte>, c: seq<byte>)
    requires Fits(sub, name, c)
    ensures var d := TreeDisk(sub, name, c);
      && Content(d, NewDinode(T_DIR, DIRENT, ROOT_BLOCK)) == Packed(OneEntry(sub, SUB_INO))
      && Content(d, NewDinode(T_DIR, DIRENT, SUB_BLOCK)) == Packed(OneEntry(name, FILE_INO))
      && FileIs(d, FileInode(|c|), c) && Content(d, FileInode(|c|)) == c
  {
    hide BlockOf, WithBlock, WithTree, Stored, Packed, ZeroPadded, Content, NewDinode, FileInode, Names.Nameable,
      OneEntry, FileIs, Zeros;
    var d := TreeDisk(sub, name, c);
    var roots, subs := ZeroPadded(Packed(OneEntry(sub, SUB_INO))), ZeroPadded(Packed(OneEntry(name, FILE_INO)));
    var d0: Image := Zeros(DISK_NBLOCKS * BSIZE);
    var d1 := WithBlock(d0, ROOT_BLOCK, roots);
    var d2 := WithBlock(d1, SUB_BLOCK, subs);
    TreeInodes(TreeBlocks(sub, name, c), |c|);
    StoredElsewhere(d2, FileBlocks(), c, ROOT_BLOCK);
    StoredElsewhere(d2, FileBlocks(), c, SUB_BLOCK);
    WithBlockReads(d0, ROOT_BLOCK, roots, ROOT_BLOCK);
    WithBlockReads(d1, SUB_BLOCK, subs, ROOT_BLOCK);
    WithBlockReads(d1, SUB_BLOCK, subs, SUB_BLOCK);
    OneBlockFile(d, T_DIR, DIRENT, ROOT_BLOCK);
    OneBlockFile(d, T_DIR, DIRENT, SUB_BLOCK);
    forall k: nat | k * BSIZE < |c|
      ensures BlockOf(d, FileBlocks()[k])[..Min(BSIZE, |c| - k * BSIZE)]
        == c[k * BSIZE..k * BSIZE + Min(BSIZE, |c| - k * BSIZE)] {
      StoredReads(d2, FileBlocks(), c, k);
    }
    StoredIsFile(d, FileBlocks(), c, FileInode(|c|));
  }

  // ---------------------------------------------------------------- reading it

  /** "/sub/name". */
  function TreePath(sub: seq<byte>, name: seq<byte>): seq<byte>
  {
    [SLASH] + sub + [SLASH] + name + [0]
  }

  lemma TreePathComponents(sub: seq<byte>, name: seq<byte>)
    requires Names.Nameable(sub) && Names.Nameable(name)
    ensures 0 in TreePath(sub, name) && Components(KernelPath(TreePath(sub, name))) == [sub, name]
  {
    var path, n := TreePath(sub, name), |sub| + |name| + 2;
    assert path[n] == 0 && path[..n] == [SLASH] + sub + [SLASH] + name;
    TruncIs(path, n);
    assert Slashes(1) == [SLASH] by { assert Slashes(0) == []; }
    assert Join([name], [0]) == name by {
      assert [name][1..] == [] && [0][1..] == [] && Slashes(0) == [];
      assert Join([name][1..], [0][1..]) == [];
    }
    assert Join([sub, name], [1, 0]) == sub + [SLASH] + name by {
      assert [sub, name][1..] == [name] && [1, 0][1..] == [0];
    }
    assert [SLASH] + sub + [SLASH] + name == Slashes(1) + Join([sub, name], [1, 0]);
    ShortComponentsComeBack(1, [sub, name], [1, 0]);
  }

  /** The path leads through the directory to the file. */
  lemma TreeResolves(sub: seq<byte>, name: seq<byte>, c: seq<byte>)
    requires Fits(sub, name, c)
    ensures var d := TreeDisk(sub, name, c);
      && Resolve(d, INODESTART, [sub, name], ROOT_INO) == Some(FILE_INO)
      && Met(d, INODESTART, [sub, name]) == [ROOT_INO, SUB_INO, FILE_INO]
      && ContentSource(d, INODESTART, FILE_INO) == Some(FileInode(|c|))
  {
    hide DinodeOn, Content, Packed, Lookup, FileIs, TreeDisk, FileInode, Names.Nameable;
    var d := TreeDisk(sub, name, c);
    TreeInodesOf(sub, name, c);
    TreeContents(sub, name, c);
    OneLookupIn(d, ROOT_INO, ROOT_BLOCK, sub, SUB_INO);
    OneLookupIn(d, SUB_INO, SUB_BLOCK, name, FILE_INO);
    assert [sub, name][1..] == [name] && [name][1..] == [];
    assert Visited(d, INODESTART, [name], SUB_INO) == [FILE_INO] + Visited(d, INODESTART, [], FILE_INO);
    assert Resolve(d, INODESTART, [name], SUB_INO) == Resolve(d, INODESTART, [], FILE_INO) == Some(FILE_INO);
  }

  lemma TreeInodesOf(sub: seq<byte>, name: seq<byte>, c: seq<byte>)
    requires Fits(sub, name, c)
    ensures var d := TreeDisk(sub, name, c);
      && DinodeOn(d, INODESTART, ROOT_INO) == Some(NewDinode(T_DIR, DIRENT, ROOT_BLOCK))
      && DinodeOn(d, INODESTART, SUB_INO) == Some(NewDinode(T_DIR, DIRENT, SUB_BLOCK))
      && DinodeOn(d, INODESTART, FILE_INO) == Some(FileInode(|c|))
  {
    hide DinodeOn, WithTree, TreeBlocks, BlockOf;
    TreeInodes(TreeBlocks(sub, name, c), |c|);
  }

  lemma OneLookupIn(d: Image, dir: word, block: word, name: seq<byte>, inum: word)
    requires Names.Nameable(name) && 0 < inum < 0x1_0000
    requires DinodeOn(d, INODESTART, dir) == Some(NewDinode(T_DIR, DIRENT, block))
    requires Content(d, NewDinode(T_DIR, DIRENT, block)) == Packed(OneEntry(name, inum))
    ensures Lookup(d, INODESTART, dir, name) == Some(inum)
  {
    hide DinodeOn, Content, Packed, Lookup;
    PackedLookup(d, INODESTART, dir, NewDinode(T_DIR, DIRENT, block), OneEntry(name, inum), name);
  }

  /** An empty cache has room for the three inodes. */
  lemma EmptyCacheReachesThree(d: Image, c: Cache, comps: seq<seq<byte>>)
    requires |c| == NINODE && forall i: nat | i < |c| :: c[i].ref == 0
    requires Resolve(d, INODESTART, comps, ROOT_INO).Some? && Met(d, INODESTART, comps) == [ROOT_INO, SUB_INO, FILE_INO]
    ensures Reachable(d, INODESTART, c, comps) && RootAvailable(c)
  {
    hide Resolve, Met, Live, Free;
    AllFree(c);
    assert [ROOT_INO, SUB_INO, FILE_INO][1..] == [SUB_INO, FILE_INO] && [SUB_INO, FILE_INO][1..] == [FILE_INO];
    assert [FILE_INO][1..] == [];
    assert Admits({} + {ROOT_INO} + {SUB_INO}, 30, [FILE_INO]);
    assert Admits({} + {ROOT_INO}, 31, [SUB_INO, FILE_INO]);
  }

  /** Whatever the two names and the content, up to twelve blocks of it: a program that opens "/sub/name" and reads with
      any positive sizes to the end gets the content, byte for byte. */
  method ReadTree(disk: array<byte>, sub: seq<byte>, name: seq<byte>, c: seq<byte>, sizes: nat -> word)
    returns (r: Option<seq<byte>>)
    requires Fits(sub, name, c) && disk.Length == DISK_NBLOCKS * BSIZE && disk[..] == TreeDisk(sub, name, c)
    requires forall i: nat :: sizes(i) > 0
    ensures r == Some(c)
  {
    hide TreeDisk, Reachable, RootAvailable, Resolve, Content, CacheOk, FdsOk, FilesOk, Components, KernelPath,
      DinodeOn, Met, TreePath, Names.Nameable, FileInode, FileIs;
    TreePathComponents(sub, name);
    TreeResolves(sub, name, c);
    TreeContents(sub, name, c);
    var inodes := new InodeLayer(disk, INODESTART);
    EmptyCacheReachesThree(inodes.D(), inodes.icache[..], [sub, name]);
    var fs := new FileLayer(inodes);
    assert ReadOnly(O_RDONLY);
    r := ReadToEnd(fs, TreePath(sub, name), sizes);
  }
}
