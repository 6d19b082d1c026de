/** From an empty disk to a file read by a user program: the builder, the inode cache, the
    file layer and a reading program one after another. It shows that what the other modules
    require can be met. */
module Boot {
  import opened Memory
  import opened CString
  import opened Disk
  import opened DiskLayout
  import opened Paths
  import opened InodeCache
  import opened Inodes
  import opened FileTables
  import opened Files
  import opened Sessions
  import opened TestFs

  /** "/name", as a user program passes it. */
  function RootPath(name: seq<byte>): seq<byte>
  {
    [SLASH] + name + [0]
  }

  lemma RootPathComponents(name: seq<byte>)
    requires 0 < |name| < DIRSIZ && SLASH !in name && 0 !in name
    ensures 0 in RootPath(name) && Components(KernelPath(RootPath(name))) == [name]
  {
    var path := RootPath(name);
    assert path[|name| + 1] == 0;
    assert path[..|name| + 1] == [SLASH] + name;
    TruncIs(path, |name| + 1);
    assert [SLASH] + name == Slashes(1) + Join([name], [0]) by {
      assert Join([name][1..], [0][1..]) == [];
      assert Slashes(1) == [SLASH] + Slashes(0);
    }
    ShortComponentsComeBack(1, [name], [0]);
  }

  /** A path of one component that the root directory has. */
  lemma OneLookup(d: Image, inodestart: word, name: seq<byte>)
    ensures Lookup(d, inodestart, ROOT_INO, name).Some? ==>
      var inum := Lookup(d, inodestart, ROOT_INO, name).value;
      Resolve(d, inodestart, [name], ROOT_INO) == Some(inum) && Met(d, inodestart, [name]) == [ROOT_INO, inum]
  {
    hide Lookup;
    assert [name][1..] == [];
    if Lookup(d, inodestart, ROOT_INO, name).Some? {
      var inum := Lookup(d, inodestart, ROOT_INO, name).value;
      assert Visited(d, inodestart, [name], ROOT_INO) == [inum] + Visited(d, inodestart, [], inum);
    }
  }

  const HELLO_PATH: seq<byte> := RootPath(HELLO_NAME)

  lemma HelloResolves(d: Image)
    requires TestLayout(d)
    ensures Resolve(d, INODESTART, [HELLO_NAME], ROOT_INO) == Some(HELLO_INO)
    ensures Met(d, INODESTART, [HELLO_NAME]) == [ROOT_INO, HELLO_INO]
    ensures DinodeOn(d, INODESTART, HELLO_INO).Some? && DinodeOn(d, INODESTART, HELLO_INO).value.kind == T_FILE
    ensures ContentSource(d, INODESTART, HELLO_INO) == Some(HELLO_DINODE) && Content(d, HELLO_DINODE) == MESSAGE
  {
    hide DinodeOn, Content, Packed, Lookup, Ascii, WordsBytes;
    assert |ROOT_ENTRIES[0].name| == 1 && |ROOT_ENTRIES[1].name| == 2 && |HELLO_NAME| == 5;
    assert FirstNamed(ROOT_ENTRIES, HELLO_NAME, 2) == Some(2);
    assert FirstNamed(ROOT_ENTRIES, HELLO_NAME, 1) == Some(2);
    PackedLookup(d, INODESTART, ROOT_INO, ROOT_DINODE, ROOT_ENTRIES, HELLO_NAME);
    assert Lookup(d, INODESTART, ROOT_INO, HELLO_NAME) == Some(HELLO_INO);
    OneLookup(d, INODESTART, HELLO_NAME);
  }

  /** An empty cache has room for a walk to a single inode. */
  lemma EmptyCacheReaches(d: Image, c: Cache, comps: seq<seq<byte>>, inum: word)
    requires |c| == NINODE && forall i: nat | i < |c| :: c[i].ref == 0
    requires Resolve(d, INODESTART, comps, ROOT_INO).Some? && Met(d, INODESTART, comps) == [ROOT_INO, inum]
    ensures Reachable(d, INODESTART, c, comps) && RootAvailable(c)
  {
    hide Resolve, Met, Live, Free;
    AllFree(c);
    assert [ROOT_INO, inum][1..] == [inum];
    assert [inum][1..] == [];
    assert Admits({} + {ROOT_INO}, 31, [inum]);
  }

  /** "/hello/x": a path that goes on through the file. */
  const BELOW_HELLO: seq<byte> := [SLASH] + HELLO_NAME + [SLASH, 'x' as int, 0]

  lemma BelowHelloComponents()
    ensures 0 in BELOW_HELLO && Components(KernelPath(BELOW_HELLO)) == [HELLO_NAME, ['x' as int]]
  {
    var x: seq<byte> := ['x' as int];
    assert BELOW_HELLO[8] == 0;
    TruncIs(BELOW_HELLO, 8);
    assert BELOW_HELLO[..8] == Slashes(1) + Join([HELLO_NAME, x], [1, 0]) by {
      assert Slashes(0) == [] && Slashes(1) == [SLASH];
      assert [HELLO_NAME, x][1..] == [x] && [1, 0][1..] == [0] && [x][1..] == [] && [0][1..] == [];
      assert Join([x][1..], [0][1..]) == [] && Join([x], [0]) == x;
    }
    ShortComponentsComeBack(1, [HELLO_NAME, x], [1, 0]);
  }

  lemma BelowFile(d: Image, name: seq<byte>, below: seq<byte>, inum: word)
    requires Resolve(d, INODESTART, [name], ROOT_INO) == Some(inum)
    requires DinodeOn(d, INODESTART, inum).Some? && DinodeOn(d, INODESTART, inum).value.kind == T_FILE
    ensures Resolve(d, INODESTART, [name, below], ROOT_INO).None?
  {
    hide DinodeOn, Resolve;
    assert [name, below][..1] == [name];
    NotThroughFiles(d, INODESTART, [name, below], 1, ROOT_INO, inum);
  }

  /** After boot the first program that reads "/hello", with reads of any positive sizes, gets the message, and opening
      "/hello/x" fails. */
  method BootAndRead(sizes: nat -> word) returns (r: Option<seq<byte>>, below: int)
    requires forall i: nat :: sizes(i) > 0
    ensures r == Some(MESSAGE) && below == -1
  {
    hide TestLayout, TestImage, Ascii, Reachable, RootAvailable, Resolve, Content, CacheOk, FdsOk, FilesOk;
    hide Components, KernelPath, DinodeOn, Met, Word, RootPath;
    var disk := new byte[DISK_NBLOCKS * BSIZE];
    var _ := BuildTestFs(disk);
    TestImageLayout();
    var sb := LoadSuper(disk);
    LoadedSuper(disk[..], 5);
    var inodes := new InodeLayer(disk, sb[5]);
    assert |HELLO_NAME| == 5;
    RootPathComponents(HELLO_NAME);
    HelloResolves(inodes.D());
    EmptyCacheReaches(inodes.D(), inodes.icache[..], [HELLO_NAME], HELLO_INO);
    var fs := new FileLayer(inodes);
    assert ReadOnly(O_RDONLY);
    r := ReadToEnd(fs, HELLO_PATH, sizes);
    BelowHelloComponents();
    BelowFile(inodes.D(), HELLO_NAME, ['x' as int], HELLO_INO);
    below := fs.SysOpen(BELOW_HELLO, O_RDONLY);
  }
}
