/** The layout of the disk written out byte by byte: where an inode lies, which byte of the disk
    a byte of a file is, what a directory entry is, and which chain of directories a path goes
    through. It is stated without the functions of Disk.dfy that follow the code, and every one
    of those is proved to be exactly this. */
module DiskLayout {
  import opened Memory
  import opened CString
  import opened Disk

  // ---------------------------------------------------------------- inodes

  function Word16(d: seq<byte>, a: nat): nat
    requires a + 2 <= |d|
  {
    d[a] as int + 256 * (d[a + 1] as int)
  }

  function Word32(d: seq<byte>, a: nat): nat
    requires a + 4 <= |d|
  {
    d[a] as int + 256 * (d[a + 1] as int) + 65536 * (d[a + 2] as int) + 16777216 * (d[a + 3] as int)
  }

  /** The 64 bytes at `a` are the fields of the inode, in the order of struct dinode. */
  predicate FieldsAt(d: Image, a: nat, r: Dinode)
    requires a + 64 <= |d|
  {
    && r.kind == Word16(d, a) && r.major == Word16(d, a + 2) && r.minor == Word16(d, a + 4)
    && r.nlink == Word16(d, a + 6) && r.size == Word32(d, a + 8)
    && forall k | 0 <= k < 13 :: r.addrs[k] == Word32(d, a + 12 + 4 * k)
  }

  /** The inode table is flat: inode `inum` is the 64 bytes at inum * 64 from the start of the table, if its block is on
      the disk. */
  lemma InodeTableIsFlat(d: Image, inodestart: word, inum: word, r: Dinode)
    requires inodestart + inum / 16 < 0x1_0000_0000
    ensures DinodeOn(d, inodestart, inum) == Some(r) <==>
      inodestart + inum / 16 < 1024 && FieldsAt(d, inodestart * 1024 + inum * 64, r)
  {
    hide DecodeDinode, FieldsAt;
    var b := inodestart + inum / 16;
    TableAddress(inodestart, inum);
    if b < 1024 { FieldsAreDecoded(d, inodestart * 1024 + inum * 64, r); }
  }

  lemma TableAddress(inodestart: word, inum: word)
    ensures inodestart * 1024 + inum * 64 == (inodestart + inum / 16) * 1024 + inum % 16 * 64
    ensures inum % 16 * 64 + 64 <= 1024
  {
  }

  lemma FieldsAreDecoded(d: Image, a: nat, r: Dinode)
    requires a + 64 <= |d|
    ensures FieldsAt(d, a, r) <==> DecodeDinode(d, a) == r
  {
    hide Half, Word, Word16, Word32;
    forall x: nat | x + 4 <= |d| ensures Half(d, x) == Word16(d, x) && Word(d, x) == Word32(d, x) {
      SameWords(d, x);
    }
    var s := DecodeDinode(d, a);
    assert forall k | 0 <= k < 13 :: s.addrs[k] == Word(d, a + 12 + 4 * k);
    if FieldsAt(d, a, r) { assert s.addrs == r.addrs; }
  }

  lemma SameWords(d: seq<byte>, a: nat)
    requires a + 4 <= |d|
    ensures Half(d, a) == Word16(d, a) && Word(d, a) == Word32(d, a)
  {
  }

  // ---------------------------------------------------------------- files

  /** Byte `i` of a file exists: it is within the size, and in one of the twelve direct blocks, which is on the disk. */
  predicate InFile(ino: Dinode, i: nat)
  {
    i < ino.size && i / 1024 < 12 && 0 < ino.addrs[i / 1024] < 1024
  }

  /** It is byte i % 1024 of block number i / 1024 of the file. */
  function FileByte(d: Image, ino: Dinode, i: nat): byte
    requires InFile(ino, i)
  {
    d[ino.addrs[i / 1024] * 1024 + i % 1024]
  }

  /** `s` is what a read of `n` bytes from `off` on must give: the bytes there are, up to the first that there is
      not. */
  ghost predicate ReadIs(d: Image, ino: Dinode, off: nat, n: nat, s: seq<byte>)
  {
    && |s| <= n
    && (forall i | off <= i < off + |s| :: InFile(ino, i) && s[i - off] == FileByte(d, ino, i))
    && (|s| < n ==> !InFile(ino, off + |s|))
  }

  /** `c` is the file from its first byte to the first that there is not. */
  ghost predicate FileIs(d: Image, ino: Dinode, c: seq<byte>)
  {
    && (forall i | 0 <= i < |c| :: InFile(ino, i) && c[i] == FileByte(d, ino, i))
    && !InFile(ino, |c|)
  }

  lemma InFileIsReadable(d: Image, ino: Dinode, i: nat)
    ensures InFile(ino, i) <==> Readable(ino, i)
    ensures InFile(ino, i) ==> FileByte(d, ino, i) == ByteAt(d, ino, i)
  {
  }

  lemma ReadIsUnique(d: Image, ino: Dinode, off: nat, n: nat, s: seq<byte>, t: seq<byte>)
    requires ReadIs(d, ino, off, n, s) && ReadIs(d, ino, off, n, t)
    ensures s == t
  {
    hide InFile, FileByte;
    assert |s| == |t|;
    forall j | 0 <= j < |s| ensures s[j] == t[j] {
      assert InFile(ino, off + j) && s[off + j - off] == FileByte(d, ino, off + j) == t[off + j - off];
    }
  }

  lemma ChunkIsRead(d: Image, ino: Dinode, off: nat, n: nat)
    ensures ReadIs(d, ino, off, n, Chunk(d, ino, off, n))
  {
    hide Readable, ByteAt, InFile, FileByte;
    var c, e := Chunk(d, ino, off, n), Extent(ino, off);
    InFileIsReadable(d, ino, e);
    forall i | off <= i < off + |c| ensures InFile(ino, i) && c[i - off] == FileByte(d, ino, i) {
      InFileIsReadable(d, ino, i);
      assert c[i - off] == ByteAt(d, ino, off + (i - off));
    }
  }

  lemma ReadIsChunk(d: Image, ino: Dinode, off: nat, n: nat, s: seq<byte>)
    ensures ReadIs(d, ino, off, n, s) <==> s == Chunk(d, ino, off, n)
  {
    hide Chunk, ReadIs;
    ChunkIsRead(d, ino, off, n);
    if ReadIs(d, ino, off, n, s) { ReadIsUnique(d, ino, off, n, s, Chunk(d, ino, off, n)); }
  }

  lemma FileIsContent(d: Image, ino: Dinode, c: seq<byte>)
    ensures FileIs(d, ino, c) <==> c == Content(d, ino)
  {
    hide InFile, FileByte, Readable, Extent, ReadIs;
    var n := |c| + Extent(ino, 0) + 1;
    ReadIsChunk(d, ino, 0, n, c);
    FileIsRead(d, ino, c, n);
    ContentIsChunk(d, ino, n);
  }

  lemma FileIsRead(d: Image, ino: Dinode, c: seq<byte>, n: nat)
    requires |c| < n
    ensures FileIs(d, ino, c) <==> ReadIs(d, ino, 0, n, c)
  {
    hide InFile, FileByte;
  }

  lemma ContentIsChunk(d: Image, ino: Dinode, n: nat)
    requires n >= Extent(ino, 0)
    ensures Content(d, ino) == Chunk(d, ino, 0, n)
  {
  }

  /** Block `k` of `c` lies at the start of block `a` of the disk. */
  predicate BlockAt(d: Image, a: word, c: seq<byte>, k: nat)
    requires k * 1024 < |c|
  {
    var m := Min(1024, |c| - k * 1024);
    0 < a < 1024 && d[a * 1024..a * 1024 + m] == c[k * 1024..k * 1024 + m]
  }

  /** A file whose blocks hold `c`, in the order of its address array, is `c`. */
  lemma BlocksAreFile(d: Image, ino: Dinode, c: seq<byte>)
    requires |c| <= 12 * 1024 && ino.size == |c|
    requires forall k: nat | k * 1024 < |c| :: BlockAt(d, ino.addrs[k], c, k)
    ensures FileIs(d, ino, c) && Content(d, ino) == c
  {
    forall i: nat | i < |c| ensures InFile(ino, i) && c[i] == FileByte(d, ino, i) {
      ByteOfBlock(d, ino, c, i);
    }
    FileIsContent(d, ino, c);
  }

  lemma ByteOfBlock(d: Image, ino: Dinode, c: seq<byte>, i: nat)
    requires i < |c| <= 12 * 1024 && ino.size == |c|
    requires forall k: nat | k * 1024 < |c| :: BlockAt(d, ino.addrs[k], c, k)
    ensures InFile(ino, i) && c[i] == FileByte(d, ino, i)
  {
    var k, r := i / 1024, i % 1024;
    assert i == k * 1024 + r && k * 1024 < |c|;
    assert BlockAt(d, ino.addrs[k], c, k);
    var m, a := Min(1024, |c| - k * 1024), ino.addrs[k];
    assert d[a * 1024..a * 1024 + m][r] == c[k * 1024..k * 1024 + m][r];
  }

  // ---------------------------------------------------------------- directories

  /** The fourteen bytes at `a` hold `name`, up to a zero. */
  predicate NameAt(c: seq<byte>, a: nat, name: seq<byte>)
  {
    && |name| <= 14 && 0 !in name && a + 14 <= |c|
    && c[a..a + |name|] == name && (|name| < 14 ==> c[a + |name|] == 0)
  }

  /** Entry `k` of a directory, sixteen bytes, is in use and gives `name` the inode `inum`. */
  predicate EntryIs(c: seq<byte>, k: nat, name: seq<byte>, inum: nat)
  {
    && 16 * k + 16 <= |c| && inum != 0 && inum == Word16(c, 16 * k)
    && NameAt(c, 16 * k + 2, name)
  }

  /** It is the first that does so. */
  ghost predicate FirstEntryIs(c: seq<byte>, k: nat, name: seq<byte>, inum: nat)
  {
    EntryIs(c, k, name, inum) && forall j: nat, x: nat | j < k :: !EntryIs(c, j, name, x)
  }

  /** Directory `dir` has an entry for `name`, and the first one is for inode `inum`. */
  ghost predicate Gives(d: Image, inodestart: word, dir: word, name: seq<byte>, inum: nat)
  {
    && DinodeOn(d, inodestart, dir).Some? && DinodeOn(d, inodestart, dir).value.kind == 1
    && exists c: seq<byte>, k: nat ::
         FileIs(d, DinodeOn(d, inodestart, dir).value, c) && FirstEntryIs(c, k, name, inum)
  }

  lemma NameAtIsTrunc(c: seq<byte>, a: nat, name: seq<byte>)
    requires a + 14 <= |c|
    ensures NameAt(c, a, name) <==> Trunc(c[a..a + 14]) == name
  {
    var s := c[a..a + 14];
    if NameAt(c, a, name) {
      assert s[..|name|] == name;
      TruncIs(s, |name|);
    }
    if Trunc(s) == name {
      assert c[a..a + |name|] == s[..|name|];
    }
  }

  /** An entry within the content of a directory is read in full. */
  lemma EntryInContent(d: Image, ino: Dinode, k: nat)
    requires k * DIRENT + DIRENT <= |Content(d, ino)|
    ensures EntryOk(ino, k) && Entry(d, ino, k) == Content(d, ino)[k * DIRENT..k * DIRENT + DIRENT]
  {
    var e := Extent(ino, 0);
    ExtentIs(ino, k * DIRENT, e);
    var s, t := Entry(d, ino, k), Content(d, ino)[k * DIRENT..k * DIRENT + DIRENT];
    forall j | 0 <= j < DIRENT ensures s[j] == t[j] {
      assert s[j] == ByteAt(d, ino, k * DIRENT + j);
    }
  }

  lemma EntryIsMatch(d: Image, ino: Dinode, k: nat, name: seq<byte>, inum: nat)
    requires 16 * k + 16 <= |Content(d, ino)|
    ensures EntryOk(ino, k) && Half(Entry(d, ino, k), 0) == Word16(Content(d, ino), 16 * k)
    ensures EntryIs(Content(d, ino), k, name, inum) <==>
      Matches(d, ino, k, name) && Half(Entry(d, ino, k), 0) == inum
  {
    hide Content, Trunc, Extent, EntryOk, Entry;
    var c := Content(d, ino);
    EntryInContent(d, ino, k);
    assert k * DIRENT == 16 * k;
    assert Entry(d, ino, k) == c[16 * k..16 * k + 16];
    assert c[16 * k..16 * k + 16][2..] == c[16 * k + 2..16 * k + 2 + 14];
    NameAtIsTrunc(c, 16 * k + 2, name);
  }

  /** Entries that can be read one after another lie within the content. */
  lemma EntriesInContent(d: Image, ino: Dinode, k: nat)
    requires forall j: nat | j <= k :: EntryOk(ino, j)
    ensures 16 * k + 16 <= |Content(d, ino)|
  {
    var e := |Content(d, ino)|;
    var j := Min(e / 16, k);
    assert EntryOk(ino, j) && !Readable(ino, e);
    assert forall i: nat | j * DIRENT <= i < j * DIRENT + DIRENT :: Readable(ino, i);
  }

  /** Directory search finds exactly the first entry. */
  lemma SearchIff(d: Image, ino: Dinode, name: seq<byte>, inum: nat)
    ensures (exists k: nat :: FirstEntryIs(Content(d, ino), k, name, inum)) <==>
      Search(d, ino, name, 0).Some? && Half(Entry(d, ino, Search(d, ino, name, 0).value), 0) == inum
  {
    hide Content, Search, Matches, Entry, Half, EntryIs, EntryOk;
    var c := Content(d, ino);
    SearchFindsFirst(d, ino, name, 0);
    if Search(d, ino, name, 0).Some? {
      var m := Search(d, ino, name, 0).value;
      FirstMatchIs(d, ino, name, m);
      if exists k: nat :: FirstEntryIs(c, k, name, inum) {
        var k: nat :| FirstEntryIs(c, k, name, inum);
        FirstEntryUnique(c, name, k, inum, m, Half(Entry(d, ino, m), 0));
      }
    } else if exists k: nat :: FirstEntryIs(c, k, name, inum) {
      var k: nat :| FirstEntryIs(c, k, name, inum);
      FirstEntryMatches(d, ino, name, inum, k);
      assert false;
    }
  }

  lemma FirstEntryUnique(c: seq<byte>, name: seq<byte>, k: nat, inum: nat, m: nat, inum': nat)
    requires FirstEntryIs(c, k, name, inum) && FirstEntryIs(c, m, name, inum')
    ensures k == m && inum == inum'
  {
    hide NameAt;
  }

  lemma FirstMatchIs(d: Image, ino: Dinode, name: seq<byte>, m: nat)
    requires FirstMatch(d, ino, name, m)
    ensures FirstEntryIs(Content(d, ino), m, name, Half(Entry(d, ino, m), 0))
  {
    hide Content, Matches, Entry, Half, EntryIs, EntryOk;
    EntriesInContent(d, ino, m);
    EntryIsMatch(d, ino, m, name, Half(Entry(d, ino, m), 0));
    forall j: nat, x: nat | j < m ensures !EntryIs(Content(d, ino), j, name, x) {
      EntryIsMatch(d, ino, j, name, x);
    }
  }

  lemma FirstEntryMatches(d: Image, ino: Dinode, name: seq<byte>, inum: nat, k: nat)
    requires FirstEntryIs(Content(d, ino), k, name, inum)
    ensures FirstMatch(d, ino, name, k)
  {
    hide Content, Matches, Entry, Half, EntryOk;
    var c := Content(d, ino);
    forall j: nat | j <= k ensures EntryOk(ino, j) {
      EntryIsMatch(d, ino, j, name, 0);
    }
    EntryIsMatch(d, ino, k, name, inum);
    forall j: nat | j < k ensures !Matches(d, ino, j, name) {
      EntryIsMatch(d, ino, j, name, Half(Entry(d, ino, j), 0));
    }
  }

  lemma LookupGives(d: Image, inodestart: word, dir: word, name: seq<byte>, inum: nat)
    ensures Gives(d, inodestart, dir, name, inum) <==>
      Lookup(d, inodestart, dir, name).Some? && Lookup(d, inodestart, dir, name).value == inum
  {
    hide Content, Search, Entry, Half, FirstEntryIs, DinodeOn, FileIs;
    if DinodeOn(d, inodestart, dir).Some? {
      var ino := DinodeOn(d, inodestart, dir).value;
      SearchIff(d, ino, name, inum);
      FileIsContent(d, ino, Content(d, ino));
      forall c: seq<byte> ensures FileIs(d, ino, c) <==> c == Content(d, ino) {
        FileIsContent(d, ino, c);
      }
    }
  }

  // ---------------------------------------------------------------- paths

  /** `v` goes through directories by the components, one entry after another. */
  ghost predicate Chain(d: Image, inodestart: word, comps: seq<seq<byte>>, v: seq<word>)
  {
    |v| == |comps| + 1 && forall k: nat | k < |comps| :: Gives(d, inodestart, v[k], comps[k], v[k + 1])
  }

  /** Resolution finds an inode exactly when a chain of directories leads to it. */
  lemma {:induction false} ResolveIff(d: Image, inodestart: word, comps: seq<seq<byte>>, from: word, to: word)
    ensures Resolve(d, inodestart, comps, from) == Some(to) <==>
      exists v: seq<word> :: Chain(d, inodestart, comps, v) && v[0] == from && v[|comps|] == to
    decreases |comps|
  {
    hide Gives, Lookup;
    if comps == [] {
      assert Chain(d, inodestart, comps, [from]);
    } else {
      forall inum: nat
        ensures Gives(d, inodestart, from, comps[0], inum) <==>
          Lookup(d, inodestart, from, comps[0]).Some? && Lookup(d, inodestart, from, comps[0]).value == inum
      {
        LookupGives(d, inodestart, from, comps[0], inum);
      }
      if Lookup(d, inodestart, from, comps[0]).Some? {
        var next := Lookup(d, inodestart, from, comps[0]).value;
        ResolveIff(d, inodestart, comps[1..], next, to);
        if Resolve(d, inodestart, comps, from) == Some(to) {
          var w: seq<word> :| Chain(d, inodestart, comps[1..], w) && w[0] == next && w[|comps[1..]|] == to;
          ChainMore(d, inodestart, comps, from, w);
        }
      }
      if v: seq<word> :| Chain(d, inodestart, comps, v) && v[0] == from && v[|comps|] == to {
        assert Gives(d, inodestart, v[0], comps[0], v[1]);
        ChainRest(d, inodestart, comps, v);
        assert v[1..][|comps[1..]|] == to;
      }
    }
  }

  lemma ChainMore(d: Image, inodestart: word, comps: seq<seq<byte>>, from: word, w: seq<word>)
    requires comps != [] && Chain(d, inodestart, comps[1..], w) && Gives(d, inodestart, from, comps[0], w[0])
    ensures Chain(d, inodestart, comps, [from] + w)
  {
    hide Gives;
    var v := [from] + w;
    forall k: nat | k < |comps| ensures Gives(d, inodestart, v[k], comps[k], v[k + 1]) {
      if k > 0 { assert Gives(d, inodestart, w[k - 1], comps[1..][k - 1], w[k]); }
    }
  }

  lemma ChainRest(d: Image, inodestart: word, comps: seq<seq<byte>>, v: seq<word>)
    requires comps != [] && Chain(d, inodestart, comps, v)
    ensures Chain(d, inodestart, comps[1..], v[1..])
  {
    hide Gives;
    forall k: nat | k < |comps[1..]| ensures Gives(d, inodestart, v[1..][k], comps[1..][k], v[1..][k + 1]) {
      assert Gives(d, inodestart, v[k + 1], comps[k + 1], v[k + 2]);
    }
  }

  lemma NoLookup(d: Image, inodestart: word, inum: word, name: seq<byte>)
    requires DinodeOn(d, inodestart, inum).None? || DinodeOn(d, inodestart, inum).value.kind != 1
    ensures Lookup(d, inodestart, inum, name).None?
  {
    hide DinodeOn, Search, Entry, Half;
  }

  /** A path cannot go on through an inode that is no directory, or that is not on the disk. */
  lemma {:induction false} NotThroughFiles(d: Image, inodestart: word, comps: seq<seq<byte>>, k: nat, from: word,
                                           inum: word)
    requires k < |comps| && Resolve(d, inodestart, comps[..k], from) == Some(inum)
    requires DinodeOn(d, inodestart, inum).None? || DinodeOn(d, inodestart, inum).value.kind != 1
    ensures Resolve(d, inodestart, comps, from).None?
    decreases k
  {
    hide DinodeOn, Lookup;
    if k == 0 {
      NoLookup(d, inodestart, from, comps[0]);
    } else {
      var next := Lookup(d, inodestart, from, comps[0]).value;
      assert comps[..k][0] == comps[0] && comps[..k][1..] == comps[1..][..k - 1];
      NotThroughFiles(d, inodestart, comps[1..], k - 1, next, inum);
    }
  }
}
