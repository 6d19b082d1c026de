/** kernel/fs_inode.c working in place on the inode cache and
    reading the disk block by block, proved against the disk itself. */
module Inodes {
  import opened Memory
  import opened CString
  import opened Disk
  import opened DiskLayout
  import opened BlockDevice
  import opened Paths
  import opened InodeCache

  predicate AllReadable(ino: Dinode, off: nat, end: nat)
  {
    forall x: nat | off <= x < end :: Readable(ino, x)
  }

  /** A run of bytes within one block of a file is a run of bytes of that block. */
  lemma BlockSlice(d: Image, ino: Dinode, off: nat, m: nat)
    requires off % BSIZE + m <= BSIZE && off + m <= ino.size && 0 < Bmap(ino, off / BSIZE) < DISK_NBLOCKS
    ensures AllReadable(ino, off, off + m)
    ensures Slice(d, ino, off, off + m) == BlockOf(d, Bmap(ino, off / BSIZE))[off % BSIZE..off % BSIZE + m]
  {
    forall x: nat | off <= x < off + m ensures x / BSIZE == off / BSIZE && x % BSIZE == off % BSIZE + (x - off) {
      DivModUnique(x, BSIZE, off / BSIZE, off % BSIZE + (x - off));
    }
    var s, t := Slice(d, ino, off, off + m), BlockOf(d, Bmap(ino, off / BSIZE))[off % BSIZE..off % BSIZE + m];
    forall j | 0 <= j < m ensures s[j] == t[j] {
      assert s[j] == ByteAt(d, ino, off + j);
    }
  }

  /** A byte within the size can be read exactly when its block is there, and has a place in it. */
  lemma PlaceInBlock(ino: Dinode, pos: nat)
    ensures BSIZE == 1024 && pos % BSIZE < BSIZE
    ensures pos < ino.size ==> (Readable(ino, pos) <==> 0 < Bmap(ino, pos / BSIZE) < DISK_NBLOCKS)
  {
  }

  lemma SliceAppend(d: Image, ino: Dinode, off: nat, mid: nat, end: nat)
    requires off <= mid <= end && AllReadable(ino, off, mid) && AllReadable(ino, mid, end)
    ensures AllReadable(ino, off, end)
    ensures Slice(d, ino, off, mid) + Slice(d, ino, mid, end) == Slice(d, ino, off, end)
  {
    var whole := Slice(d, ino, off, end);
    var parts := Slice(d, ino, off, mid) + Slice(d, ino, mid, end);
    forall j | 0 <= j < |whole| ensures parts[j] == whole[j] {
      assert whole[j] == ByteAt(d, ino, off + j);
    }
  }

  /** Bytes read up to the limit, or up to one that cannot be read, are the chunk. */
  lemma ChunkFilled(d: Image, ino: Dinode, off: nat, n: nat, tot: nat)
    requires tot <= n && AllReadable(ino, off, off + tot)
    requires tot == n || !Readable(ino, off + tot)
    ensures Slice(d, ino, off, off + tot) == Chunk(d, ino, off, n)
  {
    if !Readable(ino, off + tot) {
      ExtentIs(ino, off, off + tot);
    }
  }

  lemma PastEndUnreadable(ino: Dinode, x: nat)
    ensures x >= ino.size ==> !Readable(ino, x)
  {
  }

  lemma NothingPastEnd(d: Image, ino: Dinode, off: nat, n: nat)
    requires off > ino.size
    ensures Chunk(d, ino, off, n) == []
  {
  }

  lemma PartIs(d: Image, ino: Dinode, off: nat, n: nat)
    requires AllReadable(ino, off, off + n)
    ensures ReadIs(d, ino, off, n, Slice(d, ino, off, off + n))
  {
    hide Readable, ByteAt, InFile, FileByte;
    var s := Slice(d, ino, off, off + n);
    forall i | off <= i < off + n ensures InFile(ino, i) && s[i - off] == FileByte(d, ino, i) {
      InFileIsReadable(d, ino, i);
      assert s[i - off] == ByteAt(d, ino, off + (i - off));
    }
  }

  /** What is before, in and after the part that was written. */
  lemma SpliceParts(m: Mem, a: nat, s: Mem)
    requires a + |s| <= |m|
    ensures Splice(m, a, s)[..a + |s|] == m[..a] + s && Splice(m, a, s)[a + |s|..] == m[a + |s|..]
    ensures Splice(m, a, s)[a..a + |s|] == s
  {
  }

  class InodeLayer {
    const disk: array<byte>
    const inodestart: word
    const icache: array<Inode>
    ghost var igets: seq<nat>

    ghost predicate OnDisk()
    {
      disk.Length == DISK_NBLOCKS * BSIZE
    }

    ghost function D(): Image
      requires OnDisk()
      reads disk
    {
      disk[..]
    }

    ghost predicate Valid()
      reads this, disk, icache
    {
      OnDisk() && icache.Length == NINODE && CacheOk(icache[..], D(), inodestart, igets)
    }

    /** inode_init, after the last write to the disk. */
    constructor (disk: array<byte>, inodestart: word)
      requires disk.Length == DISK_NBLOCKS * BSIZE
      ensures Valid() && this.disk == disk && this.inodestart == inodestart && fresh(icache)
      ensures Live(icache[..]) == {} && igets == []
      ensures forall i: nat | i < NINODE :: icache[i].ref == 0
    {
      this.disk := disk;
      this.inodestart := inodestart;
      icache := new Inode[NINODE](_ => Inode(0, 0, 0, false, NO_DINODE));
      igets := [];
    }

    /** fs_inode.c iget. */
    method Iget(inum: word) returns (r: Option<nat>)
      requires Valid()
      modifies this`igets, icache
      ensures Valid()
      ensures r == IgetSlot(old(icache[..]), inum)
      ensures icache[..] == AfterIget(old(icache[..]), inum)
      ensures r.Some? ==> r.value < NINODE && icache[r.value].ref > 0 && icache[r.value].inum == inum
      ensures r.Some? ==> igets == old(igets) + [r.value]
      ensures r.None? ==> igets == old(igets)
    {
      ghost var c := icache[..];
      IgetKeepsOk(c, D(), inodestart, igets, inum);
      var empty: Option<nat> := None;
      for i := 0 to NINODE
        invariant icache[..] == c
        invariant FindLive(c, inum, 0) == FindLive(c, inum, i)
        invariant empty == (if FindEmpty(c, 0).Some? && FindEmpty(c, 0).value < i then FindEmpty(c, 0) else None)
        invariant empty.None? ==> FindEmpty(c, 0) == FindEmpty(c, i)
      {
        if icache[i].ref > 0 && icache[i].inum == inum {
          icache[i] := icache[i].(ref := icache[i].ref + 1);
          igets := igets + [i];
          return Some(i);
        }
        if empty.None? && icache[i].ref == 0 {
          empty := Some(i);
        }
      }
      if empty.None? {
        return None;
      }
      icache[empty.value] := Inode(0, inum, 1, false, icache[empty.value].din);
      igets := igets + [empty.value];
      return empty;
    }

    /** The dinode of `inum`, by way of a block buffer. */
    method ReadDinode(inum: word) returns (r: Option<Dinode>)
      requires OnDisk()
      ensures r == DinodeOn(D(), inodestart, inum)
    {
      hide DecodeDinode;
      var buf := new byte[BSIZE];
      var blockno := (inodestart + inum / IPB) % WORD_LIMIT;
      var index := inum % IPB;
      var read := BdevRead(disk, blockno, buf);
      if read != 0 {
        return None;
      }
      DecodeInBlock(D(), buf[..], blockno, index);
      return Some(DecodeDinode(buf[..], index * DINODE));
    }

    /** fs_inode.c ilock. */
    method Ilock(i: nat)
      requires Valid() && i < NINODE && icache[i].ref > 0
      modifies icache
      ensures Valid() && icache[..] == AfterIlock(old(icache[..]), D(), inodestart, i)
    {
      IlockKeepsOk(icache[..], D(), inodestart, igets, i);
      hide CacheOk, DinodeOn;
      if icache[i].valid {
        return;
      }
      var din := ReadDinode(icache[i].inum);
      if din.None? {
        return;
      }
      icache[i] := icache[i].(din := din.value, valid := true);
    }

    /** A dinode decoded from a block copied off the disk is the dinode on the disk. */
    lemma DecodeInBlock(d: Image, b: seq<byte>, blockno: nat, index: nat)
      requires blockno < DISK_NBLOCKS && index < IPB && b == d[blockno * BSIZE..blockno * BSIZE + BSIZE]
      ensures DecodeDinode(b, index * DINODE) == DecodeDinode(d, blockno * BSIZE + index * DINODE)
    {
      var from, a := blockno * BSIZE, index * DINODE;
      assert a + DINODE <= BSIZE;
      SliceOfSlice(d, from, BSIZE, a, DINODE);
      DecodeLocal(b, a);
      DecodeLocal(d, from + a);
    }

    /** One turn of the loop of readi: the part of one block that is wanted, or nothing when the block is
        absent or off the disk. */
    method ReadBlockPart(ino: Dinode, dst: array<byte>, off: nat, tot: nat, n: nat) returns (m: nat)
      requires OnDisk() && dst != disk && tot < n <= dst.Length && off + n <= ino.size
      modifies dst
      ensures m == 0 ==> !Readable(ino, off + tot) && !InFile(ino, off + tot) && dst[..] == old(dst[..])
      ensures m > 0 ==> tot + m <= n && ReadIs(D(), ino, off + tot, m, dst[..][tot..tot + m])
      ensures m > 0 ==>
        && tot + m <= n && AllReadable(ino, off + tot, off + tot + m)
        && dst[..tot + m] == old(dst[..tot]) + Slice(D(), ino, off + tot, off + tot + m)
        && dst[tot + m..] == old(dst[tot + m..])
    {
      hide *;
      var pos := off + tot;
      InFileIsReadable(D(), ino, pos);
      PlaceInBlock(ino, pos);
      var buf := ReadFileBlock(ino, pos);
      if buf.None? {
        return 0;
      }
      var boff := pos % BSIZE;
      m := BSIZE - boff;
      if m > n - tot {
        m := n - tot;
      }
      BlockSlice(D(), ino, pos, m);
      PartIs(D(), ino, pos, m);
      ghost var before := dst[..];
      Memcpy(dst, tot, buf.value[boff..boff + m]);
      SpliceParts(before, tot, buf.value[boff..boff + m]);
    }

    /** bmap and bdev_read: the block that the byte at `pos` is in, or nothing when it is absent or off the disk. */
    method ReadFileBlock(ino: Dinode, pos: nat) returns (r: Option<seq<byte>>)
      requires OnDisk() && pos < ino.size
      ensures r.Some? <==> 0 < Bmap(ino, pos / BSIZE) < DISK_NBLOCKS
      ensures r.Some? ==> r == Some(BlockOf(D(), Bmap(ino, pos / BSIZE)))
    {
      hide BlockOf;
      var bn := pos / BSIZE;
      var bno := if bn < NDIRECT then ino.addrs[bn] else 0;
      if bno == 0 {
        return None;
      }
      var buf := new byte[BSIZE];
      var read := BdevRead(disk, bno, buf);
      if read != 0 {
        return None;
      }
      return Some(buf[..]);
    }

    /** fs_inode.c readi: the bytes of the file from `off` on, as many as asked for and there are. */
    method Readi(i: nat, dst: array<byte>, off: word, n: nat) returns (r: int)
      requires Valid() && i < NINODE && n <= dst.Length && off + n < WORD_LIMIT && dst != disk
      modifies dst
      ensures icache[i].din.kind == 0 ==> r == -1 && dst[..] == old(dst[..])
      ensures icache[i].din.kind != 0 ==>
        && r == |Chunk(D(), icache[i].din, off, n)| <= n
        && dst[..r] == Chunk(D(), icache[i].din, off, n) && ReadIs(D(), icache[i].din, off, n, dst[..r])
        && dst[r..] == old(dst[r..])
    {
      hide CacheOk, Extent, Slice, Readable, Word, ReadIs;
      var ino := icache[i].din;
      if ino.kind == 0 {
        return -1;
      }
      if off > ino.size {
        NothingPastEnd(D(), ino, off, n);
        ChunkIsRead(D(), ino, off, n);
        return 0;
      }
      var n' := if off + n > ino.size then ino.size - off else n;
      var tot := 0;
      while tot < n'
        invariant tot <= n' && off + n' <= ino.size && n' == Min(n, ino.size - off)
        invariant AllReadable(ino, off, off + tot) && dst[..tot] == Slice(D(), ino, off, off + tot)
        invariant dst[tot..] == old(dst[tot..])
        decreases n' - tot
      {
        ghost var tail := dst[tot..];
        var m := ReadBlockPart(ino, dst, off, tot, n');
        if m == 0 {
          break;
        }
        assert dst[tot + m..] == tail[m..];
        SliceAppend(D(), ino, off, off + tot, off + tot + m);
        tot := tot + m;
      }
      PastEndUnreadable(ino, ino.size);
      ChunkFilled(D(), ino, off, n, tot);
      ChunkIsRead(D(), ino, off, n);
      return tot;
    }

    /** The number that fs_inode.c dirlookup looks for: the entry of the first match. */
    ghost function Found(din: Dinode, key: seq<byte>): Option<word>
      requires OnDisk()
      reads disk
    {
      if din.kind != T_DIR then None
      else match Search(D(), din, key, 0)
        case None => None
        case Some(k) => Some(Half(Entry(D(), din, k), 0))
    }

    /** One turn of the loop of dirlookup: entry `k` read at `off`, in full or not, and its inode number if it
        is the entry sought. */
    method ReadEntry(dp: nat, off: nat, ghost k: nat, name: seq<byte>) returns (full: bool, found: Option<word>)
      requires Valid() && dp < NINODE && icache[dp].din.kind != 0 && (DIRSIZ <= |name| || 0 in name)
      requires off == k * DIRENT < icache[dp].din.size && off <= NDIRECT * BSIZE
      ensures full <==> EntryOk(icache[dp].din, k)
      ensures full ==>
        && off + DIRENT <= NDIRECT * BSIZE
        && found == if Matches(D(), icache[dp].din, k, Key(name, DIRSIZ))
          then Some(Half(Entry(D(), icache[dp].din, k), 0)) else None
    {
      hide CacheOk, Extent, Slice, Entry, Trunc, Word, Key;
      var de := new byte[DIRENT];
      var n := Readi(dp, de, off, DIRENT);
      EntryRead(D(), icache[dp].din, k);
      if n != DIRENT {
        return false, None;
      }
      var e := de[..];
      assert e == Entry(D(), icache[dp].din, k);
      var inum := (de[0] as int) + 0x100 * (de[1] as int);
      if inum == 0 {
        return true, None;
      }
      var differs := Strncmp(e[2..], name, DIRSIZ);
      assert Key(e[2..], DIRSIZ) == Trunc(e[2..]) by { KeyOfField(e[2..]); }
      assert Matches(D(), icache[dp].din, k, Key(name, DIRSIZ)) <==> differs == 0;
      return true, if differs == 0 then Some(inum) else None;
    }

    /** fs_inode.c dirlookup; `poff` is the offset of the entry found. */
    method Dirlookup(dp: nat, name: seq<byte>) returns (r: Option<nat>, poff: nat)
      requires Valid() && dp < NINODE && icache[dp].ref > 0 && (DIRSIZ <= |name| || 0 in name)
      modifies this`igets, icache
      ensures Valid()
      ensures match Found(old(icache[dp]).din, Key(name, DIRSIZ))
        case None => r.None? && icache[..] == old(icache[..])
        case Some(inum) => r == IgetSlot(old(icache[..]), inum) && icache[..] == AfterIget(old(icache[..]), inum)
      ensures r.Some? ==>
        && r.value < NINODE && icache[r.value].ref > 0
        && Some(icache[r.value].inum) == Found(old(icache[dp]).din, Key(name, DIRSIZ))
        && Search(D(), old(icache[dp]).din, Key(name, DIRSIZ), 0) == Some(poff / DIRENT) && poff % DIRENT == 0
    {
      hide CacheOk, Entry, AfterIget, IgetSlot, Word, Half, Matches, Key, EntryOk, Grows, Live, Free, DinodeOn;
      var din := icache[dp].din;
      if din.kind != T_DIR {
        return None, 0;
      }
      ghost var key := Key(name, DIRSIZ);
      var off := 0;
      ghost var k := 0;
      while off < din.size
        invariant off == k * DIRENT <= NDIRECT * BSIZE
        invariant icache[..] == old(icache[..]) && igets == old(igets)
        invariant Search(D(), din, key, 0) == Search(D(), din, key, k)
        decreases din.size - off
      {
        var full, inum := ReadEntry(dp, off, k, name);
        if !full {
          return None, 0;
        }
        if inum.Some? {
          r := Iget(inum.value);
          return r, off;
        }
        off := off + DIRENT;
        k := k + 1;
      }
      SearchEnds(D(), din, key, k);
      return None, 0;
    }

    lemma SearchEnds(d: Image, din: Dinode, key: seq<byte>, k: nat)
      requires din.size <= k * DIRENT
      ensures Search(d, din, key, k).None?
    {
    }

    /** A full read at an entry is that entry, and only an entry that cannot be read comes back short. */
    lemma EntryRead(d: Image, din: Dinode, k: nat)
      requires k * DIRENT < din.size
      ensures |Chunk(d, din, k * DIRENT, DIRENT)| == DIRENT <==> EntryOk(din, k)
      ensures EntryOk(din, k) ==>
        Chunk(d, din, k * DIRENT, DIRENT) == Entry(d, din, k) && (k + 1) * DIRENT <= NDIRECT * BSIZE
    {
      ExtentBound(din, k * DIRENT);
    }

    /** One turn of the loop of namei: lock the directory, check it, look the name up. */
    method WalkInto(ip: nat, name: seq<byte>) returns (r: Option<nat>)
      requires Valid() && ip < NINODE && icache[ip].ref > 0 && |name| == DIRSIZ
      modifies this`igets, icache
      ensures Valid() && Grows(old(icache[..]), icache[..])
      ensures match Lookup(D(), inodestart, old(icache[ip]).inum, Trunc(name))
        case None => r.None?
        case Some(inum) =>
          && (r.Some? <==> (inum in Live(old(icache[..])) || Free(old(icache[..])) > 0))
          && (r.Some? ==>
                && r.value < NINODE && icache[r.value].ref > 0 && icache[r.value].inum == inum
                && TookIn(old(icache[..]), inum, icache[..]))
    {
      hide CacheOk, Extent, Slice, Entry, Trunc, Search, Half, Word, Live, Free, DinodeOn, AfterIget, IgetSlot,
        AfterIlock, Grows;
      ghost var c0 := icache[..];
      IlockAgrees(c0, D(), inodestart, igets, ip);
      IlockRoom(c0, D(), inodestart, ip);
      IlockGrows(c0, D(), inodestart, ip);
      Ilock(ip);
      ghost var c1 := icache[..];
      CacheRefs(c1, D(), inodestart, igets);
      assert name[..DIRSIZ] == name;
      ghost var found := Found(c1[ip].din, Trunc(name));
      assert found == Lookup(D(), inodestart, c0[ip].inum, Trunc(name));
      if icache[ip].din.kind != T_DIR {
        return None;
      }
      var next, _ := Dirlookup(ip, name);
      r := next;
      if found.Some? {
        IgetRoom(c1, found.value);
        IgetGrows(c1, found.value);
        GrowsTwice(c0, c1, AfterIget(c1, found.value));
      }
    }

    /** fs_inode.c namei. It finds the inode that resolution on the raw disk finds, and fails exactly when that
        resolution fails or the cache has no room for the inodes it meets. */
    method Namei(path: seq<byte>) returns (r: Option<nat>)
      requires Valid() && 0 in path
      requires RootAvailable(icache[..])
      modifies this`igets, icache
      ensures Valid() && Grows(old(icache[..]), icache[..]) && ROOT_INO in Live(icache[..])
      ensures r.Some? <==> Reachable(D(), inodestart, old(icache[..]), Components(Rest(path, 0)))
      ensures r.Some? ==>
        && r.value < NINODE && icache[r.value].ref > 0
        && Some(icache[r.value].inum) == Resolve(D(), inodestart, Components(Rest(path, 0)), ROOT_INO)
        && TookAll(old(icache[..]), Met(D(), inodestart, Components(Rest(path, 0))), icache[..])
    {
      hide CacheOk, Grows, Trunc, IgetSlot, AfterIget, Lookup, Resolve, Walkable, Reachable, Live, Free, OnTheWay,
        TookAll;
      ghost var c0, comps := icache[..], Components(Rest(path, 0));
      IgetRoom(c0, ROOT_INO);
      CacheRefs(c0, D(), inodestart, igets);
      IgetGrows(c0, ROOT_INO);
      var root := Iget(ROOT_INO);
      ghost var c1 := icache[..];
      assert ROOT_INO in Live(c1);
      WayStart(D(), inodestart, c0, c1, comps);
      ghost var whole := Met(D(), inodestart, comps);
      hide TookIn, RootAvailable, Met;
      WalkStart(D(), inodestart, c0, c1, comps);
      CacheRefs(c1, D(), inodestart, igets);
      var ip: nat := root.value;
      var pos: nat := 0;
      ghost var rest, met := comps, [ROOT_INO];
      var name := new byte[DIRSIZ];
      while true
        invariant Valid() && Grows(c0, icache[..]) && Grows(c1, icache[..])
        invariant ip < NINODE && icache[ip].ref > 0
        invariant pos < |path| && 0 in path[pos..] && rest == Components(Rest(path, pos))
        invariant Resolve(D(), inodestart, comps, ROOT_INO) == Resolve(D(), inodestart, rest, icache[ip].inum)
        invariant Reachable(D(), inodestart, c0, comps)
          <==> Walkable(D(), inodestart, icache[..], rest, icache[ip].inum)
        invariant OnTheWay(D(), inodestart, c0, whole, met, icache[..], rest, icache[ip].inum)
        decreases |path| - pos
      {
        ghost var c := icache[..];
        var p := Skipelem(path, pos, name);
        if p.None? {
          WalkEnd(D(), inodestart, c, c[ip].inum);
          LiveGrows(c1, c);
          WayEnd(D(), inodestart, c0, whole, met, c, c[ip].inum);
          return Some(ip);
        }
        assert rest == [Trunc(name[..])] + Components(Rest(path, p.value));
        pos := p.value;
        var next := WalkInto(ip, name[..]);
        GrowsTwice(c0, c, icache[..]);
        GrowsTwice(c1, c, icache[..]);
        WalkStep(D(), inodestart, c, icache[..], rest, c[ip].inum);
        if next.None? {
          LiveGrows(c1, icache[..]);
          return None;
        }
        WayStep(D(), inodestart, c0, whole, met, c, icache[..], rest, c[ip].inum);
        rest, met := rest[1..], met + [icache[next.value].inum];
        ip := next.value;
      }
    }
  }
}
