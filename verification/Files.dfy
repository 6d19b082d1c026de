/** kernel/fs_file.c and kernel/syscall_fs.c working in place on the file table, the
    descriptor tables and the inode cache. */
module Files {
  import opened Memory
  import opened CString
  import opened Disk
  import opened Paths
  import opened InodeCache
  import opened Inodes
  import opened FileTables

  const PATH_MAX: nat := 128
  const KBUF: nat := 512
  const O_WRONLY: nat := 1
  const O_RDWR: nat := 2

  /** The path that the kernel sees: what of the user's string fits its buffer. */
  function KernelPath(upath: seq<byte>): seq<byte>
  {
    var t := Trunc(upath);
    if |t| > PATH_MAX - 1 then t[..PATH_MAX - 1] else t
  }

  /** That is the string up to its zero, and of that the first 127 bytes. */
  lemma KernelPathIs(upath: seq<byte>)
    ensures var k := KernelPath(upath);
      && |k| <= 127 && |k| <= |upath| && k == upath[..|k|] && 0 !in k
      && (|k| < 127 && |k| < |upath| ==> upath[|k|] == 0)
  {
  }

  /** Neither write flag is set. */
  predicate ReadOnly(omode: word)
  {
    BitAnd(omode, BitOr(O_WRONLY, O_RDWR)) == 0
  }

  /** Exactly when the mode has neither bit 0 nor bit 1. */
  lemma ReadOnlyIff(omode: word)
    ensures ReadOnly(omode) <==> omode % 2 == 0 && omode / 2 % 2 == 0
  {
    assert BitOr(1, 2) == 3 && Pow2(2) == 4;
    AndOnes(omode, 2);
  }

  /** The dinode that reads of inode `inum` go to: on the disk and of some type. */
  function ContentSource(d: Image, inodestart: word, inum: word): Option<Dinode>
  {
    match DinodeOn(d, inodestart, inum)
    case None => None
    case Some(din) => if din.kind == 0 then None else Some(din)
  }

  /** What opening inode slot `ip` does: the first free file reads it from the start, held by the first free
      descriptor. */
  ghost predicate OpenedInto(files: seq<File>, fds: Fds, files': seq<File>, fds': Fds, p: nat, fd: int)
  {
    && FreeFile(files, 0).Some? && |files'| == |files| && p < |fds|
    && fd >= 0 && FreeFd(fds[p], 0) == Some(fd)
    && var f := FreeFile(files, 0).value;
      && fds' == WithFd(fds, p, fd, Some(f))
      && files'[f].ip.Some? && files'[f].ip.value < NINODE
      && files' == files[f := Opened(files'[f].ip.value)]
  }

  /** A read of `n` bytes from `off` delivers no more than asked for, and only ones that a direct block holds. */
  lemma DeliveredFits(d: Image, inodestart: word, inum: word, off: nat, n: nat)
    ensures ContentSource(d, inodestart, inum).Some? ==>
      var c := Chunk(d, ContentSource(d, inodestart, inum).value, off, n);
      |c| <= n && (|c| > 0 ==> off + |c| <= NDIRECT * BSIZE)
  {
    if ContentSource(d, inodestart, inum).Some? {
      ExtentBound(ContentSource(d, inodestart, inum).value, off);
    }
  }

  lemma RootKeptByGrowth(c: Cache, c': Cache)
    requires RootAvailable(c) && Grows(c, c') && Free(c') == Free(c)
    ensures RootAvailable(c')
  {
    LiveGrows(c, c');
  }

  lemma RootKept(c: Cache)
    requires ROOT_INO in Live(c)
    ensures RootAvailable(c)
  {
  }

  class FileLayer {
    const inodes: InodeLayer
    const files: array<File>
    const fds: array<seq<Option<nat>>>
    var current: nat

    ghost predicate Valid()
      reads this, inodes, inodes.disk, inodes.icache, files, fds
    {
      && inodes.Valid() && current < NPROC && RootAvailable(inodes.icache[..])
      && FdsOk(files[..], fds[..]) && FilesOk(files[..], inodes.icache[..])
    }

    /** file_init and proc_init. */
    constructor (inodes: InodeLayer)
      requires inodes.Valid() && RootAvailable(inodes.icache[..])
      ensures Valid() && this.inodes == inodes && fresh(files) && fresh(fds)
      ensures files.Length == NFILE && forall f: nat | f < NFILE :: files[f].ref == 0
      ensures fds.Length == NPROC && forall p: nat | p < NPROC :: FreeFd(fds[p], 0) == Some(0)
    {
      this.inodes := inodes;
      files := new File[NFILE](_ => CLEARED);
      fds := new seq<Option<nat>>[NPROC](_ => [None, None, None, None, None, None, None, None,
                                               None, None, None, None, None, None, None, None]);
      current := 0;
      new;
      hide CacheOk, FdsOk, FilesOk, RootAvailable;
      AllClosed(files[..], fds[..], inodes.icache[..]);
    }

    /** The inode that a file reads. */
    ghost function InumOf(f: nat): word
      requires f < files.Length && files[f].ip.Some? && files[f].ip.value < inodes.icache.Length
      reads files, inodes.icache
    {
      inodes.icache[files[f].ip.value].inum
    }

    /** The bytes that a read of `n` bytes from file `f` delivers, by the disk alone; none when it fails. */
    ghost function Delivered(f: nat, n: nat): Option<seq<byte>>
      requires inodes.OnDisk() && f < files.Length && files[f].ip.Some? && files[f].ip.value < inodes.icache.Length
      reads files, inodes.icache, inodes.disk
    {
      match ContentSource(inodes.D(), inodes.inodestart, InumOf(f))
      case None => None
      case Some(din) => Some(Chunk(inodes.D(), din, files[f].off, n))
    }

    /** Everything that opening a path needs. */
    ghost predicate CanOpen(kpath: seq<byte>, omode: word)
      requires inodes.OnDisk() && current < fds.Length
      reads this, inodes.icache, inodes.disk, files, fds
    {
      && Reachable(inodes.D(), inodes.inodestart, inodes.icache[..], Components(kpath))
      && ReadOnly(omode) && FreeFile(files[..], 0).Some? && FreeFd(fds[current], 0).Some?
    }

    // ------------------------------------------------------------ fs_file.c

    /** fs_file.c file_alloc. */
    method FileAlloc() returns (r: Option<nat>)
      requires files.Length == NFILE
      modifies files
      ensures r == FreeFile(old(files[..]), 0)
      ensures r.None? ==> files[..] == old(files[..])
      ensures r.Some? ==> files[..] == old(files[..])[r.value := old(files[r.value]).(ref := 1, kind := FD_NONE)]
    {
      for i := 0 to NFILE
        invariant files[..] == old(files[..]) && FreeFile(files[..], 0) == FreeFile(files[..], i)
      {
        if files[i].ref == 0 {
          files[i] := files[i].(ref := 1, kind := FD_NONE);
          return Some(i);
        }
      }
      return None;
    }

    /** fs_file.c file_close: the last reference clears the slot. */
    method FileClose(f: nat)
      requires f < files.Length
      modifies files
      ensures old(files[f]).ref == 0 ==> files[..] == old(files[..])
      ensures old(files[f]).ref == 1 ==> files[..] == old(files[..])[f := CLEARED]
      ensures old(files[f]).ref > 1 ==> files[..] == old(files[..])[f := old(files[f]).(ref := old(files[f]).ref - 1)]
    {
      if files[f].ref < 1 {
        return;
      }
      files[f] := files[f].(ref := files[f].ref - 1);
      if files[f].ref > 0 {
        return;
      }
      files[f] := files[f].(kind := FD_NONE, ip := None, readable := false, writable := false, off := 0);
    }

    /** fs_file.c file_open. */
    method FileOpen(path: seq<byte>, omode: word) returns (r: Option<nat>)
      requires inodes.Valid() && files.Length == NFILE && 0 in path
      requires RootAvailable(inodes.icache[..])
      modifies inodes`igets, inodes.icache, files
      ensures inodes.Valid() && Grows(old(inodes.icache[..]), inodes.icache[..])
      ensures ROOT_INO in Live(inodes.icache[..])
      ensures r.Some? <==>
        && Reachable(inodes.D(), inodes.inodestart, old(inodes.icache[..]), Components(Rest(path, 0)))
        && ReadOnly(omode) && FreeFile(old(files[..]), 0).Some?
      ensures omode % 2 == 1 || omode / 2 % 2 == 1 ==> r.None?
      ensures r.None? ==> files[..] == old(files[..])
      ensures r.Some? ==>
        && r == FreeFile(old(files[..]), 0)
        && files[r.value].ip.Some? && files[r.value].ip.value < NINODE
        && files[..] == old(files[..])[r.value := Opened(files[r.value].ip.value)]
        && files[r.value].readable && !files[r.value].writable && files[r.value].off == 0 && files[r.value].ref == 1
        && inodes.icache[files[r.value].ip.value].ref > 0
        && Some(InumOf(r.value)) == Resolve(inodes.D(), inodes.inodestart, Components(Rest(path, 0)), ROOT_INO)
        && TookAll(old(inodes.icache[..]), Met(inodes.D(), inodes.inodestart, Components(Rest(path, 0))),
                   inodes.icache[..])
    {
      hide CacheOk, Grows, Live, Reachable, RootAvailable, Resolve, Components, Trunc, ReadOnly, TookAll, Met;
      var ip := inodes.Namei(path);
      if ip.None? {
        return None;
      }
      ReadOnlyIff(omode);
      if !ReadOnly(omode) {
        return None;
      }
      var fp := FileAlloc();
      if fp.None? {
        return None;
      }
      files[fp.value] := files[fp.value].(kind := FD_INODE, ip := ip, off := 0, readable := true, writable := false);
      return fp;
    }

    /** fs_file.c file_read. */
    method FileRead(f: nat, dst: array<byte>, n: nat) returns (r: int)
      requires inodes.Valid() && f < files.Length && n <= dst.Length && dst != inodes.disk
      requires files[f].readable && files[f].kind == FD_INODE ==>
        && files[f].off + n < WORD_LIMIT
        && files[f].ip.Some? && files[f].ip.value < NINODE && inodes.icache[files[f].ip.value].ref > 0
      modifies inodes.icache, files, dst
      ensures inodes.Valid()
      ensures !(old(files[f]).readable && old(files[f]).kind == FD_INODE) ==>
        r == -1 && files[..] == old(files[..]) && dst[..] == old(dst[..]) && inodes.icache[..] == old(inodes.icache[..])
      ensures old(files[f]).readable && old(files[f]).kind == FD_INODE ==>
        && inodes.icache[..]
          == AfterIlock(old(inodes.icache[..]), inodes.D(), inodes.inodestart, old(files[f]).ip.value)
        && match old(Delivered(f, n))
           case Some(c) =>
             && r == |c| <= n && dst[..] == c + old(dst[..])[|c|..]
             && files[..] == old(files[..])[f := old(files[f]).(off := old(files[f]).off + |c|)]
           case None => r == -1 && files[..] == old(files[..]) && dst[..] == old(dst[..])
    {
      hide CacheOk, Chunk, DinodeOn;
      if !files[f].readable {
        return -1;
      }
      if files[f].kind != FD_INODE {
        return -1;
      }
      var i := files[f].ip.value;
      IlockAgrees(inodes.icache[..], inodes.D(), inodes.inodestart, inodes.igets, i);
      inodes.Ilock(i);
      var off := files[f].off;
      r := inodes.Readi(i, dst, off, n);
      if r > 0 {
        files[f] := files[f].(off := off + r);
      }
      assert r >= 0 ==> dst[..] == dst[..r] + dst[r..] && old(dst[..])[r..] == old(dst[r..]);
    }

    // ------------------------------------------------------------ syscall_fs.c

    /** syscall_fs.c copyinstr into a buffer of `max` bytes. */
    method Copyinstr(dst: array<byte>, usrc: seq<byte>, max: nat)
      requires 0 < max <= dst.Length && (max - 1 <= |usrc| || 0 in usrc)
      modifies dst
      ensures 0 in dst[..]
      ensures Trunc(dst[..]) == var t := Trunc(usrc); if |t| > max - 1 then t[..max - 1] else t
    {
      ghost var t := Trunc(usrc);
      var i := 0;
      while i < max - 1
        invariant i <= max - 1 && i <= |t| && dst[..i] == t[..i]
      {
        var c := usrc[i];
        dst[i] := c;
        if c == 0 {
          break;
        }
        assert i < |t|;
        i := i + 1;
      }
      dst[i] := 0;
      assert dst[..][..i] == t[..i];
      TruncIs(dst[..], i);
    }

    /** The kernel's copy of a user path. */
    method FetchPath(userPath: seq<byte>) returns (kpath: seq<byte>)
      requires PATH_MAX - 1 <= |userPath| || 0 in userPath
      ensures 0 in kpath && Rest(kpath, 0) == KernelPath(userPath)
    {
      var buf := new byte[PATH_MAX];
      Copyinstr(buf, userPath, PATH_MAX);
      kpath := buf[..];
      assert kpath[0..] == kpath;
    }

    /** syscall_fs.c __fdalloc. */
    method Fdalloc(p: nat, f: nat) returns (fd: int)
      requires p < fds.Length && |fds[p]| == NOFILE
      modifies fds
      ensures FreeFd(old(fds[p]), 0).None? ==> fd == -1 && fds[..] == old(fds[..])
      ensures FreeFd(old(fds[p]), 0).Some? ==>
        fd == FreeFd(old(fds[p]), 0).value && fds[..] == WithFd(old(fds[..]), p, fd, Some(f))
    {
      for i := 0 to NOFILE
        invariant fds[..] == old(fds[..]) && FreeFd(fds[p], 0) == FreeFd(fds[p], i)
      {
        if fds[p][i].None? {
          fds[p] := fds[p][i := Some(f)];
          return i;
        }
      }
      return -1;
    }

    /** The end of sys_open: a descriptor for the file just opened, or the file closed again. */
    method InstallFile(f: nat, ghost files0: seq<File>) returns (fd: int)
      requires inodes.Valid() && current < NPROC && files.Length == NFILE && f < NFILE
        && RootAvailable(inodes.icache[..])
      requires FdsOk(files0, fds[..]) && FilesOk(files0, inodes.icache[..]) && files0[f].ref == 0
      requires files[f].ip.Some? && files[f].ip.value < NINODE && inodes.icache[files[f].ip.value].ref > 0
      requires Some(f) == FreeFile(files0, 0) && files[..] == files0[f := Opened(files[f].ip.value)]
      modifies files, fds
      ensures Valid()
      ensures fd >= 0 <==> FreeFd(old(fds[current]), 0).Some?
      ensures fd < 0 ==> fd == -1 && fds[..] == old(fds[..]) && SameInEffect(files0, files[..])
      ensures fd >= 0 ==>
        files[..] == old(files[..]) && OpenedInto(files0, old(fds[..]), files[..], fds[..], current, fd)
    {
      assert fds.Length == NPROC && |fds[current]| == NOFILE;
      hide CacheOk, FdsOk, FilesOk, SameInEffect, RootAvailable;
      ghost var fds0 := fds[..];
      fd := Fdalloc(current, f);
      if fd < 0 {
        FileClose(f);
        ClosedUnused(files0, files[..], f);
        SameInEffectKeeps(files0, files[..], fds0, inodes.icache[..]);
        return -1;
      }
      OpenKeepsFds(files0, fds0, current, fd, f, files[f].ip.value);
      OpenKeepsFiles(files0, inodes.icache[..], f, files[f].ip.value);
    }

    /** syscall_fs.c sys_open. It succeeds exactly when the path resolves, the inode cache has room on the way, the mode
        is read-only, and a file and a descriptor are free; a call that fails leaves both tables as they were in
        effect. */
    method SysOpen(userPath: seq<byte>, omode: word) returns (r: int)
      requires Valid() && (PATH_MAX - 1 <= |userPath| || 0 in userPath)
      modifies inodes`igets, inodes.icache, files, fds
      ensures Valid() && Grows(old(inodes.icache[..]), inodes.icache[..])
      ensures r >= 0 <==> old(CanOpen(KernelPath(userPath), omode))
      ensures omode % 2 == 1 || omode / 2 % 2 == 1 ==> r == -1
      ensures r < 0 ==> r == -1 && fds[..] == old(fds[..]) && SameInEffect(old(files[..]), files[..])
      ensures r >= 0 ==>
        && OpenedInto(old(files[..]), old(fds[..]), files[..], fds[..], current, r)
        && Some(InumOf(FreeFile(old(files[..]), 0).value))
           == Resolve(inodes.D(), inodes.inodestart, Components(KernelPath(userPath)), ROOT_INO)
        && TookAll(old(inodes.icache[..]), Met(inodes.D(), inodes.inodestart, Components(KernelPath(userPath))),
                   inodes.icache[..])
    {
      hide CacheOk, Grows, Live, Reachable, RootAvailable, Resolve, Components, Trunc, ReadOnly, FdsOk, FilesOk,
        SameInEffect, TookAll, Met;
      hide KernelPath, Rest, WithFd, FreeFile, FreeFd, Opened;
      ghost var files0, c0 := files[..], inodes.icache[..];
      FdsShape(files0, fds[..]);
      SameInEffectRefl(files0);
      ReadOnlyIff(omode);
      var kpath := FetchPath(userPath);
      var f := FileOpen(kpath, omode);
      FilesKeptByCache(files0, c0, inodes.icache[..]);
      RootKept(inodes.icache[..]);
      if f.None? {
        return -1;
      }
      ghost var inum := InumOf(f.value);
      r := InstallFile(f.value, files0);
    }

    /** syscall_fs.c copyout. */
    method Copyout(userDst: array<byte>, src: array<byte>, len: nat)
      requires len <= userDst.Length && len <= src.Length && userDst != src
      modifies userDst
      ensures userDst[..] == src[..len] + old(userDst[..])[len..]
    {
      for i := 0 to len
        invariant userDst[..] == src[..i] + old(userDst[..])[i..]
      {
        userDst[i] := src[i];
      }
    }

    /** The file that a descriptor number of the current process stands for. */
    ghost function FileOf(fd: int): Option<nat>
      reads this, fds
    {
      if current < fds.Length && 0 <= fd < |fds[current]| then fds[current][fd] else None
    }

    /** The number of bytes that sys_read copies to the user. */
    ghost function Wanted(fd: int, n: nat): nat
      requires inodes.OnDisk()
      reads this, fds, files, inodes.icache, inodes.disk
    {
      match FileOf(fd)
      case None => 0
      case Some(f) =>
        if f < files.Length && files[f].ip.Some? && files[f].ip.value < inodes.icache.Length
          && Delivered(f, Min(n, KBUF)).Some?
        then |Delivered(f, Min(n, KBUF)).value| else 0
    }

    /** The second half of sys_read, for an open file: through the kernel's buffer to the user's. */
    method ReadOut(f: nat, userBuf: array<byte>, want: nat) returns (r: int)
      requires Valid() && FileReady(files[..], inodes.icache[..], f) && want <= KBUF && userBuf != inodes.disk
      requires Delivered(f, want).Some? ==> |Delivered(f, want).value| <= userBuf.Length
      modifies inodes.icache, files, userBuf
      ensures Valid() && Grows(old(inodes.icache[..]), inodes.icache[..])
      ensures match old(Delivered(f, want))
        case None => r == -1 && files[..] == old(files[..]) && userBuf[..] == old(userBuf[..])
        case Some(c) =>
          && r == |c| <= want && userBuf[..] == c + old(userBuf[..])[|c|..]
          && files[..] == old(files[..])[f := old(files[f]).(off := old(files[f]).off + |c|)]
    {
      hide CacheOk, FdsOk, FilesOk, Grows, Chunk, ContentSource, RootAvailable, AfterIlock;
      ghost var c0 := inodes.icache[..];
      CacheRefs(c0, inodes.D(), inodes.inodestart, inodes.igets);
      var kbuf := new byte[KBUF];
      ghost var ip, files0, off := files[f].ip.value, files[..], files[f].off;
      IlockGrows(c0, inodes.D(), inodes.inodestart, ip);
      IlockRoom(c0, inodes.D(), inodes.inodestart, ip);
      ghost var chunk := Delivered(f, want);
      r := FileRead(f, kbuf, want);
      RootKeptByGrowth(c0, inodes.icache[..]);
      FilesKeptByCache(files0, c0, inodes.icache[..]);
      if r < 0 {
        return -1;
      }
      assert kbuf[..r] == chunk.value;
      DeliveredFits(inodes.D(), inodes.inodestart, c0[ip].inum, off, want);
      ReadKeepsFds(files0, fds[..], f, off + r);
      ReadKeepsFiles(files0, inodes.icache[..], f, off + r);
      assert files[..] == files0[f := files0[f].(off := off + r)];
      if r > 0 {
        Copyout(userBuf, kbuf, r);
      }
      assert userBuf[..] == chunk.value + old(userBuf[..])[r..];
    }

    /** syscall_fs.c sys_read. It fails on a number that is no open descriptor, and on a file whose inode is not on the
        disk; otherwise it delivers the next bytes of the file, at most KBUF, and moves the offset of that file only. */
    method SysRead(fd: int, userBuf: array<byte>, n: word) returns (r: int)
      requires Valid() && Wanted(fd, n) <= userBuf.Length && userBuf != inodes.disk
      modifies inodes.icache, files, userBuf
      ensures Valid() && Grows(old(inodes.icache[..]), inodes.icache[..])
      ensures FileOf(fd).None? ==> r == -1 && files[..] == old(files[..]) && userBuf[..] == old(userBuf[..])
      ensures FileOf(fd).Some? ==>
        var f := FileOf(fd).value;
        && FileReady(old(files[..]), old(inodes.icache[..]), f)
        && match old(Delivered(f, Min(n, KBUF)))
           case None => r == -1 && files[..] == old(files[..]) && userBuf[..] == old(userBuf[..])
           case Some(c) =>
             && r == |c| <= Min(n, KBUF) && userBuf[..] == c + old(userBuf[..])[|c|..]
             && files[..] == old(files[..])[f := old(files[f]).(off := old(files[f]).off + |c|)]
    {
      hide CacheOk, FdsOk, FilesOk, Grows, Chunk, ContentSource, RootAvailable;
      FdsShape(files[..], fds[..]);
      CacheRefs(inodes.icache[..], inodes.D(), inodes.inodestart, inodes.igets);
      if fd < 0 || fd >= NOFILE {
        return -1;
      }
      var f := fds[current][fd];
      if f.None? {
        return -1;
      }
      HeldReady(files[..], fds[..], inodes.icache[..], current, fd, f.value);
      r := ReadOut(f.value, userBuf, if n > KBUF then KBUF else n);
    }

    /** syscall_fs.c sys_close. */
    method SysClose(fd: int) returns (r: int)
      requires Valid()
      modifies files, fds
      ensures Valid()
      ensures old(FileOf(fd)).None? ==> r == -1 && files[..] == old(files[..]) && fds[..] == old(fds[..])
      ensures old(FileOf(fd)).Some? ==>
        && r == 0 && old(FileOf(fd)).value < files.Length
        && fds[..] == WithFd(old(fds[..]), current, fd, None)
        && files[..] == old(files[..])[old(FileOf(fd)).value := CLEARED]
    {
      hide CacheOk, FdsOk, FilesOk, RootAvailable;
      FdsShape(files[..], fds[..]);
      if fd < 0 || fd >= NOFILE {
        return -1;
      }
      var f := fds[current][fd];
      if f.None? {
        return -1;
      }
      CloseKeepsFds(files[..], fds[..], current, fd, f.value);
      CloseKeepsFiles(files[..], inodes.icache[..], f.value);
      fds[current] := fds[current][fd := None];
      FileClose(f.value);
      return 0;
    }
  }
}
