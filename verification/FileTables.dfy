/** The system-wide file table and the per-process descriptor tables as values: their
    conservation law, and what opening and closing do to them. */
module FileTables {
  import opened Memory
  import opened Disk
  import opened InodeCache

  const NFILE: nat := 64
  const NOFILE: nat := 16
  const NPROC: nat := 64
  const FD_NONE: nat := 0
  const FD_INODE: nat := 1

  datatype File = File(kind: nat, ref: nat, readable: bool, writable: bool, ip: Option<nat>, off: word)

  const CLEARED := File(FD_NONE, 0, false, false, None, 0)

  /** The descriptors of each process: indices into the file table. */
  type Fds = seq<seq<Option<nat>>>

  predicate Held(fds: Fds, p: nat, fd: nat, f: nat)
  {
    p < |fds| && fd < |fds[p]| && fds[p][fd] == Some(f)
  }

  /** A file in the table is held by exactly one descriptor when it is open and by none when it is not. */
  ghost predicate FdsOk(files: seq<File>, fds: Fds)
  {
    && |files| == NFILE && |fds| == NPROC && (forall p | 0 <= p < NPROC :: |fds[p]| == NOFILE)
    && (forall p: nat, fd: nat, f: nat | Held(fds, p, fd, f) :: f < NFILE && files[f].ref == 1)
    && (forall f: nat | f < NFILE && files[f].ref > 0 :: exists p: nat, fd: nat :: Held(fds, p, fd, f))
    && (forall p: nat, fd: nat, q: nat, gd: nat, f: nat | Held(fds, p, fd, f) && Held(fds, q, gd, f) ::
          p == q && fd == gd)
  }

  lemma FdsShape(files: seq<File>, fds: Fds)
    requires FdsOk(files, fds)
    ensures |files| == NFILE && |fds| == NPROC && forall p | 0 <= p < NPROC :: |fds[p]| == NOFILE
  {
  }

  /** An open file reads a live inode, from an offset within the direct blocks. */
  predicate FileReady(files: seq<File>, c: Cache, f: nat)
  {
    && f < |files| && files[f].kind == FD_INODE && files[f].readable && files[f].off <= NDIRECT * BSIZE
    && files[f].ip.Some? && files[f].ip.value < |c| && c[files[f].ip.value].ref > 0
  }

  ghost predicate FilesOk(files: seq<File>, c: Cache)
  {
    forall f: nat | f < |files| && files[f].ref > 0 :: FileReady(files, c, f)
  }

  lemma AllClosed(files: seq<File>, fds: Fds, c: Cache)
    requires |files| == NFILE && forall f: nat | f < NFILE :: files[f].ref == 0
    requires |fds| == NPROC && forall p: nat | p < NPROC :: |fds[p]| == NOFILE
    requires forall p: nat, fd: nat | p < NPROC && fd < NOFILE :: fds[p][fd].None?
    ensures FdsOk(files, fds) && FilesOk(files, c)
  {
  }

  /** The descriptors that hold file `f`. */
  ghost function Holders(fds: Fds, f: nat): set<(nat, nat)>
  {
    set p: nat, fd: nat | p < |fds| && fd < |fds[p]| && fds[p][fd] == Some(f) :: (p, fd)
  }

  /** Conservation: the reference count of every file is the number of descriptors that hold it, and at most one. */
  lemma RefsCountHolders(files: seq<File>, fds: Fds, f: nat)
    requires FdsOk(files, fds) && f < NFILE
    ensures files[f].ref == |Holders(fds, f)| <= 1
  {
    var h := Holders(fds, f);
    if files[f].ref > 0 {
      var p: nat, fd: nat :| Held(fds, p, fd, f);
      assert (p, fd) in h;
      forall x | x in h ensures x == (p, fd) {
        assert Held(fds, x.0, x.1, f);
      }
      assert h == {(p, fd)};
    } else {
      forall x | x in h ensures false {
        assert Held(fds, x.0, x.1, f);
      }
      assert h == {};
    }
  }

  // ---------------------------------------------------------------- the scans

  /** The first file from `i` on that is not in use. */
  function FreeFile(files: seq<File>, i: nat): (r: Option<nat>)
    requires i <= |files|
    ensures r.Some? ==> i <= r.value < |files| && files[r.value].ref == 0
    ensures r.Some? ==> forall j | i <= j < r.value :: files[j].ref > 0
    ensures r.None? ==> forall j | i <= j < |files| :: files[j].ref > 0
    decreases |files| - i
  {
    if i == |files| then None else if files[i].ref == 0 then Some(i) else FreeFile(files, i + 1)
  }

  /** The lowest descriptor from `i` on that is not in use. */
  function FreeFd(ofile: seq<Option<nat>>, i: nat): (r: Option<nat>)
    requires i <= |ofile|
    ensures r.Some? ==> i <= r.value < |ofile| && ofile[r.value].None?
    ensures r.Some? ==> forall j | i <= j < r.value :: ofile[j].Some?
    ensures r.None? ==> forall j | i <= j < |ofile| :: ofile[j].Some?
    decreases |ofile| - i
  {
    if i == |ofile| then None else if ofile[i].None? then Some(i) else FreeFd(ofile, i + 1)
  }

  // ---------------------------------------------------------------- open and close

  function Opened(ip: nat): File
  {
    File(FD_INODE, 1, true, false, Some(ip), 0)
  }

  function WithFd(fds: Fds, p: nat, fd: nat, v: Option<nat>): Fds
    requires p < |fds| && fd < |fds[p]|
  {
    fds[p := fds[p][fd := v]]
  }

  lemma HeldAfter(fds: Fds, p: nat, fd: nat, v: Option<nat>)
    requires p < |fds| && fd < |fds[p]|
    ensures forall q: nat, gd: nat, f: nat ::
      Held(WithFd(fds, p, fd, v), q, gd, f) <==> if q == p && gd == fd then v == Some(f) else Held(fds, q, gd, f)
  {
  }

  lemma OpenKeepsFds(files: seq<File>, fds: Fds, p: nat, fd: nat, f: nat, ip: nat)
    requires FdsOk(files, fds) && p < NPROC && fd < NOFILE && fds[p][fd].None? && f < NFILE && files[f].ref == 0
    ensures FdsOk(files[f := Opened(ip)], WithFd(fds, p, fd, Some(f)))
  {
    var files', fds' := files[f := Opened(ip)], WithFd(fds, p, fd, Some(f));
    HeldAfter(fds, p, fd, Some(f));
    forall g: nat | g < NFILE && files'[g].ref > 0 ensures exists q: nat, gd: nat :: Held(fds', q, gd, g) {
      if g == f {
        assert Held(fds', p, fd, f);
      } else {
        var q: nat, gd: nat :| Held(fds, q, gd, g);
        assert Held(fds', q, gd, g);
      }
    }
  }

  lemma CloseKeepsFds(files: seq<File>, fds: Fds, p: nat, fd: nat, f: nat)
    requires FdsOk(files, fds) && Held(fds, p, fd, f)
    ensures f < NFILE && files[f].ref == 1 && FdsOk(files[f := CLEARED], WithFd(fds, p, fd, None))
  {
    var files', fds' := files[f := CLEARED], WithFd(fds, p, fd, None);
    HeldAfter(fds, p, fd, None);
    forall g: nat | g < NFILE && files'[g].ref > 0 ensures exists q: nat, gd: nat :: Held(fds', q, gd, g) {
      var q: nat, gd: nat :| Held(fds, q, gd, g);
      assert Held(fds', q, gd, g);
    }
  }

  /** Two tables with the same files in use, equal where they are in use. */
  ghost predicate SameInEffect(files: seq<File>, files': seq<File>)
  {
    |files'| == |files| && forall f: nat | f < |files| ::
      files'[f].ref == files[f].ref && (files[f].ref > 0 ==> files'[f] == files[f])
  }

  lemma SameInEffectKeeps(files: seq<File>, files': seq<File>, fds: Fds, c: Cache)
    requires FdsOk(files, fds) && FilesOk(files, c) && SameInEffect(files, files')
    ensures FdsOk(files', fds) && FilesOk(files', c)
  {
    forall g: nat | g < |files'| && files'[g].ref > 0 ensures FileReady(files', c, g) {
      assert FileReady(files, c, g);
    }
  }

  /** Closing what was opened gives back the descriptor table, and the file table in effect, whatever the file had
      become. */
  lemma OpenThenClose(files: seq<File>, fds: Fds, p: nat, fd: nat, f: nat, file: File)
    requires p < |fds| && fd < |fds[p]| && fds[p][fd].None? && f < |files| && files[f].ref == 0
    ensures WithFd(WithFd(fds, p, fd, Some(f)), p, fd, None) == fds
    ensures SameInEffect(files, files[f := file][f := CLEARED])
  {
    var fds' := WithFd(WithFd(fds, p, fd, Some(f)), p, fd, None);
    assert fds'[p] == fds[p];
  }

  /** A cache that only grows keeps open files on live inodes. */
  lemma FilesKeptByCache(files: seq<File>, c: Cache, c': Cache)
    requires FilesOk(files, c) && Grows(c, c')
    ensures FilesOk(files, c')
  {
    forall g: nat | g < |files| && files[g].ref > 0 ensures FileReady(files, c', g) {
      assert FileReady(files, c, g);
    }
  }

  lemma SameInEffectRefl(files: seq<File>)
    ensures SameInEffect(files, files)
  {
  }

  /** A slot not in use that has been cleared makes no difference. */
  lemma ClosedUnused(files: seq<File>, files': seq<File>, f: nat)
    requires f < |files| && files[f].ref == 0 && files' == files[f := CLEARED]
    ensures SameInEffect(files, files')
  {
  }

  lemma OpenKeepsFiles(files: seq<File>, c: Cache, f: nat, ip: nat)
    requires FilesOk(files, c) && f < |files| && ip < |c| && c[ip].ref > 0
    ensures FilesOk(files[f := Opened(ip)], c)
  {
    var files' := files[f := Opened(ip)];
    forall g: nat | g < |files'| && files'[g].ref > 0 ensures FileReady(files', c, g) {
      assert g != f ==> FileReady(files, c, g);
    }
  }

  lemma HeldReady(files: seq<File>, fds: Fds, c: Cache, p: nat, fd: nat, f: nat)
    requires FdsOk(files, fds) && FilesOk(files, c) && Held(fds, p, fd, f)
    ensures FileReady(files, c, f)
  {
  }

  lemma ReadKeepsFds(files: seq<File>, fds: Fds, f: nat, off: word)
    requires FdsOk(files, fds) && f < |files|
    ensures FdsOk(files[f := files[f].(off := off)], fds)
  {
  }

  lemma ReadKeepsFiles(files: seq<File>, c: Cache, f: nat, off: word)
    requires FilesOk(files, c) && f < |files| && off <= NDIRECT * BSIZE
    ensures FilesOk(files[f := files[f].(off := off)], c)
  {
    var files' := files[f := files[f].(off := off)];
    forall g: nat | g < |files'| && files'[g].ref > 0 ensures FileReady(files', c, g) {
      assert FileReady(files, c, g);
    }
  }

  lemma CloseKeepsFiles(files: seq<File>, c: Cache, f: nat)
    requires FilesOk(files, c) && f < |files|
    ensures FilesOk(files[f := CLEARED], c)
  {
    var files' := files[f := CLEARED];
    forall g: nat | g < |files'| && files'[g].ref > 0 ensures FileReady(files', c, g) {
      assert FileReady(files, c, g);
    }
  }
}
