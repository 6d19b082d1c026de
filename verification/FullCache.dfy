/** A run of system calls that fills the inode cache. There is no iput, so an inode keeps its
    slot after its files are closed: thirty-one files of the root directory are opened and
    closed, and the next one cannot be opened. */
module FullCache {
  import opened Memory
  import opened Disk
  import opened BlockDevice
  import opened Paths
  import opened InodeCache
  import opened Inodes
  import opened FileTables
  import opened Files
  import opened Sessions
  import opened TestFs
  import opened Boot

  const MANY: nat := 32

  /** Entry `i` of the root directory: inode 2 + i under a name of one letter. */
  function ManyName(i: nat): (name: seq<byte>)
    requires i < MANY
  {
    [65 + i]
  }

  function ManyEntries(): (es: seq<Dirent>)
    ensures |es| == MANY && forall i: nat | i < MANY :: es[i] == Dirent(2 + i, ManyName(i))
  {
    seq(MANY, i requires 0 <= i < MANY => Dirent(2 + i, ManyName(i)))
  }

  lemma ManyFit()
    ensures OneBlock(ManyEntries())
  {
    hide ManyEntries;
  }

  function ManyDisk(): Image
  {
    ManyFit();
    RootDisk(ManyEntries())
  }

  function ManyPath(i: nat): seq<byte>
    requires i < MANY
  {
    RootPath(ManyName(i))
  }

  lemma {:induction false} ManyFirst(i: nat, k: nat)
    requires k <= i < MANY
    ensures FirstNamed(ManyEntries(), ManyName(i), k) == Some(i)
    decreases i - k
  {
    hide ManyEntries;
    if k < i { ManyFirst(i, k + 1); }
  }

  /** Every one of the paths resolves, to an inode of its own. */
  lemma ManyResolve(i: nat)
    requires i < MANY
    ensures 0 in ManyPath(i)
    ensures var comps := Components(KernelPath(ManyPath(i)));
      Resolve(ManyDisk(), INODESTART, comps, ROOT_INO) == Some(2 + i)
      && Met(ManyDisk(), INODESTART, comps) == [ROOT_INO, 2 + i]
  {
    hide RootDisk, ManyEntries, DinodeOn, Content, Packed, Lookup, KernelPath, Components, RootPath;
    ManyFit();
    RootDiskHolds(ManyEntries());
    ManyFirst(i, 0);
    PackedLookup(ManyDisk(), INODESTART, ROOT_INO, RootDir(ManyEntries()), ManyEntries(), ManyName(i));
    RootPathComponents(ManyName(i));
    OneLookup(ManyDisk(), INODESTART, ManyName(i));
  }

  // ---------------------------------------------------------------- the run

  /** Open a file, close it, open the next. */
  function FillCall(k: nat): Call
    requires k < 63
  {
    if k % 2 == 0 then OpenCall(0, ManyPath(k / 2), O_RDONLY) else CloseCall(0, 0)
  }

  function FillCalls(): (calls: seq<Call>)
    ensures |calls| == 63 && forall k: nat | k < 63 :: calls[k] == FillCall(k)
  {
    seq(63, k requires 0 <= k < 63 => FillCall(k))
  }

  /** The inodes in the cache after `n` files, the root among them. */
  function Taken(n: nat): set<word>
    requires n < MANY
  {
    if n == 0 then {} else Taken(n - 1) + {ROOT_INO, n + 1}
  }

  lemma {:induction false} TakenIs(n: nat, inum: word)
    requires n < MANY
    ensures inum in Taken(n) <==> 0 < n && 1 <= inum <= n + 1
  {
    if n > 0 { TakenIs(n - 1, inum); }
  }

  /** No file is open, and the cache holds the root and the first `n` files. */
  ghost predicate Filled(s: FsState, n: nat)
    requires n < MANY
  {
    && |s.files| == NFILE && (forall f: nat | f < NFILE :: s.files[f].ref == 0)
    && |s.fds| == NPROC && |s.fds[0]| == NOFILE && s.fds[0][0].None?
    && Live(s.cache) == Taken(n) && Free(s.cache) == NINODE - (if n == 0 then 0 else n + 1)
  }

  lemma TwoElements(x: word, y: word)
    ensures Elements([x, y]) == {x, y}
  {
    assert [x, y][1..] == [y] && [y][1..] == [];
    assert Elements([y]) == {y};
  }

  /** What the next open adds. */
  lemma NextTaken(n: nat)
    requires n + 1 < MANY
    ensures |{ROOT_INO, 2 + n} - Taken(n)| == (if n == 0 then 2 else 1)
    ensures Taken(n) + {ROOT_INO, 2 + n} == Taken(n + 1)
  {
    TakenIs(n, ROOT_INO);
    TakenIs(n, 2 + n);
    hide Taken;
    assert {ROOT_INO, 2 + n} - Taken(n) == if n == 0 then {ROOT_INO, 2} else {2 + n};
  }

  lemma OpenNext(s: FsState, m: FsState, n: nat, a: Answer)
    requires n + 1 < MANY && Filled(s, n)
    requires Happens(ManyDisk(), INODESTART, s, m, OpenCall(0, ManyPath(n), O_RDONLY), a)
    ensures a == Answer(0, []) && OpenedInto(s.files, s.fds, m.files, m.fds, 0, 0)
    ensures Live(m.cache) == Taken(n + 1) && Free(m.cache) == NINODE - (n + 2)
  {
    hide ManyDisk, ManyPath, KernelPath, Components, Resolve, Met, Live, Free, Elements, Taken, Reachable, Grows;
    ManyResolve(n);
    NextTaken(n);
    TwoElements(ROOT_INO, 2 + n);
    ReachableIff(ManyDisk(), INODESTART, s.cache, Components(KernelPath(ManyPath(n))));
    assert ReadOnly(O_RDONLY);
  }

  /** A file opened and closed leaves the tables as they were, and its inode in the cache. */
  lemma OneMoreFilled(s: FsState, m: FsState, t: FsState, n: nat, a: Answer, b: Answer)
    requires n + 1 < MANY && Filled(s, n)
    requires Happens(ManyDisk(), INODESTART, s, m, OpenCall(0, ManyPath(n), O_RDONLY), a)
    requires Happens(ManyDisk(), INODESTART, m, t, CloseCall(0, 0), b)
    ensures a == Answer(0, []) && b == Answer(0, []) && Filled(t, n + 1)
  {
    hide ManyDisk, ManyPath, OpenHappens, Live, Free, Taken;
    OpenNext(s, m, n, a);
    var f := FreeFile(s.files, 0).value;
    OpenThenClose(s.files, s.fds, 0, 0, f, m.files[f]);
  }

  lemma {:induction false} FillRun(run: seq<FsState>, answers: seq<Answer>, n: nat)
    requires CallRun(ManyDisk(), INODESTART, run, FillCalls(), answers) && Filled(run[0], 0) && n < MANY
    ensures Filled(run[2 * n], n) && forall k: nat | k < 2 * n :: answers[k] == Answer(0, [])
  {
    hide Happens, Filled, FillCalls, ManyDisk, ManyPath;
    if n > 0 {
      var k := 2 * (n - 1);
      FillRun(run, answers, n - 1);
      assert FillCall(k) == OpenCall(0, ManyPath(n - 1), O_RDONLY) && FillCall(k + 1) == CloseCall(0, 0);
      OneMoreFilled(run[k], run[k + 1], run[k + 2], n - 1, answers[k], answers[k + 1]);
    }
  }

  /** The last path resolves and the tables have room, but the cache is full and the open fails. */
  lemma LastRefused(run: seq<FsState>, answers: seq<Answer>)
    requires CallRun(ManyDisk(), INODESTART, run, FillCalls(), answers) && Filled(run[0], 0)
    ensures Resolve(ManyDisk(), INODESTART, Components(KernelPath(ManyPath(31))), ROOT_INO) == Some(33)
    ensures var s := run[62];
      Free(s.cache) == 0 && FreeFile(s.files, 0).Some? && |s.fds| == NPROC && FreeFd(s.fds[0], 0) == Some(0)
    ensures (forall k: nat | k < 62 :: answers[k] == Answer(0, [])) && answers[62] == FAILED
  {
    hide Live, Free, Taken, FillCalls, ManyDisk, ManyPath, KernelPath, Components, Resolve, Met, Elements, Reachable,
      Grows, TookAll;
    FillRun(run, answers, 31);
    ManyResolve(31);
    var comps := Components(KernelPath(ManyPath(31)));
    FullReachableIff(ManyDisk(), INODESTART, run[62].cache, comps);
    LastNotTaken();
    assert FillCall(62) == OpenCall(0, ManyPath(31), O_RDONLY);
    assert Happens(ManyDisk(), INODESTART, run[62], run[63], FillCall(62), answers[62]);
  }

  lemma LastNotTaken()
    ensures !(Elements([ROOT_INO, 33]) <= Taken(31))
  {
    TwoElements(ROOT_INO, 33);
    TakenIs(31, 33);
  }

  /** The disk with those files. */
  method BuildMany() returns (disk: array<byte>)
    ensures fresh(disk) && disk.Length == DISK_NBLOCKS * BSIZE && disk[..] == ManyDisk()
  {
    hide WithBlock, Packed, ZeroPadded, WithDinode, NewDinode, ManyEntries, Zeros;
    ManyFit();
    disk := new byte[DISK_NBLOCKS * BSIZE];
    ZeroDisk(disk);
    WriteZeroPadded(disk, ROOT_BLOCK, Packed(ManyEntries()));
    var _ := WriteDinode(disk, INODESTART, ROOT_INO, T_DIR, MANY * DIRENT, ROOT_BLOCK);
  }

  /** From the empty cache: thirty-one files are opened and closed, every call succeeding, and then a path that resolves
      is refused although no file is open. */
  method FillAndRefuse() returns (answers: seq<Answer>, ghost run: seq<FsState>)
    ensures CallRun(ManyDisk(), INODESTART, run, FillCalls(), answers) && StateOk(run[0]) && Live(run[0].cache) == {}
    ensures (forall k: nat | k < 62 :: answers[k] == Answer(0, [])) && answers[62] == FAILED
    ensures Resolve(ManyDisk(), INODESTART, Components(KernelPath(ManyPath(31))), ROOT_INO) == Some(33)
  {
    hide ManyDisk, FillCalls, ManyPath, KernelPath, Components, Resolve, Free, CacheOk, FdsOk, FilesOk, RootAvailable,
      CallRun;
    var disk := BuildMany();
    var inodes := new InodeLayer(disk, INODESTART);
    AllFree(inodes.icache[..]);
    assert RootAvailable(inodes.icache[..]) by { RootFits(inodes.icache[..]); }
    var fs := new FileLayer(inodes);
    FdsShape(fs.files[..], fs.fds[..]);
    assert Filled(StateOf(fs), 0);
    var calls := FillCalls();
    FillCallsOk();
    answers, run := Run(fs, calls);
    LastRefused(run, answers);
  }

  lemma RootFits(c: Cache)
    requires Free(c) > 0
    ensures RootAvailable(c)
  {
  }

  lemma FillCallsOk()
    ensures forall k | 0 <= k < 63 :: CallOk(FillCalls()[k])
  {
    hide FillCalls, ManyPath, KernelPath, Components, Resolve, Met, ManyDisk;
    forall k: nat | k < 63 ensures CallOk(FillCall(k)) {
      ManyResolve(k / 2);
    }
  }
}
