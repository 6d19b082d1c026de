/** What user programs see of the file system over whole runs of system calls: a reader
    that reads a file to its end, and any mix of calls by any processes. */
module Sessions {
  import opened Memory
  import opened Disk
  import opened DiskLayout
  import opened Paths
  import opened InodeCache
  import opened FileTables
  import opened Files

  const O_RDONLY: word := 0

  /** `got` is what the file's inode contains before the file's offset. */
  ghost predicate ReceivedBy(file: File, c: Cache, d: Image, inodestart: word, got: seq<byte>)
  {
    && file.ip.Some? && file.ip.value < |c|
    && match ContentSource(d, inodestart, c[file.ip.value].inum)
       case None => file.off == 0 && got == []
       case Some(din) => file.off <= |Content(d, din)| && got == Content(d, din)[..file.off]
  }

  lemma ReceivedNothing(file: File, c: Cache, d: Image, inodestart: word)
    requires file.ip.Some? && file.ip.value < |c| && file.off == 0
    ensures ReceivedBy(file, c, d, inodestart, [])
  {
  }

  /** A read adds to what was received. */
  lemma ReceivedMore(file: File, c: Cache, d: Image, inodestart: word, got: seq<byte>, n: nat)
    requires ReceivedBy(file, c, d, inodestart, got) && ContentSource(d, inodestart, c[file.ip.value].inum).Some?
    ensures var chunk := Chunk(d, ContentSource(d, inodestart, c[file.ip.value].inum).value, file.off, n);
      file.off + |chunk| < WORD_LIMIT ==> ReceivedBy(file.(off := file.off + |chunk|), c, d, inodestart, got + chunk)
  {
    hide ContentSource, Chunk, Content;
    var din := ContentSource(d, inodestart, c[file.ip.value].inum).value;
    ChunkOfContent(d, din, file.off, n);
  }

  /** When a read of a positive size comes back empty, everything has been received. */
  lemma ReceivedAll(file: File, c: Cache, d: Image, inodestart: word, got: seq<byte>, n: nat)
    requires ReceivedBy(file, c, d, inodestart, got) && ContentSource(d, inodestart, c[file.ip.value].inum).Some?
      && n > 0
    ensures var din := ContentSource(d, inodestart, c[file.ip.value].inum).value;
      Chunk(d, din, file.off, n) == [] <==> got == Content(d, din)
  {
    hide ContentSource, Chunk, Content;
    ChunkOfContent(d, ContentSource(d, inodestart, c[file.ip.value].inum).value, file.off, n);
  }

  lemma ReceivedGrows(file: File, c: Cache, c': Cache, d: Image, inodestart: word, got: seq<byte>)
    requires ReceivedBy(file, c, d, inodestart, got) && Grows(c, c') && c[file.ip.value].ref > 0
    ensures ReceivedBy(file, c', d, inodestart, got)
  {
  }

  // ---------------------------------------------------------------- runs

  datatype Call =
    | OpenCall(p: nat, path: seq<byte>, omode: word)
    | ReadCall(p: nat, fd: int, n: word)
    | CloseCall(p: nat, fd: int)

  predicate CallOk(call: Call)
  {
    call.p < NPROC && (call.OpenCall? ==> PATH_MAX - 1 <= |call.path| || 0 in call.path)
  }

  /** What a call gives back: its result, and the bytes that a read has put into the user's buffer. */
  datatype Answer = Answer(ret: int, data: seq<byte>)

  const FAILED := Answer(-1, [])

  /** The tables that system calls work on. */
  datatype FsState = FsState(files: seq<File>, fds: Fds, cache: Cache)

  /** The file that a descriptor number of a process stands for. */
  function HeldBy(fds: Fds, p: nat, fd: int): Option<nat>
  {
    if p < |fds| && 0 <= fd < |fds[p]| then fds[p][fd] else None
  }

  /** The next `n` bytes of file `f`, by the disk alone. */
  function NextBytes(d: Image, inodestart: word, s: FsState, f: nat, n: nat): Option<seq<byte>>
  {
    if f < |s.files| && s.files[f].ip.Some? && s.files[f].ip.value < |s.cache| then
      match ContentSource(d, inodestart, s.cache[s.files[f].ip.value].inum)
      case None => None
      case Some(din) => Some(Chunk(d, din, s.files[f].off, n))
    else None
  }

  ghost predicate OpenHappens(d: Image, inodestart: word, s: FsState, t: FsState, p: nat, path: seq<byte>, omode: word,
                              a: Answer)
  {
    var comps := Components(KernelPath(path));
    && Grows(s.cache, t.cache) && a.data == [] && p < |s.fds|
    && (a.ret >= 0 <==>
          && Reachable(d, inodestart, s.cache, comps) && ReadOnly(omode)
          && FreeFile(s.files, 0).Some? && FreeFd(s.fds[p], 0).Some?)
    && (a.ret < 0 ==> a == FAILED && t.fds == s.fds && SameInEffect(s.files, t.files))
    && (a.ret >= 0 ==>
          && OpenedInto(s.files, s.fds, t.files, t.fds, p, a.ret) && OpenedOn(d, inodestart, s, t, comps)
          && TookAll(s.cache, Met(d, inodestart, comps), t.cache))
  }

  /** The file opened is on the inode that the components resolve to. */
  ghost predicate OpenedOn(d: Image, inodestart: word, s: FsState, t: FsState, comps: seq<seq<byte>>)
  {
    && FreeFile(s.files, 0).Some? && FreeFile(s.files, 0).value < |t.files|
    && var file := t.files[FreeFile(s.files, 0).value];
      && file.ip.Some? && file.ip.value < |t.cache| && t.cache[file.ip.value].ref > 0
      && Some(t.cache[file.ip.value].inum) == Resolve(d, inodestart, comps, ROOT_INO)
  }

  ghost predicate ReadHappens(d: Image, inodestart: word, s: FsState, t: FsState, p: nat, fd: int, n: nat, a: Answer)
  {
    && Grows(s.cache, t.cache) && t.fds == s.fds
    && match HeldBy(s.fds, p, fd)
       case None => a == FAILED && t.files == s.files
       case Some(f) =>
         match NextBytes(d, inodestart, s, f, Min(n, KBUF))
         case None => a == FAILED && t.files == s.files
         case Some(c) =>
           && a == Answer(|c|, c) && f < |s.files| && s.files[f].off + |c| < WORD_LIMIT
           && t.files == s.files[f := s.files[f].(off := s.files[f].off + |c|)]
  }

  predicate CloseHappens(s: FsState, t: FsState, p: nat, fd: int, a: Answer)
  {
    match HeldBy(s.fds, p, fd)
    case None => a == FAILED && t == s
    case Some(f) =>
      && a == Answer(0, []) && f < |s.files|
      && t == FsState(s.files[f := CLEARED], WithFd(s.fds, p, fd, None), s.cache)
  }

  /** One system call: what it gives back and what it does to the tables. */
  ghost predicate Happens(d: Image, inodestart: word, s: FsState, t: FsState, call: Call, a: Answer)
  {
    match call
    case OpenCall(p, path, omode) => OpenHappens(d, inodestart, s, t, p, path, omode, a)
    case ReadCall(p, fd, n) => ReadHappens(d, inodestart, s, t, p, fd, n, a)
    case CloseCall(p, fd) => CloseHappens(s, t, p, fd, a)
  }

  ghost predicate StateOk(s: FsState)
  {
    FdsOk(s.files, s.fds) && FilesOk(s.files, s.cache)
  }

  lemma ReadKeepsState(d: Image, inodestart: word, s: FsState, t: FsState, p: nat, fd: int, n: nat, a: Answer)
    requires StateOk(s) && ReadHappens(d, inodestart, s, t, p, fd, n, a)
    ensures StateOk(t)
  {
    hide FdsOk, FilesOk, Grows, ContentSource, Chunk;
    FilesKeptByCache(s.files, s.cache, t.cache);
    if HeldBy(s.fds, p, fd).Some? {
      var f := HeldBy(s.fds, p, fd).value;
      HeldReady(s.files, s.fds, s.cache, p, fd, f);
      if NextBytes(d, inodestart, s, f, Min(n, KBUF)).Some? {
        DeliveredFits(d, inodestart, s.cache[s.files[f].ip.value].inum, s.files[f].off, Min(n, KBUF));
        ReadKeepsFds(s.files, s.fds, f, s.files[f].off + a.ret);
        ReadKeepsFiles(s.files, t.cache, f, s.files[f].off + a.ret);
      }
    }
  }

  /** A call keeps the conservation law, and open files on live inodes. */
  lemma CallKeepsState(d: Image, inodestart: word, s: FsState, t: FsState, call: Call, a: Answer)
    requires StateOk(s) && Happens(d, inodestart, s, t, call, a) && CallOk(call)
    ensures StateOk(t)
  {
    hide FdsOk, FilesOk, Grows, ReadHappens, Reachable, SameInEffect, KernelPath, Resolve, TookAll;
    match call
    case OpenCall(p, path, omode) =>
      FilesKeptByCache(s.files, s.cache, t.cache);
      FdsShape(s.files, s.fds);
      if a.ret < 0 {
        SameInEffectKeeps(s.files, t.files, s.fds, t.cache);
      } else {
        var f := FreeFile(s.files, 0).value;
        OpenKeepsFds(s.files, s.fds, p, a.ret, f, t.files[f].ip.value);
        OpenKeepsFiles(s.files, t.cache, f, t.files[f].ip.value);
      }
    case ReadCall(p, fd, n) =>
      ReadKeepsState(d, inodestart, s, t, p, fd, n, a);
    case CloseCall(p, fd) =>
      if HeldBy(s.fds, p, fd).Some? {
        var f := HeldBy(s.fds, p, fd).value;
        CloseKeepsFds(s.files, s.fds, p, fd, f);
        CloseKeepsFiles(s.files, s.cache, f);
      }
  }

  /** A descriptor that a call does not name keeps its file, and the file its inode and its offset. */
  lemma OthersKept(d: Image, inodestart: word, s: FsState, t: FsState, call: Call, a: Answer, p: nat, fd: nat, f: nat)
    requires StateOk(s) && Happens(d, inodestart, s, t, call, a) && CallOk(call) && Held(s.fds, p, fd, f)
    requires (call.ReadCall? || call.CloseCall?) ==> !(call.p == p && call.fd == fd)
    ensures Held(t.fds, p, fd, f) && f < |s.files| && f < |t.files| && t.files[f] == s.files[f]
    ensures FileReady(s.files, s.cache, f) && Grows(s.cache, t.cache)
  {
    hide Reachable, KernelPath, Resolve, NextBytes, CacheOk, TookAll;
    HeldReady(s.files, s.fds, s.cache, p, fd, f);
    match call
    case OpenCall(q, path, omode) =>
      if a.ret >= 0 { HeldAfter(s.fds, q, a.ret, Some(FreeFile(s.files, 0).value)); }
    case ReadCall(q, gd, n) =>
      if HeldBy(s.fds, q, gd).Some? { assert Held(s.fds, q, gd, HeldBy(s.fds, q, gd).value); }
    case CloseCall(q, gd) =>
      GrowsRefl(s.cache);
      if HeldBy(s.fds, q, gd).Some? {
        assert Held(s.fds, q, gd, HeldBy(s.fds, q, gd).value);
        HeldAfter(s.fds, q, gd, None);
      }
  }

  lemma GrowsRefl(c: Cache)
    ensures Grows(c, c)
  {
  }

  /** A run of calls with what they gave back. */
  ghost predicate CallRun(d: Image, inodestart: word, run: seq<FsState>, calls: seq<Call>, answers: seq<Answer>)
  {
    && |run| == |calls| + 1 && |answers| == |calls|
    && forall k: nat | k < |calls| ::
      CallOk(calls[k]) && Happens(d, inodestart, run[k], run[k + 1], calls[k], answers[k])
  }

  /** All that process `p` has read through descriptor `fd` since it was last opened, by the calls and their answers
      alone. */
  function ReadSinceOpen(calls: seq<Call>, answers: seq<Answer>, p: nat, fd: nat, before: seq<byte>): seq<byte>
    requires |answers| == |calls|
  {
    if calls == [] then before
    else
      var n := |calls| - 1;
      var earlier := ReadSinceOpen(calls[..n], answers[..n], p, fd, before);
      match calls[n]
      case OpenCall(q, _, _) => if q == p && answers[n].ret == fd then [] else earlier
      case ReadCall(q, gd, _) => if q == p && gd == fd then earlier + answers[n].data else earlier
      case CloseCall(_, _) => earlier
  }

  /** If process `p` has descriptor `fd` open, `got` is the content of its inode before its offset. */
  ghost predicate HasReceived(d: Image, inodestart: word, s: FsState, p: nat, fd: nat, got: seq<byte>)
  {
    forall f: nat | Held(s.fds, p, fd, f) :: f < |s.files| && ReceivedBy(s.files[f], s.cache, d, inodestart, got)
  }

  /** A call that names the descriptor. */
  lemma OwnCall(d: Image, inodestart: word, s: FsState, t: FsState, call: Call, a: Answer, p: nat, fd: nat,
                got: seq<byte>)
    requires StateOk(s) && Happens(d, inodestart, s, t, call, a) && CallOk(call) && call.p == p
    requires HasReceived(d, inodestart, s, p, fd, got)
    ensures call.OpenCall? && a.ret == fd ==> HasReceived(d, inodestart, t, p, fd, [])
    ensures call.ReadCall? && call.fd == fd ==> HasReceived(d, inodestart, t, p, fd, got + a.data)
    ensures call.CloseCall? && call.fd == fd ==> HasReceived(d, inodestart, t, p, fd, got)
  {
    hide FdsOk, FilesOk, Grows, Reachable, KernelPath, Resolve, ReceivedBy, ContentSource, Chunk, TookAll;
    match call
    case OpenCall(_, path, omode) =>
      if a.ret == fd {
        var f := FreeFile(s.files, 0).value;
        ReceivedNothing(t.files[f], t.cache, d, inodestart);
        HeldAfter(s.fds, p, fd, Some(f));
      }
    case ReadCall(_, gd, n) =>
      if gd == fd && HeldBy(s.fds, p, fd).Some? {
        var f := HeldBy(s.fds, p, fd).value;
        assert Held(s.fds, p, fd, f);
        HeldReady(s.files, s.fds, s.cache, p, fd, f);
        if NextBytes(d, inodestart, s, f, Min(n, KBUF)).Some? {
          ReceivedMore(s.files[f], s.cache, d, inodestart, got, Min(n, KBUF));
        } else {
          assert got + [] == got;
        }
        ReceivedGrows(t.files[f], s.cache, t.cache, d, inodestart, got + a.data);
      }
    case CloseCall(_, gd) =>
      if gd == fd && HeldBy(s.fds, p, fd).Some? {
        HeldAfter(s.fds, p, fd, None);
      }
  }

  /** A call that does not name the descriptor. */
  lemma OtherCall(d: Image, inodestart: word, s: FsState, t: FsState, call: Call, a: Answer, p: nat, fd: nat,
                  got: seq<byte>)
    requires StateOk(s) && Happens(d, inodestart, s, t, call, a) && CallOk(call)
    requires match call case OpenCall(q, _, _) => !(q == p && a.ret == fd) case _ => !(call.p == p && call.fd == fd)
    requires HasReceived(d, inodestart, s, p, fd, got)
    ensures HasReceived(d, inodestart, t, p, fd, got)
  {
    hide FdsOk, FilesOk, Grows, Reachable, KernelPath, Resolve, ReceivedBy, NextBytes, TookAll;
    forall f: nat | Held(t.fds, p, fd, f) ensures f < |t.files| && ReceivedBy(t.files[f], t.cache, d, inodestart, got) {
      HeldBefore(d, inodestart, s, t, call, a, p, fd, f);
      OthersKept(d, inodestart, s, t, call, a, p, fd, f);
      ReceivedGrows(s.files[f], s.cache, t.cache, d, inodestart, got);
    }
  }

  lemma HeldBefore(d: Image, inodestart: word, s: FsState, t: FsState, call: Call, a: Answer, p: nat, fd: nat, f: nat)
    requires Happens(d, inodestart, s, t, call, a) && Held(t.fds, p, fd, f)
    requires match call case OpenCall(q, _, _) => !(q == p && a.ret == fd) case _ => true
    ensures Held(s.fds, p, fd, f)
  {
    hide Grows, Reachable, KernelPath, Resolve, NextBytes, SameInEffect, TookAll;
    match call
    case OpenCall(q, path, omode) =>
      if a.ret >= 0 { HeldAfter(s.fds, q, a.ret, Some(FreeFile(s.files, 0).value)); }
    case ReadCall(q, gd, n) =>
    case CloseCall(q, gd) =>
      if HeldBy(s.fds, q, gd).Some? { HeldAfter(s.fds, q, gd, None); }
  }

  /** Over every run of calls by any processes the conservation law holds, and what a process has read through a
      descriptor since it opened it is exactly the content of the inode before the offset of the file, whatever the
      other calls were. */
  lemma {:induction false} RunDelivers(d: Image, inodestart: word, run: seq<FsState>, calls: seq<Call>,
                                       answers: seq<Answer>, p: nat, fd: nat, before: seq<byte>)
    requires CallRun(d, inodestart, run, calls, answers) && StateOk(run[0])
    requires HasReceived(d, inodestart, run[0], p, fd, before)
    ensures StateOk(run[|calls|])
    ensures HasReceived(d, inodestart, run[|calls|], p, fd, ReadSinceOpen(calls, answers, p, fd, before))
    decreases |calls|
  {
    hide Happens, HasReceived, StateOk;
    if calls != [] {
      var n := |calls| - 1;
      RunDelivers(d, inodestart, run[..n + 1], calls[..n], answers[..n], p, fd, before);
      var s, t, call, a := run[n], run[n + 1], calls[n], answers[n];
      var got := ReadSinceOpen(calls[..n], answers[..n], p, fd, before);
      CallKeepsState(d, inodestart, s, t, call, a);
      if call.p == p && (if call.OpenCall? then a.ret == fd else call.fd == fd) {
        OwnCall(d, inodestart, s, t, call, a, p, fd, got);
      } else {
        OtherCall(d, inodestart, s, t, call, a, p, fd, got);
      }
    }
  }

  /** In the last state of every run the reference count of a file is the number of descriptors that hold it, at most
      one. */
  lemma RunConserves(d: Image, inodestart: word, run: seq<FsState>, calls: seq<Call>, answers: seq<Answer>, f: nat)
    requires CallRun(d, inodestart, run, calls, answers) && StateOk(run[0]) && f < NFILE
    ensures var t := run[|calls|]; f < |t.files| && t.files[f].ref == |Holders(t.fds, f)| <= 1
  {
    FdsShape(run[0].files, run[0].fds);
    RunDelivers(d, inodestart, run, calls, answers, NPROC, 0, []);
    RefsCountHolders(run[|calls|].files, run[|calls|].fds, f);
  }

  // ---------------------------------------------------------------- a descriptor and its path

  /** Process `p` has `path` open as `fd`, and `got` is what it has received. */
  ghost predicate Reading(d: Image, inodestart: word, s: FsState, p: nat, fd: nat, path: seq<byte>, got: seq<byte>)
  {
    HasReceived(d, inodestart, s, p, fd, got)
    && HeldBy(s.fds, p, fd).Some?
    && var f := HeldBy(s.fds, p, fd).value;
      && f < |s.files| && s.files[f].ip.Some? && s.files[f].ip.value < |s.cache| && s.cache[s.files[f].ip.value].ref > 0
      && Some(s.cache[s.files[f].ip.value].inum) == Resolve(d, inodestart, Components(KernelPath(path)), ROOT_INO)
  }

  lemma OpenReads(d: Image, inodestart: word, s: FsState, t: FsState, call: Call, a: Answer)
    requires StateOk(s) && Happens(d, inodestart, s, t, call, a) && CallOk(call) && call.OpenCall? && a.ret >= 0
    ensures Reading(d, inodestart, t, call.p, a.ret, call.path, [])
  {
    hide FdsOk, FilesOk, Grows, Reachable, KernelPath, Resolve, ReceivedBy, TookAll;
    OwnCall(d, inodestart, s, t, call, a, call.p, a.ret, []);
  }

  /** A call that does not close the descriptor leaves it open on its path. */
  lemma StillReads(d: Image, inodestart: word, s: FsState, t: FsState, call: Call, a: Answer, p: nat, fd: nat,
                   path: seq<byte>, got: seq<byte>)
    requires StateOk(s) && Happens(d, inodestart, s, t, call, a) && CallOk(call) && call != CloseCall(p, fd)
    requires Reading(d, inodestart, s, p, fd, path, got)
    ensures Reading(d, inodestart, t, p, fd, path, if call.ReadCall? && call.p == p && call.fd == fd
                                                   then got + a.data else got)
    ensures call.OpenCall? && call.p == p ==> a.ret != fd
  {
    hide FdsOk, FilesOk, Grows, Reachable, KernelPath, Resolve, ReceivedBy, TookAll, HasReceived;
    var f := HeldBy(s.fds, p, fd).value;
    var ip := s.files[f].ip.value;
    if call.ReadCall? && call.p == p && call.fd == fd {
      OwnCall(d, inodestart, s, t, call, a, p, fd, got);
      GrowsAt(s.cache, t.cache, ip);
    } else {
      OtherCall(d, inodestart, s, t, call, a, p, fd, got);
      OthersKept(d, inodestart, s, t, call, a, p, fd, f);
      GrowsAt(s.cache, t.cache, ip);
    }
  }

  /** After `path` was opened as `fd` by call `k`, and while `fd` is not closed. */
  lemma {:induction false} ReadsOn(d: Image, inodestart: word, run: seq<FsState>, calls: seq<Call>,
                                   answers: seq<Answer>, k: nat, m: nat, before: seq<byte>)
    requires CallRun(d, inodestart, run, calls, answers) && StateOk(run[0])
    requires k < m <= |calls| && calls[k].OpenCall? && answers[k].ret >= 0
    requires CloseCall(calls[k].p, answers[k].ret) !in calls[k..m]
    ensures StateOk(run[m])
    ensures Reading(d, inodestart, run[m], calls[k].p, answers[k].ret, calls[k].path,
                    ReadSinceOpen(calls[..m], answers[..m], calls[k].p, answers[k].ret, before))
    decreases m
  {
    hide Happens, Reading, StateOk;
    var n := m - 1;
    var p, fd, path := calls[k].p, answers[k].ret, calls[k].path;
    assert calls[..m][..n] == calls[..n] && answers[..m][..n] == answers[..n];
    if n == k {
      RunKeepsState(d, inodestart, run, calls, answers, k);
      CallKeepsState(d, inodestart, run[k], run[m], calls[k], answers[k]);
      OpenReads(d, inodestart, run[k], run[m], calls[k], answers[k]);
    } else {
      assert calls[n] in calls[k..m] && forall call | call in calls[k..n] :: call in calls[k..m];
      ReadsOn(d, inodestart, run, calls, answers, k, n, before);
      CallKeepsState(d, inodestart, run[n], run[m], calls[n], answers[n]);
      StillReads(d, inodestart, run[n], run[m], calls[n], answers[n], p, fd, path,
                 ReadSinceOpen(calls[..n], answers[..n], p, fd, before));
    }
  }

  lemma RunKeepsState(d: Image, inodestart: word, run: seq<FsState>, calls: seq<Call>, answers: seq<Answer>, k: nat)
    requires CallRun(d, inodestart, run, calls, answers) && StateOk(run[0]) && k <= |calls|
    ensures StateOk(run[k])
    decreases k
  {
    hide Happens, StateOk;
    if k > 0 {
      RunKeepsState(d, inodestart, run, calls, answers, k - 1);
      CallKeepsState(d, inodestart, run[k - 1], run[k], calls[k - 1], answers[k - 1]);
    }
  }

  /** From path to bytes, over every run. Call `k` opened a path, and the descriptor was not closed before call `m`
      reads from it. What was read in between and now is a prefix of the content of the inode that the path resolves
      to, and all of it was read before exactly when this read comes back empty. */
  lemma PathDelivers(d: Image, inodestart: word, run: seq<FsState>, calls: seq<Call>, answers: seq<Answer>, k: nat,
                     m: nat, before: seq<byte>)
    requires CallRun(d, inodestart, run, calls, answers) && StateOk(run[0])
    requires k < m < |calls| && calls[k].OpenCall? && answers[k].ret >= 0
    requires CloseCall(calls[k].p, answers[k].ret) !in calls[k..m]
    requires calls[m].ReadCall? && calls[m].p == calls[k].p && calls[m].fd == answers[k].ret && calls[m].n > 0
    ensures var inum := Resolve(d, inodestart, Components(KernelPath(calls[k].path)), ROOT_INO);
      var got := ReadSinceOpen(calls[..m], answers[..m], calls[k].p, answers[k].ret, before);
      && inum.Some?
      && match ContentSource(d, inodestart, inum.value)
         case None => answers[m] == FAILED && got == []
         case Some(din) =>
           && answers[m].ret == |answers[m].data| && got + answers[m].data <= Content(d, din)
           && (answers[m].data == [] <==> got == Content(d, din))
  {
    hide StateOk, KernelPath, Resolve, ContentSource, Chunk, Content, Components, Grows;
    var p, fd, n := calls[k].p, answers[k].ret, calls[m].n;
    var got := ReadSinceOpen(calls[..m], answers[..m], p, fd, before);
    ReadsOn(d, inodestart, run, calls, answers, k, m, before);
    var s := run[m];
    var f := HeldBy(s.fds, p, fd).value;
    assert Happens(d, inodestart, s, run[m + 1], calls[m], answers[m]);
    assert Held(s.fds, p, fd, f) && ReceivedBy(s.files[f], s.cache, d, inodestart, got);
    if ContentSource(d, inodestart, s.cache[s.files[f].ip.value].inum).Some? {
      ReceivedAll(s.files[f], s.cache, d, inodestart, got, Min(n, KBUF));
      ReceivedMore(s.files[f], s.cache, d, inodestart, got, Min(n, KBUF));
    }
  }

  /** What a read of a file `c` answers: the next bytes, as many as asked for, at most 512, and there are. */
  lemma ReadGives(d: Image, inodestart: word, s: FsState, t: FsState, p: nat, fd: int, n: nat, a: Answer, f: nat,
                  din: Dinode, c: seq<byte>)
    requires ReadHappens(d, inodestart, s, t, p, fd, n, a) && HeldBy(s.fds, p, fd) == Some(f)
    requires f < |s.files| && s.files[f].ip.Some? && s.files[f].ip.value < |s.cache|
    requires ContentSource(d, inodestart, s.cache[s.files[f].ip.value].inum) == Some(din)
    requires FileIs(d, din, c) && s.files[f].off <= |c|
    ensures var off := s.files[f].off;
      var m := Min(Min(n, 512), |c| - off);
      a == Answer(m, c[off..off + m]) && |t.files| == |s.files| && t.files[f] == s.files[f].(off := off + m)
  {
    hide ContentSource, Chunk, Content, FileIs;
    FileIsContent(d, din, c);
    ChunkOfContent(d, din, s.files[f].off, Min(n, KBUF));
  }

  /** A path that goes on through a regular file, or through an inode that is not on the disk, cannot be opened. */
  lemma OpenNotThroughFiles(d: Image, inodestart: word, s: FsState, t: FsState, p: nat, path: seq<byte>, omode: word,
                            a: Answer, m: nat, inum: word)
    requires OpenHappens(d, inodestart, s, t, p, path, omode, a)
    requires var comps := Components(KernelPath(path));
      m < |comps| && Resolve(d, inodestart, comps[..m], ROOT_INO) == Some(inum)
    requires DinodeOn(d, inodestart, inum).None? || DinodeOn(d, inodestart, inum).value.kind != 1
    ensures a == FAILED && t.fds == s.fds
  {
    hide KernelPath, DinodeOn, Resolve, Met, TookAll, Grows, SameInEffect, Admits;
    NotThroughFiles(d, inodestart, Components(KernelPath(path)), m, ROOT_INO, inum);
  }

  // ---------------------------------------------------------------- a full cache

  lemma CallGrows(d: Image, inodestart: word, s: FsState, t: FsState, call: Call, a: Answer)
    requires Happens(d, inodestart, s, t, call, a)
    ensures Grows(s.cache, t.cache)
  {
    hide Reachable, KernelPath, Resolve, NextBytes, TookAll, SameInEffect;
    GrowsRefl(s.cache);
  }

  /** A cache that is full in some state of a run is full in every later one, with the same inodes. */
  lemma {:induction false} FullForever(d: Image, inodestart: word, run: seq<FsState>, calls: seq<Call>,
                                       answers: seq<Answer>, j: nat, k: nat)
    requires CallRun(d, inodestart, run, calls, answers) && j <= k <= |calls| && Free(run[j].cache) == 0
    ensures Live(run[k].cache) == Live(run[j].cache) && Free(run[k].cache) == 0
    decreases k
  {
    hide Happens, Live, Free, Grows;
    if j < k {
      FullForever(d, inodestart, run, calls, answers, j, k - 1);
      CallGrows(d, inodestart, run[k - 1], run[k], calls[k - 1], answers[k - 1]);
      FullStaysFull(run[k - 1].cache, run[k].cache);
    }
  }

  /** From then on an open can succeed only on a path all whose inodes were cached when the cache became full. Every
      other open fails in every later state, whatever was closed in between. */
  lemma FullOpensIff(d: Image, inodestart: word, run: seq<FsState>, calls: seq<Call>, answers: seq<Answer>, j: nat,
                     k: nat)
    requires CallRun(d, inodestart, run, calls, answers) && j <= k < |calls| && calls[k].OpenCall?
    requires Free(run[j].cache) == 0
    ensures var comps, s := Components(KernelPath(calls[k].path)), run[k];
      && calls[k].p < |s.fds|
      && (answers[k].ret >= 0 <==>
            && Resolve(d, inodestart, comps, ROOT_INO).Some?
            && Elements(Met(d, inodestart, comps)) <= Live(run[j].cache)
            && ReadOnly(calls[k].omode) && FreeFile(s.files, 0).Some? && FreeFd(s.fds[calls[k].p], 0).Some?)
      && (answers[k].ret < 0 ==> answers[k] == FAILED)
  {
    hide KernelPath, Components, Resolve, Met, Live, Free, Elements, Grows, TookAll, SameInEffect, Reachable;
    var comps := Components(KernelPath(calls[k].path));
    FullForever(d, inodestart, run, calls, answers, j, k);
    FullReachableIff(d, inodestart, run[k].cache, comps);
    assert Happens(d, inodestart, run[k], run[k + 1], calls[k], answers[k]);
  }

  // ---------------------------------------------------------------- the calls themselves

  ghost function StateOf(fs: FileLayer): FsState
    reads fs, fs.files, fs.fds, fs.inodes, fs.inodes.icache
  {
    FsState(fs.files[..], fs.fds[..], fs.inodes.icache[..])
  }

  /** One system call by the process that makes it. */
  method Do(fs: FileLayer, call: Call) returns (a: Answer)
    requires fs.Valid() && CallOk(call)
    modifies fs, fs.inodes`igets, fs.inodes.icache, fs.files, fs.fds
    ensures fs.Valid() && Happens(fs.inodes.D(), fs.inodes.inodestart, old(StateOf(fs)), StateOf(fs), call, a)
  {
    fs.current := call.p;
    match call
    case OpenCall(_, path, omode) => a := DoOpen(fs, path, omode);
    case ReadCall(_, fd, n) => a := DoRead(fs, fd, n);
    case CloseCall(_, fd) => a := DoClose(fs, fd);
  }

  method DoOpen(fs: FileLayer, path: seq<byte>, omode: word) returns (a: Answer)
    requires fs.Valid() && (PATH_MAX - 1 <= |path| || 0 in path)
    modifies fs.inodes`igets, fs.inodes.icache, fs.files, fs.fds
    ensures fs.Valid()
    ensures OpenHappens(fs.inodes.D(), fs.inodes.inodestart, old(StateOf(fs)), StateOf(fs), fs.current, path, omode, a)
  {
    hide CacheOk, FdsOk, FilesOk, RootAvailable, Grows, SameInEffect, Live, KernelPath, Reachable, Resolve, Components,
      FreeFd, TookAll, Met;
    FdsShape(fs.files[..], fs.fds[..]);
    var fd := fs.SysOpen(path, omode);
    if fd >= 0 {
      HeldReady(fs.files[..], fs.fds[..], fs.inodes.icache[..], fs.current, fd, fs.fds[fs.current][fd].value);
    }
    return Answer(fd, []);
  }

  method DoRead(fs: FileLayer, fd: int, n: word) returns (a: Answer)
    requires fs.Valid()
    modifies fs.inodes.icache, fs.files
    ensures fs.Valid()
    ensures ReadHappens(fs.inodes.D(), fs.inodes.inodestart, old(StateOf(fs)), StateOf(fs), fs.current, fd, n, a)
  {
    hide CacheOk, FdsOk, FilesOk, RootAvailable, Grows, Chunk, ContentSource;
    FdsShape(fs.files[..], fs.fds[..]);
    var buf := new byte[KBUF];
    ghost var f := fs.FileOf(fd);
    if f.Some? {
      HeldReady(fs.files[..], fs.fds[..], fs.inodes.icache[..], fs.current, fd, f.value);
    }
    var r := fs.SysRead(fd, buf, n);
    if r < 0 {
      return FAILED;
    }
    return Answer(r, buf[..r]);
  }

  method DoClose(fs: FileLayer, fd: int) returns (a: Answer)
    requires fs.Valid()
    modifies fs.files, fs.fds
    ensures fs.Valid() && CloseHappens(old(StateOf(fs)), StateOf(fs), fs.current, fd, a)
  {
    hide CacheOk, FdsOk, FilesOk, RootAvailable;
    FdsShape(fs.files[..], fs.fds[..]);
    var r := fs.SysClose(fd);
    return Answer(r, []);
  }

  lemma RunMore(d: Image, inodestart: word, run: seq<FsState>, calls: seq<Call>, answers: seq<Answer>, t: FsState,
                call: Call, a: Answer)
    requires CallRun(d, inodestart, run, calls, answers) && CallOk(call)
    requires Happens(d, inodestart, run[|calls|], t, call, a)
    ensures CallRun(d, inodestart, run + [t], calls + [call], answers + [a])
  {
    hide Happens;
  }

  lemma NoCalls(d: Image, inodestart: word, s: FsState)
    ensures CallRun(d, inodestart, [s], [], [])
  {
  }

  /** The system calls of a run one after another, with the answer of each. */
  method Run(fs: FileLayer, calls: seq<Call>) returns (answers: seq<Answer>, ghost run: seq<FsState>)
    requires fs.Valid() && forall k | 0 <= k < |calls| :: CallOk(calls[k])
    modifies fs, fs.inodes`igets, fs.inodes.icache, fs.files, fs.fds
    ensures fs.Valid() && CallRun(fs.inodes.D(), fs.inodes.inodestart, run, calls, answers)
    ensures run[0] == old(StateOf(fs)) && run[|calls|] == StateOf(fs)
  {
    hide Happens, CallRun, CacheOk, FdsOk, FilesOk, RootAvailable, StateOf;
    answers, run := [], [StateOf(fs)];
    NoCalls(fs.inodes.D(), fs.inodes.inodestart, StateOf(fs));
    for k := 0 to |calls|
      invariant fs.Valid() && |run| == k + 1 && run[0] == old(StateOf(fs)) && run[k] == StateOf(fs)
      invariant CallRun(fs.inodes.D(), fs.inodes.inodestart, run, calls[..k], answers)
    {
      var a := Do(fs, calls[k]);
      RunMore(fs.inodes.D(), fs.inodes.inodestart, run, calls[..k], answers, StateOf(fs), calls[k], a);
      assert calls[..k + 1] == calls[..k] + [calls[k]];
      answers, run := answers + [a], run + [StateOf(fs)];
    }
    assert calls[..|calls|] == calls;
  }

  // ---------------------------------------------------------------- reading a file to its end

  /** A program that opens a path, reads with any positive sizes until a read returns 0, and closes. It gets the content
      of the inode that resolution on the raw disk gives for the path as the kernel sees it, and leaves both tables as
      they were in effect; it gets nothing when the open cannot succeed or the inode is not on the disk. */
  method ReadToEnd(fs: FileLayer, path: seq<byte>, sizes: nat -> word) returns (r: Option<seq<byte>>)
    requires fs.Valid() && (PATH_MAX - 1 <= |path| || 0 in path)
    requires forall i: nat :: sizes(i) > 0
    modifies fs.inodes`igets, fs.inodes.icache, fs.files, fs.fds
    ensures fs.Valid() && fs.fds[..] == old(fs.fds[..]) && SameInEffect(old(fs.files[..]), fs.files[..])
    ensures !old(fs.CanOpen(KernelPath(path), O_RDONLY)) ==> r.None?
    ensures old(fs.CanOpen(KernelPath(path), O_RDONLY)) ==>
      var inum := Resolve(fs.inodes.D(), fs.inodes.inodestart, Components(KernelPath(path)), ROOT_INO);
      && inum.Some?
      && match ContentSource(fs.inodes.D(), fs.inodes.inodestart, inum.value)
         case None => r.None?
         case Some(din) => r == Some(Content(fs.inodes.D(), din)) && FileIs(fs.inodes.D(), din, r.value)
  {
    hide CacheOk, FdsOk, FilesOk, RootAvailable, ReceivedBy, FileIs, Grows, SameInEffect, Chunk, ContentSource, Content,
      Live, KernelPath, Reachable, FreeFd, Resolve, FreeFile, TookAll, Met;
    ghost var files0, fds0 := fs.files[..], fs.fds[..];
    FdsShape(files0, fds0);
    var fd := fs.SysOpen(path, O_RDONLY);
    if fd < 0 {
      return None;
    }
    ghost var f := fs.fds[fs.current][fd].value;
    assert fs.FileOf(fd) == Some(f) && fs.files[f] == Opened(fs.files[f].ip.value);
    HeldReady(fs.files[..], fs.fds[..], fs.inodes.icache[..], fs.current, fd, f);
    var out := ReadAll(fs, fd, f, sizes);
    ghost var files2 := fs.files[..];
    var _ := fs.SysClose(fd);
    assert files2 == files0[f := files2[f]];
    OpenThenClose(files0, fds0, fs.current, fd, f, files2[f]);
    return out;
  }

  /** One read on a descriptor of the running process. */
  method ReadMore(fs: FileLayer, fd: nat, ghost f: nat, n: word) returns (r: Option<seq<byte>>)
    requires fs.Valid() && fs.FileOf(fd) == Some(f) && FileReady(fs.files[..], fs.inodes.icache[..], f)
    modifies fs.inodes.icache, fs.files
    ensures fs.Valid() && FileReady(fs.files[..], fs.inodes.icache[..], f) && fs.InumOf(f) == old(fs.InumOf(f))
    ensures match ContentSource(fs.inodes.D(), fs.inodes.inodestart, old(fs.InumOf(f)))
      case None => r.None? && fs.files[..] == old(fs.files[..])
      case Some(din) =>
        && r == Some(Chunk(fs.inodes.D(), din, old(fs.files[f]).off, Min(n, KBUF)))
        && fs.files[..] == old(fs.files[..])[f := old(fs.files[f]).(off := old(fs.files[f]).off + |r.value|)]
  {
    hide CacheOk, FdsOk, FilesOk, RootAvailable, Grows, Chunk, ContentSource;
    var buf := new byte[KBUF];
    ghost var c, ip := fs.inodes.icache[..], fs.files[f].ip.value;
    DeliveredFits(fs.inodes.D(), fs.inodes.inodestart, fs.InumOf(f), fs.files[f].off, Min(n, KBUF));
    var got := fs.SysRead(fd, buf, n);
    GrowsAt(c, fs.inodes.icache[..], ip);
    if got < 0 {
      return None;
    }
    return Some(buf[..got]);
  }

  /** The file table with file `f` at another offset. */
  function AtOffset(files: seq<File>, f: nat, off: word): seq<File>
    requires f < |files|
  {
    files[f := files[f].(off := off)]
  }

  lemma OffsetMoves(files: seq<File>, f: nat, off: word)
    requires f < |files|
    ensures var now := AtOffset(files, f, off);
      && |now| == |files| && now[f].off == off && files[f := now[f]] == now
      && forall off': word {:trigger AtOffset(files, f, off')} ::
        AtOffset(files, f, off') == now[f := now[f].(off := off')]
    ensures AtOffset(files, f, files[f].off) == files
  {
  }

  /** The reads between open and close. */
  method ReadAll(fs: FileLayer, fd: nat, ghost f: nat, sizes: nat -> word) returns (r: Option<seq<byte>>)
    requires fs.Valid() && fs.FileOf(fd) == Some(f) && FileReady(fs.files[..], fs.inodes.icache[..], f)
      && fs.files[f].off == 0
    requires forall i: nat :: sizes(i) > 0
    modifies fs.inodes.icache, fs.files
    ensures fs.Valid() && fs.files[..] == old(fs.files[..])[f := fs.files[f]]
    ensures match ContentSource(fs.inodes.D(), fs.inodes.inodestart, old(fs.InumOf(f)))
      case None => r.None?
      case Some(din) => r == Some(Content(fs.inodes.D(), din)) && FileIs(fs.inodes.D(), din, r.value)
  {
    hide CacheOk, FdsOk, FilesOk, RootAvailable, Grows, Chunk, ContentSource, Content, AtOffset, FileLayer.FileOf,
      FileIs;
    ghost var d, source := fs.inodes.D(), ContentSource(fs.inodes.D(), fs.inodes.inodestart, fs.InumOf(f));
    ghost var files0 := fs.files[..];
    OffsetMoves(files0, f, 0);
    var out: seq<byte> := [];
    var i := 0;
    ghost var content := if source.Some? then Content(d, source.value) else [];
    if source.Some? { ContentBound(d, source.value); }
    while true
      invariant fs.Valid() && fs.FileOf(fd) == Some(f)
      invariant |out| <= |content| <= NDIRECT * BSIZE && out == content[..|out|]
      invariant fs.files[..] == AtOffset(files0, f, |out|)
      invariant FileReady(fs.files[..], fs.inodes.icache[..], f) && fs.InumOf(f) == old(fs.InumOf(f))
      decreases |content| - |out|
    {
      OffsetMoves(files0, f, |out|);
      var n := sizes(i);
      var got := ReadMore(fs, fd, f, n);
      if got.None? {
        return None;
      }
      ChunkOfContent(d, source.value, |out|, Min(n, KBUF));
      MoreOut(content, out, got.value, Min(n, KBUF));
      if |got.value| == 0 {
        FileIsContent(d, source.value, out);
        return Some(out);
      }
      out := out + got.value;
      i := i + 1;
    }
  }

  /** The next bytes of a content, and when there are none. */
  lemma MoreOut(content: seq<byte>, out: seq<byte>, more: seq<byte>, n: nat)
    requires |out| <= |content| && out == content[..|out|] && n > 0
    requires more == content[|out|..Min(|out| + n, |content|)]
    ensures |out + more| <= |content| && out + more == content[..|out + more|]
    ensures more == [] ==> out == content
  {
  }

  lemma GrowsAt(c: Cache, c': Cache, i: nat)
    requires Grows(c, c') && i < |c| && c[i].ref > 0
    ensures |c'| == |c| && c'[i].ref > 0 && c'[i].inum == c[i].inum
  {
  }
}
