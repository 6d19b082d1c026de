/** Whole runs of the kernel from boot: processes are created, the scheduler is started, the
    running process changes its registers and its memory and yields. Address spaces and
    scheduling are looked at together. */
module KernelRuns {
  import opened Memory
  import opened Sv32
  import opened AddressSpace
  import opened Isolation
  import opened Mmu
  import opened Process
  import Sched
  import UserMemory

  datatype KState = KState(snap: Snapshot, sys: Sched.System)

  datatype KEvent =
    | Spawn(image: Mem, entry: word, arg: word, trampoline: word)
    | Start
    | YieldCpu
    | Registers(file: Sched.Context)
    | Store(va: word, b: byte)

  /** Both views show one process table. */
  predicate Coherent(s: KState)
  {
    s.snap.procs == s.sys.procs && s.snap.nextPid == s.sys.nextPid
  }

  ghost predicate Spawns(lay: Layout, s: KState, t: KState, image: Mem, slot: nat, birth: Sched.Birth)
    requires LayoutOk(lay)
  {
    && Sched.WellIndexed(s.sys) && Sched.Create(s.sys, birth) == Done(t.sys)
    && Created(lay, s.snap, t.snap, slot, image)
  }

  ghost predicate Happens(lay: Layout, s: KState, t: KState, e: KEvent)
    requires LayoutOk(lay)
  {
    && Coherent(t) && Sched.WellIndexed(s.sys)
    && match e
       case Spawn(image, entry, arg, trampoline) =>
         exists slot: nat, birth: Sched.Birth :: Spawns(lay, s, t, image, slot, birth)
           && birth.entry == entry && birth.arg == arg && birth.trampoline == trampoline
       case Start => s.sys.current.None? && Sched.Start(s.sys) == Done(t.sys) && t.snap == s.snap.(procs := t.sys.procs)
       case YieldCpu => s.sys.current.Some? && Sched.Yield(s.sys) == Done(t.sys)
         && t.snap == s.snap.(procs := t.sys.procs)
       case Registers(file) => s.sys.current.Some? && t == s.(sys := s.sys.(regs := file))
       case Store(va, b) =>
         s.sys.current.Some? && t.sys == s.sys && UserMemory.Stores(s.snap, t.snap, s.sys.current.value, va, b)
  }

  /** After proc_init: no process, no page in use. */
  ghost predicate Booted(s: KState)
  {
    && Coherent(s) && Sched.WellIndexed(s.sys) && s.sys.current.None?
    && (forall i | 0 <= i < Sched.PROC_MAX :: s.sys.procs[i].state == Sched.Unused)
    && s.snap.uses == map[] && s.snap.next % PAGE_SIZE == 0
  }

  ghost predicate KernelRun(lay: Layout, run: seq<KState>, es: seq<KEvent>)
    requires LayoutOk(lay)
  {
    |run| == |es| + 1 && forall k: nat | k < |es| :: Happens(lay, run[k], run[k + 1], es[k])
  }

  ghost predicate Sound(lay: Layout, s: KState)
  {
    Coherent(s) && Isolated(lay, s.snap) && Sched.Ok(s.sys)
  }

  /** The same event as the address spaces see it. */
  function SpaceEvent(s: KState, e: KEvent): UserMemory.Event
  {
    match e
    case Spawn(image, _, _, _) => UserMemory.Create(image)
    case Store(va, b) =>
      if s.sys.current.Some? then UserMemory.Store(s.sys.current.value, va, b) else UserMemory.Schedule
    case _ => UserMemory.Schedule
  }

  lemma BootedSound(lay: Layout, s: KState)
    requires Booted(s)
    ensures Sound(lay, s)
  {
  }

  /** An event of the kernel is an event of the address spaces. */
  lemma EventOfSpaces(lay: Layout, s: KState, t: KState, e: KEvent)
    requires LayoutOk(lay) && Sound(lay, s) && Happens(lay, s, t, e)
    ensures UserMemory.Happens(lay, s.snap, t.snap, SpaceEvent(s, e))
  {
    hide LayoutOk, Isolated, Created, UserMemory.Stores, Sched.Create, SameSpaces;
    match e
    case Spawn(image, _, _, _) =>
      var slot: nat, birth: Sched.Birth :| Spawns(lay, s, t, image, slot, birth);
      assert Created(lay, s.snap, t.snap, slot, image);
    case Start => StartKeepsSpaces(s.sys);
    case YieldCpu => YieldKeepsSpaces(s.sys);
    case Registers(file) => SameSpacesRefl(s.sys.procs);
    case Store(va, b) =>
  }

  lemma SameSpacesRefl(procs: seq<Sched.Proc>)
    ensures SameSpaces(procs, procs)
  {
  }

  lemma EventKeepsSound(lay: Layout, s: KState, t: KState, e: KEvent)
    requires LayoutOk(lay) && Sound(lay, s) && Happens(lay, s, t, e)
    ensures Sound(lay, t)
  {
    EventOfSpaces(lay, s, t, e);
    SpacesKeepIsolation(lay, s.snap, t.snap, SpaceEvent(s, e));
    hide LayoutOk, Isolated, Created, UserMemory.Stores, Sched.Create, SameSpaces;
    match e
    case Spawn(image, _, _, _) =>
      var slot: nat, birth: Sched.Birth :| Spawns(lay, s, t, image, slot, birth);
      Sched.CreateKeepsOk(s.sys, birth);
    case Start => Sched.StartOk(s.sys);
    case YieldCpu => Sched.YieldSimulates(s.sys);
    case Registers(file) => Sched.WriteSimulates(s.sys, file);
    case Store(va, b) =>
  }

  lemma SpacesKeepIsolation(lay: Layout, s: Snapshot, t: Snapshot, e: UserMemory.Event)
    requires LayoutOk(lay) && Isolated(lay, s) && UserMemory.Happens(lay, s, t, e)
    ensures Isolated(lay, t)
  {
    hide Isolated, Created, SameSpaces, UserMemory.Stores;
    match e
    case Create(image) =>
      var i: nat :| Created(lay, s, t, i, image);
      CreationIsolates(lay, s, t, i, image);
    case Store(i, va, b) => UserMemory.StoreKeepsSpaces(lay, s, t, i, va, b);
    case Schedule => SchedulingKeepsIsolation(lay, s, t.procs);
  }

  /** In every state of every run from boot the address spaces are isolated and the scheduler's invariant holds. */
  lemma {:induction false} RunSound(lay: Layout, run: seq<KState>, es: seq<KEvent>, k: nat)
    requires LayoutOk(lay) && KernelRun(lay, run, es) && Booted(run[0]) && k < |run|
    ensures Sound(lay, run[k])
  {
    hide Sound, Happens, Booted;
    if k == 0 {
      BootedSound(lay, run[0]);
    } else {
      RunSound(lay, run, es, k - 1);
      EventKeepsSound(lay, run[k - 1], run[k], es[k - 1]);
    }
  }

  /** In every state of every run the hardware translates, through satp, as the current process's address space says,
      and sscratch is the top of its kernel stack. */
  lemma RunTranslates(lay: Layout, run: seq<KState>, es: seq<KEvent>, k: nat, va: word)
    requires LayoutOk(lay) && KernelRun(lay, run, es) && Booted(run[0]) && k < |run| && run[k].sys.current.Some?
    ensures Sched.Ok(run[k].sys)
    ensures var s := run[k]; var p := s.sys.procs[s.sys.current.value];
      && p.pid in s.snap.frames
      && Walk(s.snap.mem, Sched.SatpRoot(s.sys.satp), va) == SpaceView(lay, s.snap.frames[p.pid], va)
      && s.sys.sscratch == p.kstackBase + PAGE_SIZE && UseOf(s.snap.uses, p.kstackBase) == Stack(p.pid)
  {
    hide Isolated, Walk, SpaceView, KernelRun, Booted;
    RunSound(lay, run, es, k);
    CurrentTranslation(lay, run[k].snap, run[k].sys, va);
  }

  function Snaps(run: seq<KState>): (snaps: seq<Snapshot>)
    ensures |snaps| == |run| && forall k | 0 <= k < |run| :: snaps[k] == run[k].snap
  {
    if run == [] then [] else [run[0].snap] + Snaps(run[1..])
  }

  function SpaceEvents(run: seq<KState>, es: seq<KEvent>): (us: seq<UserMemory.Event>)
    requires |run| > |es|
    ensures |us| == |es| && forall k | 0 <= k < |es| :: us[k] == SpaceEvent(run[k], es[k])
  {
    if es == [] then [] else [SpaceEvent(run[0], es[0])] + SpaceEvents(run[1..], es[1..])
  }

  /** From any state of any run on, a process reads at each of its user addresses what it has stored there itself since,
      while it was the current process, or else what was there. */
  lemma RunOwnMemory(lay: Layout, run: seq<KState>, es: seq<KEvent>, k: nat, j: nat, w: word)
    requires LayoutOk(lay) && KernelRun(lay, run, es) && Booted(run[0]) && k < |run|
    requires Live(run[k].snap, j) && UserMapped(run[k].snap, j, w)
    ensures var s, t := run[k].snap, run[|es|].snap;
      && Live(t, j)
      && ReadVirtual(t.mem, t.procs[j].pagetable, w)
         == UserMemory.LastStored(SpaceEvents(run[k..], es[k..]), j, w, ReadVirtual(s.mem, s.procs[j].pagetable, w))
  {
    hide Isolated, UserMapped, ReadVirtual, Happens, UserMemory.Happens, Booted, Live, Snaps, SpaceEvents, SpaceEvent;
    var rest, later := run[k..], es[k..];
    forall i: nat | i < |later|
      ensures UserMemory.Happens(lay, rest[i].snap, rest[i + 1].snap, SpaceEvent(rest[i], later[i])) {
      RunSound(lay, run, es, k + i);
      EventOfSpaces(lay, rest[i], rest[i + 1], later[i]);
    }
    RunSound(lay, run, es, k);
    UserMemory.OwnMemory(lay, Snaps(rest), SpaceEvents(rest, later), j, w);
  }

  // ---------------------------------------------------------------- the registers of each process over runs

  /** What a creation gives: the first unused slot is filled, with the registers asked for. */
  lemma SpawnGives(lay: Layout, s: KState, t: KState, e: KEvent)
    requires LayoutOk(lay) && Sound(lay, s) && Happens(lay, s, t, e) && e.Spawn?
    ensures Sched.WellIndexed(s.sys) && Sched.WellIndexed(t.sys)
    ensures t.sys.current == s.sys.current && t.sys.regs == s.sys.regs
    ensures var n := Sched.FirstIn(s.sys.procs, Sched.Unused, 0);
      && n.Some?
      && t.sys.procs[n.value].state == Sched.Ready && t.sys.procs[n.value].kstackBase + 4096 < WORD_LIMIT
      && Sched.FreshRegisters(t.sys.procs[n.value].context, e.entry, e.arg, e.trampoline,
                              t.sys.procs[n.value].kstackBase + 4096)
      && forall i | 0 <= i < Sched.PROC_MAX && i != n.value :: t.sys.procs[i] == s.sys.procs[i]
  {
    hide LayoutOk, Isolated, Sched.Ok, Sched.Create, Sched.FreshRegisters;
    var slot: nat, birth: Sched.Birth :| Spawns(lay, s, t, e.image, slot, birth)
      && birth.entry == e.entry && birth.arg == e.arg && birth.trampoline == e.trampoline;
    CreatedStack(lay, s.snap, t.snap, slot, e.image);
    BirthStack(s.sys, birth);
    Sched.CreateRegisters(s.sys, birth);
  }

  /** The stack of a created process lies in memory. */
  lemma CreatedStack(lay: Layout, s: Snapshot, t: Snapshot, slot: nat, image: Mem)
    requires LayoutOk(lay) && Created(lay, s, t, slot, image)
    ensures slot < |s.procs| == |t.procs| && s.procs[slot].state == Sched.Unused
    ensures t.procs[slot].state == Sched.Ready && t.procs[slot].kstackTop == t.procs[slot].kstackBase + PAGE_SIZE
  {
    hide LayoutOk;
  }

  /** The one slot that a creation fills has the stack it was given. */
  lemma BirthStack(s: Sched.System, birth: Sched.Birth)
    requires Sched.WellIndexed(s) && Sched.Create(s, birth).Done?
    ensures forall i | 0 <= i < Sched.PROC_MAX
      && s.procs[i].state == Sched.Unused && Sched.Create(s, birth).value.procs[i].state == Sched.Ready ::
        var p := Sched.Create(s, birth).value.procs[i];
        p.kstackTop == p.kstackBase + PAGE_SIZE ==> birth.kstack + 4096 < WORD_LIMIT
  {
  }

  /** One event changes the registers of a process only if it is current and changes them itself. */
  lemma EventKeepsRegisters(lay: Layout, s: KState, t: KState, e: KEvent, j: nat)
    requires LayoutOk(lay) && Sound(lay, s) && Happens(lay, s, t, e)
    requires j < Sched.PROC_MAX && s.sys.procs[j].state != Sched.Unused
    ensures Sched.WellIndexed(t.sys) && t.sys.procs[j].state != Sched.Unused
    ensures t.sys.procs[j].kstackBase == s.sys.procs[j].kstackBase
    ensures Sched.FileOf(t.sys, j)
            == if e.Registers? && s.sys.current == Some(j) then e.file else Sched.FileOf(s.sys, j)
  {
    hide LayoutOk, Isolated, Sched.Yield, Sched.Start, Sched.Create, UserMemory.Stores, Created, Sched.FreshRegisters;
    EventKeepsSound(lay, s, t, e);
    match e
    case Spawn(_, _, _, _) => SpawnGives(lay, s, t, e);
    case Start =>
      Sched.StartOk(s.sys);
      StartKeepsSpaces(s.sys);
    case YieldCpu =>
      Sched.YieldSimulates(s.sys);
      YieldKeepsSpaces(s.sys);
      SameFile(s.sys, t.sys, j);
    case Registers(file) =>
    case Store(va, b) =>
  }

  /** Equal private files are equal registers. */
  lemma SameFile(s: Sched.System, t: Sched.System, j: nat)
    requires Sched.WellIndexed(s) && Sched.WellIndexed(t) && s.current.Some? && t.current.Some?
    requires Sched.Abs(s).files == Sched.Abs(t).files && j < Sched.PROC_MAX && s.procs[j].state != Sched.Unused
    ensures t.procs[j].state != Sched.Unused && Sched.FileOf(t, j) == Sched.FileOf(s, j)
  {
    assert j in Sched.Abs(s).files && j in Sched.Abs(t).files;
  }

  /** The registers that process `j` has left behind itself between states `k` and `m` of a run, or those it had. */
  function LastLeft(run: seq<KState>, es: seq<KEvent>, k: nat, m: nat, j: nat, before: Sched.Context): Sched.Context
    requires k <= m <= |es| < |run|
    decreases m
  {
    if m == k then before
    else match es[m - 1]
      case Registers(file) => if run[m - 1].sys.current == Some(j) then file else LastLeft(run, es, k, m - 1, j, before)
      case _ => LastLeft(run, es, k, m - 1, j, before)
  }

  /** In every run a process has at any time the registers that it left itself when it last ran, whatever ran in
      between, before the scheduler is started as after. */
  lemma {:induction false} RunOwnRegisters(lay: Layout, run: seq<KState>, es: seq<KEvent>, k: nat, m: nat, j: nat)
    requires LayoutOk(lay) && KernelRun(lay, run, es) && Booted(run[0]) && k <= m < |run|
    requires Coherent(run[k]) && j < |run[k].sys.procs| && run[k].sys.procs[j].state != Sched.Unused
    ensures Sched.WellIndexed(run[m].sys) && j < Sched.PROC_MAX && run[m].sys.procs[j].state != Sched.Unused
    ensures run[m].sys.procs[j].kstackBase == run[k].sys.procs[j].kstackBase
    ensures Sched.FileOf(run[m].sys, j) == LastLeft(run, es, k, m, j, Sched.FileOf(run[k].sys, j))
    decreases m
  {
    hide LayoutOk, Happens, Booted, Isolated, Sched.FileOf;
    RunSound(lay, run, es, k);
    if k < m {
      RunOwnRegisters(lay, run, es, k, m - 1, j);
      RunSound(lay, run, es, m - 1);
      EventKeepsRegisters(lay, run[m - 1], run[m], es[m - 1], j);
    }
  }

  /** The process that event `k` creates, in the first unused slot `n`, finds on the CPU when it first gets it: its
      trampoline to return to, its stack, its entry point and its argument, and zeros. Until then they are kept for
      it. */
  lemma FirstTimeOnCpu(lay: Layout, run: seq<KState>, es: seq<KEvent>, k: nat, m: nat, n: nat)
    requires LayoutOk(lay) && KernelRun(lay, run, es) && Booted(run[0]) && k < m < |run| && es[k].Spawn?
    requires n < |run[k].sys.procs| && run[k].sys.procs[n].state == Sched.Unused
    requires forall i | 0 <= i < n :: run[k].sys.procs[i].state != Sched.Unused
    requires forall i | k < i < m :: run[i].sys.current != Some(n)
    ensures n < |run[m].sys.procs| && run[m].sys.procs[n].kstackBase + 4096 < WORD_LIMIT
    ensures var t, e := run[m].sys, es[k];
      Sched.FreshRegisters(if t.current == Some(n) then t.regs else t.procs[n].context, e.entry, e.arg, e.trampoline,
                           t.procs[n].kstackBase + 4096)
  {
    hide LayoutOk, Happens, Booted, Isolated, Sched.FreshRegisters;
    RunSound(lay, run, es, k);
    SpawnGives(lay, run[k], run[k + 1], es[k]);
    RunSound(lay, run, es, k + 1);
    RunOwnRegisters(lay, run, es, k + 1, m, n);
    NothingLeft(run, es, k + 1, m, n, Sched.FileOf(run[k + 1].sys, n));
  }

  lemma {:induction false} NothingLeft(run: seq<KState>, es: seq<KEvent>, k: nat, m: nat, j: nat,
                                       before: Sched.Context)
    requires k <= m <= |es| < |run| && forall i | k <= i < m :: run[i].sys.current != Some(j)
    ensures LastLeft(run, es, k, m, j, before) == before
    decreases m
  {
    if k < m { NothingLeft(run, es, k, m - 1, j, before); }
  }

  // ---------------------------------------------------------------- the routines themselves

  datatype KCall =
    | CreateCall(entry: word, arg: word, trampoline: word, name: Option<seq<byte>>, image: nat, size: nat)
    | StartCall
    | YieldCall
    | RegistersCall(file: Sched.Context)

  predicate CallOk(lay: Layout, call: KCall)
    requires LayoutOk(lay)
  {
    call.CreateCall? ==>
      && call.image + call.size <= lay.freeRam && ImageFits(lay, call.size)
      && (call.name.Some? ==> PROC_NAME_MAX - 1 <= |call.name.value| || 0 in call.name.value)
  }

  /** The scheduler is started once, and only then do processes run. */
  predicate Ordered(calls: seq<KCall>, started: bool)
  {
    calls == []
    || match calls[0]
       case CreateCall(_, _, _, _, _, _) => Ordered(calls[1..], started)
       case StartCall => !started && Ordered(calls[1..], true)
       case YieldCall => started && Ordered(calls[1..], started)
       case RegistersCall(_) => started && Ordered(calls[1..], started)
  }

  /** The event that a call is, when it does not panic. */
  function EventOf(s: KState, call: KCall): KEvent
  {
    match call
    case CreateCall(entry, arg, trampoline, _, image, size) =>
      Spawn(if image + size <= |s.snap.mem| then s.snap.mem[image..image + size] else [], entry, arg, trampoline)
    case StartCall => Start
    case YieldCall => YieldCpu
    case RegistersCall(file) => Registers(file)
  }

  /** When a call panics: the table is full or memory is short for a creation, nothing is ready for the start. */
  predicate Panics(lay: Layout, s: KState, call: KCall)
    requires LayoutOk(lay)
  {
    match call
    case CreateCall(_, _, _, _, _, size) =>
      || Sched.FirstIn(s.sys.procs, Sched.Unused, 0).None?
      || s.snap.next + PAGE_SIZE * CreateCost(lay, size) > lay.freeRamEnd
    case StartCall => Sched.FirstIn(s.sys.procs, Sched.Ready, 0).None?
    case _ => false
  }

  ghost function StateOf(k: Kernel): KState
    reads k, k.procs, k.machine, k.machine.ram
  {
    KState(k.Snap(), k.Sys())
  }

  method DoCreate(k: Kernel, call: KCall) returns (r: Outcome<()>)
    requires k.Valid() && Sched.Ok(k.Sys()) && call.CreateCall? && CallOk(k.machine.lay, call)
    modifies k, k.procs, k.machine, k.machine.ram
    ensures r.Panic? <==> Panics(k.machine.lay, old(StateOf(k)), call)
    ensures r.Done? ==>
      && k.Valid() && Sched.Ok(k.Sys()) && k.current == old(k.current)
      && Happens(k.machine.lay, old(StateOf(k)), StateOf(k), EventOf(old(StateOf(k)), call))
  {
    hide Isolated, Sched.Ok, Created, Sched.Create, CreateCost, ImageFits, Happens, StoredName, Sched.FreshRegisters;
    SysIndexed(k.Sys());
    ghost var s := StateOf(k);
    assert k.machine.lay.freeRam <= k.machine.lay.freeRamEnd;
    var pid, slot, birth := k.ProcCreate(call.entry, call.arg, call.trampoline, call.name, call.image, call.size);
    if pid.Panic? {
      return Panic;
    }
    CreateKeepsCurrent(s.sys, birth);
    SpawnHappens(k.machine.lay, s, StateOf(k), EventOf(s, call).image, slot, birth);
    return Done(());
  }

  lemma SpawnHappens(lay: Layout, s: KState, t: KState, image: Mem, slot: nat, birth: Sched.Birth)
    requires LayoutOk(lay) && Coherent(t) && Spawns(lay, s, t, image, slot, birth)
    ensures Happens(lay, s, t, Spawn(image, birth.entry, birth.arg, birth.trampoline))
  {
    hide Spawns, LayoutOk, Coherent;
    assert Sched.WellIndexed(s.sys) by { SpawnsIndexed(lay, s, t, image, slot, birth); }
  }

  lemma SpawnsIndexed(lay: Layout, s: KState, t: KState, image: Mem, slot: nat, birth: Sched.Birth)
    requires LayoutOk(lay) && Spawns(lay, s, t, image, slot, birth)
    ensures Sched.WellIndexed(s.sys)
  {
  }

  method DoStart(k: Kernel) returns (r: Outcome<()>)
    requires k.Valid() && Sched.Ok(k.Sys()) && k.current.None?
    modifies k, k.procs
    ensures r.Panic? <==> Panics(k.machine.lay, old(StateOf(k)), StartCall)
    ensures r.Done? ==>
      && k.Valid() && Sched.Ok(k.Sys()) && k.current.Some?
      && Happens(k.machine.lay, old(StateOf(k)), StateOf(k), Start)
  {
    hide Isolated, Sched.Ok, Sched.Start;
    SysIndexed(k.Sys());
    StartPanics(k.Sys());
    r := k.SchedulerStart();
  }

  method DoYield(k: Kernel) returns (r: Outcome<()>)
    requires k.Valid() && Sched.Ok(k.Sys()) && k.current.Some?
    modifies k, k.procs
    ensures r.Done? && k.Valid() && Sched.Ok(k.Sys()) && k.current.Some?
    ensures Happens(k.machine.lay, old(StateOf(k)), StateOf(k), YieldCpu)
  {
    hide Isolated, Sched.Ok, Sched.Yield;
    SysIndexed(k.Sys());
    r := k.YieldNow();
  }

  method DoRegisters(k: Kernel, file: Sched.Context)
    requires k.Valid() && Sched.Ok(k.Sys()) && k.current.Some?
    modifies k
    ensures k.Valid() && Sched.Ok(k.Sys()) && k.current.Some?
    ensures Happens(k.machine.lay, old(StateOf(k)), StateOf(k), Registers(file))
  {
    hide Isolated, Sched.Ok;
    ghost var s := StateOf(k);
    SysIndexed(s.sys);
    k.regs := file;
    Sched.WriteSimulates(s.sys, file);
  }

  /** One call. */
  method Do(k: Kernel, call: KCall) returns (r: Outcome<()>)
    requires k.Valid() && Sched.Ok(k.Sys()) && CallOk(k.machine.lay, call)
    requires call.StartCall? ==> k.current.None?
    requires call.YieldCall? || call.RegistersCall? ==> k.current.Some?
    modifies k, k.procs, k.machine, k.machine.ram
    ensures r.Panic? <==> Panics(k.machine.lay, old(StateOf(k)), call)
    ensures r.Done? ==>
      && k.Valid() && Sched.Ok(k.Sys())
      && Happens(k.machine.lay, old(StateOf(k)), StateOf(k), EventOf(old(StateOf(k)), call))
      && (k.current.Some? <==> old(k.current.Some?) || call.StartCall?)
  {
    hide Isolated, Sched.Ok, Sched.Create, Sched.Yield, Sched.Start, CreateCost, ImageFits, Happens;
    match call
    case CreateCall(_, _, _, _, _, _) =>
      r := DoCreate(k, call);
    case StartCall =>
      r := DoStart(k);
    case YieldCall =>
      r := DoYield(k);
    case RegistersCall(file) =>
      DoRegisters(k, file);
      return Done(());
  }

  lemma SysIndexed(sys: Sched.System)
    requires Sched.Ok(sys)
    ensures Sched.WellIndexed(sys)
  {
  }

  lemma CreateKeepsCurrent(sys: Sched.System, birth: Sched.Birth)
    requires Sched.WellIndexed(sys) && Sched.Create(sys, birth).Done?
    ensures Sched.Create(sys, birth).value.current == sys.current
  {
  }

  lemma StartPanics(sys: Sched.System)
    requires Sched.WellIndexed(sys)
    ensures Sched.Start(sys).Done? <==> Sched.FirstIn(sys.procs, Sched.Ready, 0).Some?
  {
  }

  /** The calls of a run one after another, up to the first that panics. */
  method Drive(k: Kernel, calls: seq<KCall>) returns (r: Outcome<()>, ghost run: seq<KState>, ghost es: seq<KEvent>)
    requires k.Valid() && Sched.Ok(k.Sys()) && Ordered(calls, k.current.Some?)
    requires forall i | 0 <= i < |calls| :: CallOk(k.machine.lay, calls[i])
    modifies k, k.procs, k.machine, k.machine.ram
    ensures |es| <= |calls| && KernelRun(k.machine.lay, run, es) && run[0] == old(StateOf(k))
    ensures forall i: nat | i < |es| :: es[i] == EventOf(run[i], calls[i])
    ensures r.Done? ==> |es| == |calls| && run[|es|] == StateOf(k)
    ensures r.Panic? ==> |es| < |calls| && Panics(k.machine.lay, run[|es|], calls[|es|])
  {
    hide Isolated, Sched.Ok, Happens, EventOf, Panics, CallOk;
    run, es := [StateOf(k)], [];
    for i := 0 to |calls|
      invariant k.Valid() && Sched.Ok(k.Sys()) && Ordered(calls[i..], k.current.Some?)
      invariant |es| == i && KernelRun(k.machine.lay, run, es) && run[0] == old(StateOf(k)) && run[i] == StateOf(k)
      invariant forall j: nat | j < i :: es[j] == EventOf(run[j], calls[j])
    {
      assert calls[i..][0] == calls[i] && calls[i..][1..] == calls[i + 1..];
      ghost var s := StateOf(k);
      r := Do(k, calls[i]);
      if r.Panic? {
        return;
      }
      run, es := run + [StateOf(k)], es + [EventOf(s, calls[i])];
    }
    r := Done(());
  }

  /** alloc and proc_init: a kernel that has booted. */
  method BootKernel(lay: Layout) returns (k: Kernel)
    requires LayoutOk(lay)
    ensures fresh(k) && fresh(k.procs) && fresh(k.machine) && fresh(k.machine.ram)
    ensures k.Valid() && k.machine.lay == lay && Booted(StateOf(k)) && Sched.Ok(k.Sys()) && k.current.None?
  {
    hide Isolated, Sched.Ok, LayoutOk;
    var machine := new Machine(lay);
    k := new Kernel(machine);
    SysIndexed(k.Sys());
  }

  /** Calls on a kernel just booted are a run from boot, so what holds over runs holds in each of its states. */
  method BootAndDrive(lay: Layout, calls: seq<KCall>)
    returns (k: Kernel, r: Outcome<()>, ghost run: seq<KState>, ghost es: seq<KEvent>)
    requires LayoutOk(lay) && Ordered(calls, false) && forall i | 0 <= i < |calls| :: CallOk(lay, calls[i])
    ensures k.machine.lay == lay && KernelRun(lay, run, es) && Booted(run[0])
    ensures forall i: nat | i < |run| :: Sound(lay, run[i])
    ensures |es| <= |calls| && forall i: nat | i < |es| :: es[i] == EventOf(run[i], calls[i])
    ensures r.Done? ==> |es| == |calls| && run[|es|] == StateOf(k)
    ensures r.Panic? ==> |es| < |calls| && Panics(lay, run[|es|], calls[|es|])
  {
    hide Isolated, Sched.Ok, LayoutOk, Happens, Panics, CallOk, Sound, Booted, StateOf, EventOf;
    k := BootKernel(lay);
    BootedSound(lay, StateOf(k));
    r, run, es := Drive(k, calls);
    forall i: nat | i < |run| ensures Sound(lay, run[i]) {
      RunSound(lay, run, es, i);
    }
  }

  /** PROC_MAX creations on a fresh kernel panic exactly when their pages do not fit in free memory: with the 64 MB of
      linker.ld, exactly when one process takes more than 256 pages. */
  method CreateAll(k: Kernel, entry: word, arg: word, trampoline: word, image: nat, size: nat) returns (r: Outcome<()>)
    requires k.Valid() && k.machine.nextPaddr == k.machine.lay.freeRam
    requires forall i | 0 <= i < Sched.PROC_MAX :: k.procs[i].state == Sched.Unused
    requires image + size <= k.machine.lay.freeRam && ImageFits(k.machine.lay, size)
    modifies k, k.procs, k.machine, k.machine.ram
    ensures var lay := k.machine.lay;
      && (r.Panic? <==> lay.freeRam + PAGE_SIZE * (Sched.PROC_MAX * CreateCost(lay, size)) > lay.freeRamEnd)
      && (lay.freeRamEnd == lay.freeRam + 0x400_0000 ==> (r.Panic? <==> CreateCost(lay, size) > 256))
  {
    hide Isolated, CreateCost, ImageFits, Created, Sched.Create, Sched.Ok, TotalCost, StoredName,
      Sched.FreshRegisters;
    CostAtLeast(k.machine.lay, size);
    ghost var lay, cost: nat := k.machine.lay, CreateCost(k.machine.lay, size);
    MoreCost(0, cost);
    for n := 0 to Sched.PROC_MAX
      invariant k.Valid() && k.machine.nextPaddr == lay.freeRam + PAGE_SIZE * TotalCost(n, cost) <= lay.freeRamEnd
      invariant forall i | 0 <= i < Sched.PROC_MAX :: k.procs[i].state == Sched.Unused <==> i >= n
    {
      FirstUnused(k.procs[..], n);
      MoreCost(n, cost);
      ghost var s := StateOf(k);
      var pid, slot, birth := k.ProcCreate(entry, arg, trampoline, None, image, size);
      if pid.Panic? {
        return Panic;
      }
      NextFilled(s.sys, k.Sys(), birth, n);
      CreatedCosts(lay, s.snap, k.Snap(), slot, s.snap.mem[image..image + size]);
    }
    return Done(());
  }

  /** The pages of `n` processes. */
  function TotalCost(n: nat, cost: nat): nat
  {
    n * cost
  }

  lemma MoreCost(n: nat, cost: nat)
    requires n < Sched.PROC_MAX
    ensures TotalCost(n + 1, cost) == TotalCost(n, cost) + cost <= TotalCost(Sched.PROC_MAX, cost)
    ensures TotalCost(0, cost) == 0
    ensures TotalCost(Sched.PROC_MAX, cost) == Sched.PROC_MAX * cost
  {
    ProductOrder(n + 1, Sched.PROC_MAX, cost);
  }

  lemma ProductOrder(n: nat, m: nat, cost: nat)
    requires n <= m
    ensures n * cost <= m * cost
  {
    Distribute(n, m - n, cost);
    ProductOfNats(m - n, cost);
  }

  lemma NextFilled(s: Sched.System, t: Sched.System, birth: Sched.Birth, n: nat)
    requires Sched.WellIndexed(s) && n < Sched.PROC_MAX && Sched.Create(s, birth) == Done(t)
    requires forall i | 0 <= i < Sched.PROC_MAX :: s.procs[i].state == Sched.Unused <==> i >= n
    ensures Sched.WellIndexed(t)
    ensures forall i | 0 <= i < Sched.PROC_MAX :: t.procs[i].state == Sched.Unused <==> i >= n + 1
  {
    FirstUnused(s.procs, n);
  }

  lemma CreatedCosts(lay: Layout, s: Snapshot, t: Snapshot, slot: nat, image: Mem)
    requires LayoutOk(lay) && Created(lay, s, t, slot, image)
    ensures t.next == s.next + PAGE_SIZE * CreateCost(lay, |image|) <= lay.freeRamEnd
  {
  }

  lemma FirstUnused(procs: seq<Sched.Proc>, n: nat)
    requires |procs| == Sched.PROC_MAX && n < Sched.PROC_MAX
    requires forall i | 0 <= i < Sched.PROC_MAX :: procs[i].state == Sched.Unused <==> i >= n
    ensures Sched.FirstIn(procs, Sched.Unused, 0) == Some(n)
  {
    assert procs[n].state == Sched.Unused;
  }
}
