/** The scheduler of kernel/proc.c as a transition system on values: the process table,
    the one register file shared by all processes, and the two registers that name the
    current process's page table and kernel stack. */
module Sched {
  import opened Memory

  const PROC_MAX: nat := 64
  const SATP_SV32: nat := 0x8000_0000

  datatype ProcState = Unused | Ready | Running | Zombie

  /** The registers that `context_switch` saves and restores. */
  datatype Context = Context(ra: word, sp: word, s0: word, s1: word, s2: word, s3: word, s4: word,
                             s5: word, s6: word, s7: word, s8: word, s9: word, s10: word, s11: word)

  datatype Proc = Proc(pid: nat, state: ProcState, context: Context, pagetable: word,
                       kstackBase: word, kstackTop: word, name: seq<byte>)

  /** `current` is the index of `g_current_proc`; `boot` is `g_boot_context`. */
  datatype System = System(procs: seq<Proc>, current: Option<nat>, regs: Context, boot: Context,
                           satp: nat, sscratch: word, nextPid: nat)

  /** `SATP_SV32 | (pagetable / PAGE_SIZE)`. */
  function SatpFor(pagetable: word): nat
  {
    BitOr(SATP_SV32, pagetable / PAGE_SIZE)
  }

  /** The root address the hardware takes from satp: its 22-bit PPN field. */
  function SatpRoot(satp: nat): nat
  {
    satp % 0x40_0000 * PAGE_SIZE
  }

  lemma SatpNamesRoot(pagetable: word)
    requires pagetable % PAGE_SIZE == 0
    ensures SatpFor(pagetable) / SATP_SV32 == 1
    ensures SatpRoot(SatpFor(pagetable)) == pagetable
  {
    var ppn := pagetable / PAGE_SIZE;
    assert ppn < 0x10_0000;
    PowTwenty();
    OrIntoZeros(2048, 20, ppn);
    SatpFields(ppn);
  }

  lemma PowTwenty()
    ensures Pow2(20) == 0x10_0000
  {
    assert Pow2(10) == 1024;
  }

  lemma SatpFields(ppn: nat)
    requires ppn < 0x10_0000
    ensures (SATP_SV32 + ppn) / SATP_SV32 == 1 && (SATP_SV32 + ppn) % 0x40_0000 == ppn
  {
    DivModUnique(SATP_SV32 + ppn, SATP_SV32, 1, ppn);
    DivModUnique(SATP_SV32 + ppn, 0x40_0000, 512, ppn);
  }

  // ---------------------------------------------------------------- selection

  /** The first index from `i` on, or none, whose slot is in state `state`. */
  function FirstIn(procs: seq<Proc>, state: ProcState, i: nat): (r: Option<nat>)
    requires i <= |procs|
    ensures r.Some? ==> i <= r.value < |procs| && procs[r.value].state == state
    ensures r.Some? ==> forall j | i <= j < r.value :: procs[j].state != state
    ensures r.None? ==> forall j | i <= j < |procs| :: procs[j].state != state
    decreases |procs| - i
  {
    if i == |procs| then None
    else if procs[i].state == state then Some(i)
    else FirstIn(procs, state, i + 1)
  }

  /** The slot `i` places after `c`, cyclically. */
  function Slot(c: nat, i: nat): nat
  {
    (c + i) % PROC_MAX
  }

  predicate NoneReady(procs: seq<Proc>, c: nat, i: nat, end: nat)
    requires |procs| == PROC_MAX
  {
    forall d: nat | i <= d < end :: procs[Slot(c, d)].state != Ready
  }

  /** The first ready slot at cyclic distance `i` or more, up to a full turn. */
  function NextReady(procs: seq<Proc>, c: nat, i: nat): (r: Option<nat>)
    requires |procs| == PROC_MAX && i <= PROC_MAX + 1
    ensures r.Some? ==> r.value < PROC_MAX && procs[r.value].state == Ready
    decreases PROC_MAX + 1 - i
  {
    if i > PROC_MAX then None
    else if procs[Slot(c, i)].state == Ready then Some(Slot(c, i))
    else NextReady(procs, c, i + 1)
  }

  /** The search finds the ready slot at the least distance, and fails only when no slot is ready. */
  lemma {:induction false} NextReadyIsNearest(procs: seq<Proc>, c: nat, i: nat)
    requires |procs| == PROC_MAX && i <= PROC_MAX + 1
    ensures match NextReady(procs, c, i)
      case Some(n) => n < PROC_MAX && procs[n].state == Ready
        && exists d: nat :: i <= d <= PROC_MAX && n == Slot(c, d) && NoneReady(procs, c, i, d)
      case None => NoneReady(procs, c, i, PROC_MAX + 1)
    decreases PROC_MAX + 1 - i
  {
    if i <= PROC_MAX && procs[Slot(c, i)].state != Ready {
      NextReadyIsNearest(procs, c, i + 1);
      if NextReady(procs, c, i + 1).Some? {
        var d: nat :| i + 1 <= d <= PROC_MAX && NextReady(procs, c, i + 1) == Some(Slot(c, d))
          && NoneReady(procs, c, i + 1, d);
        assert NoneReady(procs, c, i, d);
      }
    } else if i <= PROC_MAX {
      assert NoneReady(procs, c, i, i);
    }
  }

  /** proc.c __pickup_next_proc. With no current process its loop returns after looking at slot 0. */
  function PickupNext(procs: seq<Proc>, current: Option<nat>): Option<nat>
    requires |procs| == PROC_MAX
  {
    match current
    case None => if procs[0].state == Ready then Some(0) else None
    case Some(c) => NextReady(procs, c, 1)
  }

  // ---------------------------------------------------------------- the steps of proc.c

  /** The effect of making `n` current: its state, satp and sscratch, and `context_switch` from
      the previous process's context (the boot context when there is none) to that of `n`. */
  function SwitchTo(s: System, n: nat): System
    requires n < |s.procs| && (s.current.Some? ==> s.current.value < |s.procs|)
  {
    var p := s.procs[n];
    var procs1 := s.procs[n := p.(state := Running)];
    var t := s.(procs := procs1, current := Some(n), satp := SatpFor(p.pagetable), sscratch := p.kstackTop,
      regs := p.context);
    match s.current
    case None => t.(boot := s.regs)
    case Some(c) => t.(procs := procs1[c := procs1[c].(state := Ready, context := s.regs)])
  }

  predicate WellIndexed(s: System)
  {
    |s.procs| == PROC_MAX && (s.current.Some? ==> s.current.value < PROC_MAX)
  }

  /** proc.c __schedule. */
  function Schedule(s: System): Outcome<System>
    requires WellIndexed(s)
  {
    match PickupNext(s.procs, s.current)
    case None => if s.current.Some? && s.procs[s.current.value].state == Running then Done(s) else Panic
    case Some(n) => if s.current == Some(n) then Done(s) else Done(SwitchTo(s, n))
  }

  /** proc.c yield. */
  function Yield(s: System): Outcome<System>
    requires WellIndexed(s)
  {
    match s.current
    case None => Panic
    case Some(c) => Schedule(s.(procs := s.procs[c := s.procs[c].(state := Ready)]))
  }

  /** proc.c scheduler_start. */
  function Start(s: System): Outcome<System>
    requires WellIndexed(s)
  {
    match FirstIn(s.procs, Ready, 0)
    case None => Panic
    case Some(n) => Done(SwitchTo(s.(current := None), n))
  }

  /** What proc_create gives a new process. */
  datatype Birth = Birth(pagetable: word, kstack: word, entry: word, arg: word, trampoline: word, name: seq<byte>)

  const ZERO_CONTEXT := Context(0, 0, 0, 0, 0, 0, 0, 0, 0, 0, 0, 0, 0, 0)

  /** proc.c __init_proc_context. */
  function InitContext(kstackTop: word, b: Birth): Context
  {
    ZERO_CONTEXT.(sp := kstackTop, ra := b.trampoline, s0 := b.entry, s1 := b.arg)
  }

  /** The top of a one-page kernel stack, in 32 bits. */
  function StackTop(kstack: word): word
  {
    (kstack + 4096) % WORD_LIMIT
  }

  function NewProc(pid: nat, b: Birth): Proc
  {
    Proc(pid, Ready, InitContext(StackTop(b.kstack), b), b.pagetable, b.kstack, StackTop(b.kstack), b.name)
  }

  /** proc.c proc_create, given the pages it obtained. */
  function Create(s: System, b: Birth): Outcome<System>
    requires WellIndexed(s)
  {
    match FirstIn(s.procs, Unused, 0)
    case None => Panic
    case Some(i) => Done(s.(procs := s.procs[i := NewProc(s.nextPid, b)], nextPid := s.nextPid + 1))
  }

  // ---------------------------------------------------------------- the invariant

  /** At most one process is running and it is the current one, which is never unused; satp and sscratch name
      the current process's page table and kernel stack. */
  predicate Ok(s: System)
  {
    && WellIndexed(s)
    && (forall i | 0 <= i < PROC_MAX :: s.procs[i].state != Zombie)
    && (forall i | 0 <= i < PROC_MAX :: s.procs[i].state == Running ==> s.current == Some(i))
    && (s.current.Some? ==>
          var p := s.procs[s.current.value];
          p.state != Unused && s.satp == SatpFor(p.pagetable) && s.sscratch == p.kstackTop)
  }

  // ---------------------------------------------------------------- private register files

  /** One register file for each live process, and which process runs. */
  datatype Private = Private(files: map<nat, Context>, running: nat)

  /** The registers of process `i`: the machine's own while it is current, its saved context otherwise. */
  function FileOf(s: System, i: nat): Context
    requires i < |s.procs|
  {
    if s.current == Some(i) then s.regs else s.procs[i].context
  }

  function Abs(s: System): Private
    requires WellIndexed(s) && s.current.Some?
  {
    Private(map i: nat | i < PROC_MAX && s.procs[i].state != Unused :: FileOf(s, i), s.current.value)
  }

  /** The registers that a new process finds when it first gets the CPU, all fourteen. */
  predicate FreshRegisters(c: Context, entry: word, arg: word, trampoline: word, stackTop: word)
  {
    && c.ra == trampoline && c.sp == stackTop && c.s0 == entry && c.s1 == arg
    && c.s2 == c.s3 == c.s4 == c.s5 == c.s6 == c.s7 == c.s8 == c.s9 == c.s10 == c.s11 == 0
  }

  /** The scheduler can be started exactly when some process is ready. Then the ready process of least index becomes
      current, the CPU has the registers that process was given, those it had are the boot context, and every process
      has the register file of its saved context. */
  lemma StartOk(s: System)
    requires Ok(s)
    ensures Start(s).Done? <==> exists i :: 0 <= i < PROC_MAX && s.procs[i].state == Ready
    ensures s.current.None? && Start(s).Done? ==>
      var t := Start(s).value;
      && Ok(t) && t.current.Some?
      && var n := t.current.value;
        && s.procs[n].state == Ready && (forall i | 0 <= i < n :: s.procs[i].state != Ready)
        && t.procs[n].state == Running && t.regs == s.procs[n].context && t.boot == s.regs
        && (forall i: nat | i < PROC_MAX ::
              FileOf(t, i) == s.procs[i].context && (t.procs[i].state == Unused <==> s.procs[i].state == Unused))
        && Abs(t) == Private(map i: nat | i < PROC_MAX && s.procs[i].state != Unused :: s.procs[i].context, n)
  {
  }

  /** What can happen: the running process changes its registers, it yields, or a process is created. */
  datatype Event = Write(file: Context) | YieldCpu | Spawn(birth: Birth)

  function Step(s: System, e: Event): Outcome<System>
    requires WellIndexed(s)
  {
    match e
    case Write(file) => Done(s.(regs := file))
    case YieldCpu => Yield(s)
    case Spawn(birth) => Create(s, birth)
  }

  /** The first live process at cyclic distance `i` or more from `c`. */
  function NextLive(live: set<nat>, c: nat, i: nat): nat
    requires i <= PROC_MAX
    decreases PROC_MAX - i
  {
    if i == PROC_MAX || Slot(c, i) in live then Slot(c, i) else NextLive(live, c, i + 1)
  }

  /** The first index from `i` on that no live process has. */
  function FirstFree(live: set<nat>, i: nat): Option<nat>
    requires i <= PROC_MAX
    decreases PROC_MAX - i
  {
    if i == PROC_MAX then None else if i !in live then Some(i) else FirstFree(live, i + 1)
  }

  /** The machine with private register files: a yield touches no file, a write touches the running one only. */
  function PrivateStep(m: Private, e: Event): Outcome<Private>
  {
    match e
    case Write(file) => Done(m.(files := m.files[m.running := file]))
    case YieldCpu => Done(m.(running := NextLive(m.files.Keys, m.running, 1)))
    case Spawn(birth) =>
      match FirstFree(m.files.Keys, 0)
      case None => Panic
      case Some(i) =>
        Done(m.(files := m.files[i :=
          Context(ra := birth.trampoline, sp := (birth.kstack + 4096) % WORD_LIMIT, s0 := birth.entry, s1 := birth.arg,
                  s2 := 0, s3 := 0, s4 := 0, s5 := 0, s6 := 0, s7 := 0, s8 := 0, s9 := 0, s10 := 0, s11 := 0)]))
  }

  lemma {:induction false} NextLiveIsNextReady(procs: seq<Proc>, live: set<nat>, c: nat, i: nat)
    requires |procs| == PROC_MAX && c < PROC_MAX && 1 <= i <= PROC_MAX
    requires forall j | 0 <= j < PROC_MAX :: procs[j].state == Ready <==> j in live
    requires c in live
    ensures NextReady(procs, c, i) == Some(NextLive(live, c, i))
    ensures NextLive(live, c, i) in live && NextLive(live, c, i) < PROC_MAX
    decreases PROC_MAX - i
  {
    if i < PROC_MAX && Slot(c, i) !in live {
      NextLiveIsNextReady(procs, live, c, i + 1);
    }
  }

  lemma {:induction false} FirstFreeIsFirstUnused(procs: seq<Proc>, live: set<nat>, i: nat)
    requires |procs| == PROC_MAX && i <= PROC_MAX
    requires forall j | 0 <= j < PROC_MAX :: procs[j].state == Unused <==> j !in live
    ensures FirstIn(procs, Unused, i) == FirstFree(live, i)
    decreases PROC_MAX - i
  {
    if i < PROC_MAX { FirstFreeIsFirstUnused(procs, live, i + 1); }
  }

  lemma WriteSimulates(s: System, file: Context)
    requires Ok(s) && s.current.Some?
    ensures Ok(s.(regs := file))
    ensures Abs(s.(regs := file)) == Abs(s).(files := Abs(s).files[s.current.value := file])
  {
  }

  /** The state in which `yield` calls the scheduler. */
  function Yielding(s: System): System
    requires WellIndexed(s) && s.current.Some?
  {
    s.(procs := s.procs[s.current.value := s.procs[s.current.value].(state := Ready)])
  }

  lemma YieldCases(s: System)
    requires Ok(s) && s.current.Some?
    ensures Abs(Yielding(s)) == Abs(s) && Ok(Yielding(s)) && Yielding(s).current == s.current
    ensures Yielding(s).procs[s.current.value].state == Ready
    ensures forall i | 0 <= i < PROC_MAX :: Yielding(s).procs[i].state == Ready || Yielding(s).procs[i].state == Unused
    ensures var n := NextLive(Abs(s).files.Keys, s.current.value, 1);
      && n < PROC_MAX && Yielding(s).procs[n].state == Ready
      && Yield(s) == Done(if n == s.current.value then Yielding(s) else SwitchTo(Yielding(s), n))
  {
    var s1 := Yielding(s);
    forall i: nat | i < PROC_MAX
      ensures FileOf(s1, i) == FileOf(s, i) && (s1.procs[i].state == Unused <==> s.procs[i].state == Unused)
    {
    }
    NextLiveIsNextReady(s1.procs, Abs(s).files.Keys, s.current.value, 1);
  }

  /** A yield always finds a process, leaves every private file alone and makes the next live process current. */
  lemma YieldSimulates(s: System)
    requires Ok(s) && s.current.Some?
    ensures Yield(s).Done? && Ok(Yield(s).value) && Yield(s).value.current.Some?
    ensures Abs(Yield(s).value) == Abs(s).(running := NextLive(Abs(s).files.Keys, s.current.value, 1))
  {
    hide Yielding, Yield, SwitchTo, NextLive, FileOf;
    YieldCases(s);
    var c, n := s.current.value, NextLive(Abs(s).files.Keys, s.current.value, 1);
    if n != c {
      SwitchKeepsFiles(Yielding(s), c, n);
    }
  }

  lemma SwitchKeepsFiles(s: System, c: nat, n: nat)
    requires WellIndexed(s) && s.current == Some(c) && n < PROC_MAX && n != c
    requires s.procs[c].state == Ready && s.procs[n].state == Ready
    requires forall i | 0 <= i < PROC_MAX :: s.procs[i].state == Ready || s.procs[i].state == Unused
    ensures Ok(SwitchTo(s, n)) && SwitchTo(s, n).current == Some(n) && SwitchTo(s, n).procs[n].state == Running
    ensures Abs(SwitchTo(s, n)).files == Abs(s).files
  {
    var t := SwitchTo(s, n);
    forall i: nat | i < PROC_MAX
      ensures FileOf(t, i) == FileOf(s, i) && (t.procs[i].state == Unused <==> s.procs[i].state == Unused)
    {
    }
  }

  /** Creation keeps the invariant, before the scheduler has started as well as after. */
  lemma CreateKeepsOk(s: System, b: Birth)
    requires Ok(s) && Create(s, b).Done?
    ensures Ok(Create(s, b).value) && Create(s, b).value.current == s.current
  {
  }

  /** A creation fills the first unused slot and no other, with the registers asked for and the top of its stack. */
  lemma CreateRegisters(s: System, b: Birth)
    requires WellIndexed(s) && Create(s, b).Done? && b.kstack + 4096 < WORD_LIMIT
    ensures var t := Create(s, b).value;
      var n := FirstIn(s.procs, Unused, 0);
      && n.Some? && t.current == s.current && t.regs == s.regs && t.boot == s.boot && |t.procs| == |s.procs|
      && t.procs[n.value].state == Ready && t.procs[n.value].kstackBase == b.kstack
      && FreshRegisters(t.procs[n.value].context, b.entry, b.arg, b.trampoline, b.kstack + 4096)
      && forall i | 0 <= i < PROC_MAX && i != n.value :: t.procs[i] == s.procs[i]
  {
  }

  lemma SpawnSimulates(s: System, b: Birth)
    requires Ok(s) && s.current.Some?
    ensures Create(s, b).Done? <==> FirstFree(Abs(s).files.Keys, 0).Some?
    ensures Create(s, b).Done? ==>
      && Ok(Create(s, b).value) && Create(s, b).value.current == s.current
      && Abs(Create(s, b).value) == PrivateStep(Abs(s), Spawn(b)).value
  {
    FirstFreeIsFirstUnused(s.procs, Abs(s).files.Keys, 0);
    if Create(s, b).Done? {
      CreateKeepsOk(s, b);
      SlotFilled(s, NewProc(s.nextPid, b), FirstIn(s.procs, Unused, 0).value);
    }
  }

  lemma SlotFilled(s: System, p: Proc, n: nat)
    requires WellIndexed(s) && s.current.Some? && s.current != Some(n) && n < PROC_MAX && p.state != Unused
    ensures var t := s.(procs := s.procs[n := p], nextPid := s.nextPid + 1);
      Abs(t) == Abs(s).(files := Abs(s).files[n := p.context])
  {
  }

  /** After a yield the current process is marked running exactly when it is not the one that yielded:
      a process that gets the CPU straight back stays marked ready. */
  lemma YieldMarksOthersRunning(s: System)
    requires Ok(s) && s.current.Some?
    ensures Yield(s).Done? && WellIndexed(Yield(s).value) && Yield(s).value.current.Some?
    ensures Yield(s).value.procs[Yield(s).value.current.value].state
            == if Yield(s).value.current == s.current then Ready else Running
  {
    hide Yielding, Yield, SwitchTo, NextLive, FileOf;
    YieldCases(s);
    var c, n := s.current.value, NextLive(Abs(s).files.Keys, s.current.value, 1);
    if n != c {
      SwitchKeepsFiles(Yielding(s), c, n);
    }
  }

  /** One step of the shared machine is one step of the private one. */
  lemma StepSimulates(s: System, e: Event)
    requires Ok(s) && s.current.Some?
    ensures Step(s, e).Done? <==> PrivateStep(Abs(s), e).Done?
    ensures Step(s, e).Done? ==>
      && Ok(Step(s, e).value) && Step(s, e).value.current.Some?
      && Abs(Step(s, e).value) == PrivateStep(Abs(s), e).value
  {
    match e
    case Write(file) => WriteSimulates(s, file);
    case YieldCpu => YieldSimulates(s);
    case Spawn(birth) => SpawnSimulates(s, birth);
  }

  function Run(s: System, es: seq<Event>): Outcome<System>
    requires WellIndexed(s)
    ensures Run(s, es).Done? ==> WellIndexed(Run(s, es).value)
    decreases |es|
  {
    if es == [] then Done(s)
    else
      var t := Step(s, es[0]);
      if t.Panic? then Panic else Run(t.value, es[1..])
  }

  function PrivateRun(m: Private, es: seq<Event>): Outcome<Private>
    decreases |es|
  {
    if es == [] then Done(m)
    else
      var t := PrivateStep(m, es[0]);
      if t.Panic? then Panic else PrivateRun(t.value, es[1..])
  }

  /** Over every run, time-sharing one register file is indistinguishable from a register file for each process,
      and the invariant - with satp and sscratch naming the current process - holds at the end. */
  lemma {:induction false} RunSimulates(s: System, es: seq<Event>)
    requires Ok(s) && s.current.Some?
    ensures Run(s, es).Done? <==> PrivateRun(Abs(s), es).Done?
    ensures Run(s, es).Done? ==>
      && Ok(Run(s, es).value) && Run(s, es).value.current.Some?
      && Abs(Run(s, es).value) == PrivateRun(Abs(s), es).value
    decreases |es|
  {
    if es != [] {
      StepSimulates(s, es[0]);
      if Step(s, es[0]).Done? {
        RunSimulates(Step(s, es[0]).value, es[1..]);
      }
    }
  }

  // ---------------------------------------------------------------- bounded waiting

  /** How far slot `t` lies ahead of slot `c`, cyclically. */
  function Distance(c: nat, t: nat): nat
    requires c < PROC_MAX && t < PROC_MAX
  {
    if t >= c then t - c else t + PROC_MAX - c
  }

  function Yields(es: seq<Event>): nat
  {
    if es == [] then 0 else (if es[0] == YieldCpu then 1 else 0) + Yields(es[1..])
  }

  lemma SlotDistance(c: nat, t: nat, i: nat)
    requires c < PROC_MAX && t < PROC_MAX && i <= PROC_MAX
    ensures Slot(c, i) == t <==> (i == Distance(c, t) || (i == PROC_MAX && c == t))
    ensures i <= Distance(c, t) ==> Distance(Slot(c, i), t) == Distance(c, t) - i
  {
  }

  /** The next live process is no further away than any given live process. */
  lemma {:induction false} NextLiveApproaches(live: set<nat>, c: nat, t: nat, i: nat)
    requires c < PROC_MAX && t < PROC_MAX && t in live && 1 <= i <= Distance(c, t)
    ensures NextLive(live, c, i) < PROC_MAX
    ensures Distance(NextLive(live, c, i), t) <= Distance(c, t) - i
    decreases PROC_MAX - i
  {
    SlotDistance(c, t, i);
    if Slot(c, i) !in live {
      NextLiveApproaches(live, c, t, i + 1);
    }
  }

  /** Another process than the current one exists. */
  ghost predicate OthersLive(s: System)
    requires WellIndexed(s) && s.current.Some?
  {
    exists j: nat :: j < PROC_MAX && j != s.current.value && s.procs[j].state != Unused
  }

  /** A yield leaves the process that then has the CPU marked running if and only if another process existed. */
  lemma YieldMarksRunningIff(s: System)
    requires Ok(s) && s.current.Some?
    ensures Yield(s).Done? && WellIndexed(Yield(s).value) && Yield(s).value.current.Some?
    ensures Yield(s).value.procs[Yield(s).value.current.value].state == Running <==> OthersLive(s)
  {
    hide Yield, SwitchTo;
    YieldMarksOthersRunning(s);
    YieldSimulates(s);
    var live, c := Abs(s).files.Keys, s.current.value;
    var n := NextLive(live, c, 1);
    assert Abs(Yield(s).value).running == n;
    if OthersLive(s) {
      var j: nat :| j < PROC_MAX && j != c && s.procs[j].state != Unused;
      SlotDistance(c, j, 0);
      NextLiveApproaches(live, c, j, 1);
      assert Distance(n, j) < Distance(c, j);
    } else {
      NextLiveIsLive(live, c, 1);
    }
  }

  lemma {:induction false} NextLiveIsLive(live: set<nat>, c: nat, i: nat)
    requires c < PROC_MAX && c in live && 1 <= i <= PROC_MAX
    ensures NextLive(live, c, i) in live
    decreases PROC_MAX - i
  {
    if i < PROC_MAX && Slot(c, i) !in live {
      NextLiveIsLive(live, c, i + 1);
    } else if i == PROC_MAX {
      assert Slot(c, i) == c;
    }
  }

  /** The table with one process, which runs. */
  function OneProcess(): System
  {
    System(seq(PROC_MAX, i => Proc(1, if i == 0 then Running else Unused, ZERO_CONTEXT, 0, 0, 4096, [])),
           Some(0), ZERO_CONTEXT, ZERO_CONTEXT, SatpFor(0), 4096, 2)
  }

  /** Its yield gives it the CPU straight back and leaves it marked ready. */
  lemma LoneYieldStaysReady()
    ensures Ok(OneProcess()) && OneProcess().procs[0].state == Running
    ensures Yield(OneProcess()).Done? && Yield(OneProcess()).value.current == Some(0)
    ensures Yield(OneProcess()).value.procs[0].state == Ready
  {
    hide Yield, SatpFor;
    YieldMarksRunningIff(OneProcess());
    YieldMarksOthersRunning(OneProcess());
    YieldSimulates(OneProcess());
    NextLiveIsLive(Abs(OneProcess()).files.Keys, 0, 1);
  }

  /** After the first `k` events of the run, `t` is the current process. */
  predicate OnCpuAfter(s: System, es: seq<Event>, k: nat, t: nat)
    requires WellIndexed(s) && k <= |es|
  {
    Run(s, es[..k]).Done? && Run(s, es[..k]).value.current == Some(t)
  }

  /** A step brings the current process no further from a live one, and a yield brings it nearer. */
  lemma StepApproaches(s: System, e: Event, t: nat)
    requires Ok(s) && s.current.Some? && t < PROC_MAX && s.procs[t].state != Unused && s.current.value != t
    requires Step(s, e).Done?
    ensures var s' := Step(s, e).value;
      && Ok(s') && s'.current.Some? && s'.procs[t].state != Unused
      && Distance(s'.current.value, t) + (if e == YieldCpu then 1 else 0) <= Distance(s.current.value, t)
  {
    StepSimulates(s, e);
    if e == YieldCpu {
      NextLiveApproaches(Abs(s).files.Keys, s.current.value, t, 1);
    }
    hide Step, NextLive;
    assert t in Abs(s).files && t in Abs(Step(s, e).value).files;
  }

  /** A run that starts with a step. */
  lemma OnCpuLater(s: System, es: seq<Event>, k: nat, t: nat)
    requires WellIndexed(s) && es != [] && Step(s, es[0]).Done? && k <= |es[1..]|
    requires OnCpuAfter(Step(s, es[0]).value, es[1..], k, t)
    ensures OnCpuAfter(s, es, k + 1, t)
    ensures Yields(es[..k + 1]) == Yields(es[1..][..k]) + (if es[0] == YieldCpu then 1 else 0)
  {
    hide Step;
    assert es[..k + 1][0] == es[0] && es[..k + 1][1..] == es[1..][..k];
  }

  /** Round robin waits no more than one turn: a live process at distance d ahead of the current one is
      current after some prefix of the run that contains at most d yields. */
  lemma {:induction false} BoundedWaiting(s: System, es: seq<Event>, t: nat)
    requires Ok(s) && s.current.Some? && t < PROC_MAX && s.procs[t].state != Unused
    requires Run(s, es).Done? && Yields(es) >= Distance(s.current.value, t)
    ensures exists k: nat :: k <= |es| && OnCpuAfter(s, es, k, t) && Yields(es[..k]) <= Distance(s.current.value, t)
    decreases |es|
  {
    hide Step, OnCpuAfter;
    var c := s.current.value;
    if c == t {
      StartsOnCpu(s, es, t);
    } else {
      StepApproaches(s, es[0], t);
      var s' := Step(s, es[0]).value;
      BoundedWaiting(s', es[1..], t);
      var k: nat :| k <= |es[1..]| && OnCpuAfter(s', es[1..], k, t)
        && Yields(es[1..][..k]) <= Distance(s'.current.value, t);
      OnCpuLater(s, es, k, t);
    }
  }

  lemma StartsOnCpu(s: System, es: seq<Event>, t: nat)
    requires WellIndexed(s) && s.current == Some(t)
    ensures OnCpuAfter(s, es, 0, t) && Yields(es[..0]) == 0
  {
    assert es[..0] == [];
  }
}
