/** kernel/proc.c and switch.S working in place on the process table, the register file
    and the memory, against the transition system of Sched.dfy and the isolation
    invariant of Isolation.dfy. */
module Process {
  import opened Memory
  import opened Sv32
  import opened AddressSpace
  import opened Isolation
  import opened Mmu
  import opened CString
  import opened Sched

  /** What a `struct context *` may point at. */
  datatype ContextRef = Null | BootContext | ContextOf(index: nat)

  const PROC_NAME_MAX: nat := 16

  /** The name field after proc_create: at most fifteen bytes and always a terminator; all zeros without a name. */
  function StoredName(name: Option<seq<byte>>): seq<byte>
  {
    if name.Some? then NameField(name.value, PROC_NAME_MAX - 1) + [0] else Zeros(PROC_NAME_MAX)
  }

  class Kernel {
    const machine: Machine
    const procs: array<Proc>
    var current: Option<nat>
    var regs: Context
    var boot: Context
    var satp: nat
    var sscratch: word
    var nextPid: nat
    ghost var frames: map<nat, seq<nat>>

    ghost function Sys(): System
      reads this, procs
    {
      System(procs[..], current, regs, boot, satp, sscratch, nextPid)
    }

    ghost function Snap(): Snapshot
      reads this, procs, machine, machine.ram
    {
      Snapshot(machine.Bytes(), machine.uses, machine.nextPaddr, procs[..], nextPid, frames)
    }

    ghost predicate Indexed()
      reads this
    {
      procs.Length == PROC_MAX && (current.Some? ==> current.value < PROC_MAX)
    }

    ghost predicate Valid()
      reads this, procs, machine, machine.ram
    {
      && Indexed()
      && machine.Valid() && Isolated(machine.lay, Snap())
    }

    constructor (machine: Machine)
      requires machine.Valid() && machine.uses == map[]
      ensures Valid() && this.machine == machine && fresh(procs)
      ensures Ok(Sys()) && current.None? && nextPid == 1
      ensures forall i | 0 <= i < PROC_MAX :: procs[i].state == Unused
    {
      this.machine := machine;
      procs := new Proc[PROC_MAX](_ => Proc(0, Unused, ZERO_CONTEXT, 0, 0, 0, []));
      current := None;
      regs, boot := ZERO_CONTEXT, ZERO_CONTEXT;
      satp, sscratch := 0, 0;
      nextPid := 1;
      frames := map[];
    }

    // ------------------------------------------------------------ scheduling

    /** proc.c __pickup_next_proc. */
    method PickupNextProc() returns (r: Option<nat>)
      requires Indexed()
      ensures r == PickupNext(procs[..], current)
      ensures r.Some? ==> r.value < PROC_MAX && procs[r.value].state == Ready
      ensures current.None? ==> (r.Some? <==> procs[0].state == Ready) && (r.Some? ==> r.value == 0)
    {
      if current.None? {
        return if procs[0].state == Ready then Some(0) else None;
      }
      var currentIdx := 0;
      while currentIdx != current.value
        invariant currentIdx <= current.value
        decreases current.value - currentIdx
      {
        currentIdx := currentIdx + 1;
      }
      var i := 1;
      while i <= PROC_MAX
        invariant 1 <= i <= PROC_MAX + 1
        invariant PickupNext(procs[..], current) == NextReady(procs[..], currentIdx, i)
      {
        var idx := (currentIdx + i) % PROC_MAX;
        if procs[idx].state == Ready {
          return Some(idx);
        }
        i := i + 1;
      }
      return None;
    }

    /** switch.S: fourteen stores, fourteen loads. */
    method ContextSwitch(old_: ContextRef, new_: nat)
      requires Indexed() && new_ < PROC_MAX && (old_.ContextOf? ==> old_.index < PROC_MAX)
      modifies this`regs, this`boot, procs
      ensures procs[..] == if old_.ContextOf?
        then old(procs[..])[old_.index := old(procs[old_.index]).(context := old(regs))]
                           else old(procs[..])
      ensures boot == if old_.BootContext? then old(regs) else old(boot)
      ensures regs == procs[new_].context
    {
      if old_ != Null {
        var saved := if old_.BootContext? then boot else procs[old_.index].context;
        saved := saved.(ra := regs.ra);
        saved := saved.(sp := regs.sp);
        saved := saved.(s0 := regs.s0);
        saved := saved.(s1 := regs.s1);
        saved := saved.(s2 := regs.s2);
        saved := saved.(s3 := regs.s3);
        saved := saved.(s4 := regs.s4);
        saved := saved.(s5 := regs.s5);
        saved := saved.(s6 := regs.s6);
        saved := saved.(s7 := regs.s7);
        saved := saved.(s8 := regs.s8);
        saved := saved.(s9 := regs.s9);
        saved := saved.(s10 := regs.s10);
        saved := saved.(s11 := regs.s11);
        if old_.BootContext? {
          boot := saved;
        } else {
          procs[old_.index] := procs[old_.index].(context := saved);
        }
      }
      var loaded := procs[new_].context;
      regs := regs.(ra := loaded.ra);
      regs := regs.(sp := loaded.sp);
      regs := regs.(s0 := loaded.s0);
      regs := regs.(s1 := loaded.s1);
      regs := regs.(s2 := loaded.s2);
      regs := regs.(s3 := loaded.s3);
      regs := regs.(s4 := loaded.s4);
      regs := regs.(s5 := loaded.s5);
      regs := regs.(s6 := loaded.s6);
      regs := regs.(s7 := loaded.s7);
      regs := regs.(s8 := loaded.s8);
      regs := regs.(s9 := loaded.s9);
      regs := regs.(s10 := loaded.s10);
      regs := regs.(s11 := loaded.s11);
    }

    /** proc.c __schedule. */
    method RunSchedule() returns (r: Outcome<()>)
      requires Indexed()
      modifies this`current, this`regs, this`boot, this`satp, this`sscratch, procs
      ensures r.Done? <==> Schedule(old(Sys())).Done?
      ensures r.Done? ==> Indexed() && Sys() == Schedule(old(Sys())).value
    {
      var currentProc := current;
      var nextProc := PickupNextProc();
      if nextProc.None? {
        return if currentProc.Some? && procs[currentProc.value].state == Running then Done(()) else Panic;
      }
      if currentProc == nextProc {
        return Done(());
      }
      Dispatch(currentProc, nextProc.value);
      return Done(());
    }

    /** The switch at the end of __schedule and of scheduler_start. */
    method Dispatch(prev: Option<nat>, n: nat)
      requires procs.Length == PROC_MAX && n < PROC_MAX && (prev.Some? ==> prev.value < PROC_MAX && prev.value != n)
      modifies this`current, this`regs, this`boot, this`satp, this`sscratch, procs
      ensures Indexed() && Sys() == SwitchTo(old(Sys()).(current := prev), n)
    {
      current := Some(n);
      procs[n] := procs[n].(state := Running);
      satp := BitOr(SATP_SV32, procs[n].pagetable / PAGE_SIZE);
      sscratch := procs[n].kstackTop;
      if prev.Some? {
        procs[prev.value] := procs[prev.value].(state := Ready);
        ContextSwitch(ContextOf(prev.value), n);
      } else {
        ContextSwitch(BootContext, n);
      }
    }

    /** A change of the process table that leaves address spaces alone keeps the kernel's invariant. */
    lemma KeepValid(s: Snapshot)
      requires Indexed() && machine.Valid() && Isolated(machine.lay, s)
      requires Snap() == s.(procs := procs[..]) && SameSpaces(s.procs, procs[..])
      ensures Valid()
    {
      SchedulingKeepsIsolation(machine.lay, s, procs[..]);
    }

    /** proc.c yield. */
    method YieldNow() returns (r: Outcome<()>)
      requires Indexed()
      modifies this`current, this`regs, this`boot, this`satp, this`sscratch, procs
      ensures r.Done? <==> Yield(old(Sys())).Done?
      ensures r.Done? ==> Indexed() && Sys() == Yield(old(Sys())).value
      ensures old(Valid() && Ok(Sys()) && current.Some?) ==> r.Done? && Valid() && Ok(Sys()) && current.Some?
    {
      hide Ok, Isolated, SameSpaces;
      if current.None? {
        return Panic;
      }
      procs[current.value] := procs[current.value].(state := Ready);
      assert Sys() == Yielding(old(Sys()));
      r := RunSchedule();
      ghost var sys := old(Sys());
      if old(Valid()) && Ok(sys) {
        YieldSimulates(sys);
        YieldKeepsSpaces(sys);
        KeepValid(old(Snap()));
      }
    }

    /** proc.c scheduler_start. */
    method SchedulerStart() returns (r: Outcome<()>)
      requires Indexed()
      modifies this`current, this`regs, this`boot, this`satp, this`sscratch, procs
      ensures r.Done? <==> Start(old(Sys())).Done?
      ensures r.Done? ==> Indexed() && Sys() == Start(old(Sys())).value
      ensures r.Done? && old(Valid() && Ok(Sys()) && current.None?) ==>
        && Valid() && Ok(Sys()) && current.Some?
        && var n := current.value;
          && old(procs[n]).state == Ready && (forall i | 0 <= i < n :: old(procs[i]).state != Ready)
          && regs == old(procs[n]).context && boot == old(regs)
          && forall i: nat | i < PROC_MAX :: FileOf(Sys(), i) == old(procs[i]).context
    {
      hide Ok, Isolated, SameSpaces;
      var nextProc := FindState(Ready);
      if nextProc.None? {
        return Panic;
      }
      Dispatch(None, nextProc.value);
      ghost var sys := old(Sys());
      if old(Valid()) && Ok(sys) && sys.current.None? {
        StartOk(sys);
        StartKeepsSpaces(sys);
        KeepValid(old(Snap()));
      }
      return Done(());
    }

    /** The scan for the first slot in a given state, in scheduler_start and __alloc_proc. */
    method FindState(state: ProcState) returns (r: Option<nat>)
      requires procs.Length == PROC_MAX
      ensures r == FirstIn(procs[..], state, 0)
    {
      for i := 0 to PROC_MAX
        invariant FirstIn(procs[..], state, 0) == FirstIn(procs[..], state, i)
      {
        if procs[i].state == state {
          return Some(i);
        }
      }
      return None;
    }

    // ------------------------------------------------------------ creation

    /** The first two allocations of proc_create. */
    method StackAndRoot(ghost pid: nat) returns (r: Outcome<(word, word)>)
      requires machine.Valid() && PagesOk(machine.lay, machine.uses, machine.nextPaddr, pid)
      modifies machine, machine.ram
      ensures r.Panic? <==> old(machine.nextPaddr) + 2 * PAGE_SIZE > machine.lay.freeRamEnd
      ensures r.Done? ==>
        && machine.Valid()
        && machine.nextPaddr == old(machine.nextPaddr) + 2 * PAGE_SIZE
        && TreeOk(machine.Bytes(), machine.uses, pid, r.value.1)
        && (forall i: nat | i < 1024 :: Missing(machine.Bytes(), r.value.1, i))
        && (forall w: word :: Walk(machine.Bytes(), r.value.1, w) == Fault)
        && r.value.0 % PAGE_SIZE == 0 && UseOf(machine.uses, r.value.0) == Stack(pid)
        && 0 < r.value.0 < machine.lay.freeRamEnd
        && Grown(old(machine.uses), machine.uses, old(machine.nextPaddr), pid)
        && AgreeBelow(old(machine.Bytes()), machine.Bytes(), old(machine.nextPaddr))
    {
      hide Walk, LinkOk, Missing, TreeOk;
      var kstack := machine.AllocPages(1, Stack(pid));
      if kstack.Panic? { return Panic; }
      ghost var uses1 := machine.uses;
      var pagetable := machine.AllocPages(1, Root(pid));
      if pagetable.Panic? { return Panic; }
      EmptyRoot(machine.Bytes(), machine.uses, pid, pagetable.value);
      return Done((kstack.value, pagetable.value));
    }

    /** The memory half of proc_create: kernel stack, root table, kernel mapping and user mapping. */
    method BuildSpace(image: nat, size: nat, ghost pid: nat)
      returns (r: Outcome<(word, word)>, ghost newFrames: seq<nat>)
      requires machine.Valid() && PagesOk(machine.lay, machine.uses, machine.nextPaddr, pid)
      requires image + size <= machine.lay.freeRam && ImageFits(machine.lay, size)
      modifies machine, machine.ram
      ensures r.Panic? <==> old(machine.nextPaddr) + PAGE_SIZE * CreateCost(machine.lay, size) > machine.lay.freeRamEnd
      ensures r.Done? ==>
        && machine.Valid()
        && machine.nextPaddr == old(machine.nextPaddr) + PAGE_SIZE * CreateCost(machine.lay, size)
        && |newFrames| == PagesOf(size) && r.value.0 + PAGE_SIZE < WORD_LIMIT
        && Grown(old(machine.uses), machine.uses, old(machine.nextPaddr), pid)
        && AgreeBelow(old(machine.Bytes()), machine.Bytes(), old(machine.nextPaddr))
        && (forall p: Proc | p.pid == pid && p.pagetable == r.value.1 && p.kstackBase == r.value.0
          && p.kstackTop == StackTop(r.value.0) ::
              SpaceOk(machine.lay, machine.Bytes(), machine.uses, p, newFrames))
        && ImageHeld(machine.Bytes(), machine.uses, pid, newFrames, old(machine.ImageBytes(image, size)))
    {
      hide Extended, SpaceOk, Walk, TreeOk, TablesFor, ImageHeld, OldBytesKept, View, Missing, TableCount, UseOf,
        PagesOk, Grown, TopIndex, AgreeBelow, ImageFits, StackTop;
      ghost var lay, m0, uses0, next0 := machine.lay, machine.Bytes(), machine.uses, machine.nextPaddr;
      newFrames := [];
      CostAtLeast(lay, size);
      ImageBelowLimit(lay, size);
      var stackAndRoot := StackAndRoot(pid);
      if stackAndRoot.Panic? { return Panic, []; }
      var root := stackAndRoot.value.1;
      ghost var m2, uses2, next2 := machine.Bytes(), machine.uses, machine.nextPaddr;
      KernelTables(lay, m2, root, size);
      var kernelMapped := machine.KernelMapPage(root, pid);
      if kernelMapped.Panic? { return Panic, []; }
      ghost var m3, uses3, next3 := machine.Bytes(), machine.uses, machine.nextPaddr;
      OldPagesKept(lay, m0, m2, m3, uses0, uses2, next0, next2, pid);
      SliceAgrees(m0, m3, next0, image, size);
      TwoRunsTables(lay, m2, m3, uses3, pid, root, size);
      ExtendedTree(m2, m3, uses3, pid, root, lay.kernelBase, IdentityFrames(lay.kernelBase, KernelPages(lay)),
        KERNEL_FLAGS);
      var userMapped, fs := machine.UserMapPage(root, image, size, pid);
      if userMapped.Panic? { return Panic, []; }
      newFrames := fs;
      ghost var m4, uses4 := machine.Bytes(), machine.uses;
      GrownTwice(uses0, uses2, uses3, next0, next2, pid);
      OldPagesKept(lay, m0, m3, m4, uses0, uses3, next0, next3, pid);
      GrownTwice(uses0, uses3, uses4, next0, next3, pid);
      StackTopIs(stackAndRoot.value.0);
      SpacesBuilt(lay, m2, m3, m4, uses2, uses3, uses4, next2, next3, pid, root, stackAndRoot.value.0, fs,
                  old(machine.ImageBytes(image, size)));
      return Done((stackAndRoot.value.0, root)), fs;
    }

    lemma StackTopIs(kstack: word)
      requires kstack + PAGE_SIZE < WORD_LIMIT
      ensures StackTop(kstack) == kstack + PAGE_SIZE
    {
    }

    lemma ImageBelowLimit(lay: Layout, size: nat)
      requires LayoutOk(lay) && ImageFits(lay, size)
      ensures USER_BASE + size <= WORD_LIMIT
    {
    }

    lemma SliceAgrees(m0: Mem, m: Mem, next0: nat, from: nat, n: nat)
      requires AgreeBelow(m0, m, next0) && from + n <= next0 <= |m0|
      ensures m[from..from + n] == m0[from..from + n]
    {
    }

    /** The name a process gets. */
    method MakeName(name: Option<seq<byte>>) returns (stored: seq<byte>)
      requires name.Some? ==> PROC_NAME_MAX - 1 <= |name.value| || 0 in name.value
      ensures stored == StoredName(name)
    {
      var field := new byte[PROC_NAME_MAX](_ => 0);
      if name.Some? {
        Strncpy(field, name.value, PROC_NAME_MAX - 1);
        field[PROC_NAME_MAX - 1] := 0;
      }
      return field[..];
    }

    /** The end of proc_create: the process, its address space built, is entered in slot `i`. */
    method EnterProc(i: nat, birth: Birth, ghost s0: Snapshot, ghost newFrames: seq<nat>, ghost image: Mem)
      requires Indexed() && machine.Valid() && Isolated(machine.lay, s0)
      requires Snap() == s0.(mem := machine.Bytes(), uses := machine.uses, next := machine.nextPaddr)
      requires FirstIn(procs[..], Unused, 0) == Some(i)
      requires machine.nextPaddr == s0.next + PAGE_SIZE * CreateCost(machine.lay, |image|)
      requires Grown(s0.uses, machine.uses, s0.next, nextPid) && AgreeBelow(s0.mem, machine.Bytes(), s0.next)
      requires |newFrames| == PagesOf(|image|)
      requires SpaceOk(machine.lay, machine.Bytes(), machine.uses, NewProc(nextPid, birth), newFrames)
      requires ImageHeld(machine.Bytes(), machine.uses, nextPid, newFrames, image)
      modifies this`nextPid, this`frames, procs
      ensures Valid() && Sched.Create(old(Sys()), birth) == Done(Sys()) && procs[i] == NewProc(old(nextPid), birth)
      ensures Created(machine.lay, s0, Snap(), i, image)
      ensures old(Ok(Sys())) ==> Ok(Sys())
    {
      hide SpaceOk, ImageHeld, CreateCost, Created, Grown, AgreeBelow, Isolated;
      var p := NewProc(nextPid, birth);
      frames := frames[nextPid := newFrames];
      nextPid := nextPid + 1;
      procs[i] := p;
      CreatedFrom(machine.lay, s0, Snap(), i, p, newFrames, image);
      if old(Ok(Sys())) {
        CreateKeepsOk(old(Sys()), birth);
      }
    }

    lemma NewProcFields(pid: nat, b: Birth)
      requires b.kstack + 4096 < WORD_LIMIT
      ensures var p := NewProc(pid, b);
        && p.state == Ready && p.name == b.name && p.kstackBase == b.kstack
        && FreshRegisters(p.context, b.entry, b.arg, b.trampoline, b.kstack + 4096)
    {
    }

    /** proc.c proc_create. It fails exactly when the table is full or memory is short; otherwise the process table
        takes the step of the transition system and the new address space is isolated from all others. */
    method ProcCreate(entry: word, arg: word, trampoline: word, name: Option<seq<byte>>, image: nat, size: nat)
      returns (r: Outcome<nat>, ghost slot: nat, ghost birth: Birth)
      requires Valid()
      requires image + size <= machine.lay.freeRam && ImageFits(machine.lay, size)
      requires name.Some? ==> PROC_NAME_MAX - 1 <= |name.value| || 0 in name.value
      modifies this`nextPid, this`frames, procs, machine, machine.ram
      ensures r.Done? ==>
        && slot < procs.Length && procs[slot].kstackBase + 4096 < WORD_LIMIT
        && procs[slot].state == Ready && procs[slot].name == StoredName(name)
        && FreshRegisters(procs[slot].context, entry, arg, trampoline, procs[slot].kstackBase + 4096)
      ensures r.Panic? <==>
        || FirstIn(old(procs[..]), Unused, 0) == None
        || old(machine.nextPaddr) + PAGE_SIZE * CreateCost(machine.lay, size) > machine.lay.freeRamEnd
      ensures r.Done? ==>
        && Valid() && r.value == old(nextPid)
        && Sched.Create(old(Sys()), birth) == Done(Sys())
        && birth.entry == entry && birth.arg == arg && birth.trampoline == trampoline && birth.name == StoredName(name)
        && Created(machine.lay, old(Snap()), Snap(), slot, old(machine.ImageBytes(image, size)))
        && (old(Ok(Sys())) ==> Ok(Sys()))
    {
      hide SpaceOk, ImageHeld, CreateCost, Walk, UseOf, ImageFits, Created, Grown, AgreeBelow, Live, Isolated, PagesOk;
      hide Sched.Create, StoredName, Missing, NameField, Ok;
      IsolatedPages(machine.lay, Snap());
      slot, birth := 0, Birth(0, 0, 0, 0, 0, []);
      ghost var s0 := Snap();
      var free := FindState(Unused);
      if free.None? {
        return Panic, slot, birth;
      }
      var i := free.value;
      var pid := nextPid;
      var built, newFrames := BuildSpace(image, size, pid);
      if built.Panic? {
        return Panic, slot, birth;
      }
      var stored := MakeName(name);
      slot, birth := i, Birth(built.value.1, built.value.0, entry, arg, trampoline, stored);
      EnterProc(i, Birth(built.value.1, built.value.0, entry, arg, trampoline, stored), s0, newFrames,
                old(machine.ImageBytes(image, size)));
      NewProcFields(pid, birth);
      return Done(pid), slot, birth;
    }
  }
}
