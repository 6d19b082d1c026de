/** lib/spinlock.c run by any number of CPUs on any number of locks. One step is one access
    to memory or to the interrupt bit, and a schedule lets any CPU take the next step. The
    memory barriers of the source make the steps atomic and ordered. */
module Spinlock {
  import opened Memory

  /** struct spinlock; `cpu` is a CPU number in place of the pointer. */
  datatype Spin = Spin(locked: bool, cpu: Option<nat>)

  /** Where a CPU is: in the caller's code, or before one of the accesses of a routine. push_off runs on its own
      or at the start of spinlock_acquire, which then goes on to the lock. */
  datatype Pc =
    | Idle
    | PushGet(lk: Option<nat>)
    | PushDisable(lk: Option<nat>, was: bool)
    | PushSave(lk: Option<nat>, was: bool)
    | PushCount(lk: Option<nat>)
    | AcqReadLocked(l: nat)
    | AcqReadCpu(l: nat)
    | AcqTestAndSet(l: nat)
    | AcqSetCpu(l: nat)
    | RelReadLocked(l: nat)
    | RelReadCpu(l: nat)
    | RelClearCpu(l: nat)
    | RelUnlock(l: nat)
    | PopGet
    | PopCheck
    | PopCount
    | PopRestore
    | Panicked

  /** A CPU: its interrupt bit and the fields of struct cpu, and what its caller knows: the locks it holds, the
      number of push_off calls it has not popped, and the interrupt bit it last chose outside any of them. */
  datatype Cpu = Cpu(pc: Pc, intr: bool, noff: word, intena: bool, held: set<nat>, pushes: nat, chosen: bool)

  datatype State = State(cpus: seq<Cpu>, locks: seq<Spin>)

  datatype Action = Acquire(l: nat) | Release(l: nat) | Push | Pop | SetIntr(on: bool) | Other

  // ---------------------------------------------------------------- one step

  /** The caller enters a routine, or changes the interrupt bit itself. */
  function Call(u: Cpu, a: Action): Cpu
  {
    match a
    case Acquire(l) => u.(pc := PushGet(Some(l)))
    case Release(l) => u.(pc := RelReadLocked(l))
    case Push => u.(pc := PushGet(None))
    case Pop => u.(pc := PopGet, pushes := if u.pushes == 0 then 0 else u.pushes - 1)
    case SetIntr(on) => u.(intr := on, chosen := on)
    case Other => u
  }

  /** One access by a CPU to its own fields: push_off, pop_off, and calls. */
  function OwnStep(u: Cpu, a: Action): Cpu
  {
    match u.pc
    case Idle => Call(u, a)
    case PushGet(lk) => u.(pc := PushDisable(lk, u.intr))
    case PushDisable(lk, was) => u.(pc := PushSave(lk, was), intr := false)
    case PushSave(lk, was) => u.(pc := PushCount(lk), intena := if u.noff == 0 then was else u.intena)
    case PushCount(None) => u.(pc := Idle, noff := (u.noff + 1) % WORD_LIMIT, pushes := u.pushes + 1)
    case PushCount(Some(l)) => u.(pc := AcqReadLocked(l), noff := (u.noff + 1) % WORD_LIMIT)
    case PopGet => u.(pc := if u.intr then Panicked else PopCheck)
    case PopCheck => u.(pc := if u.noff < 1 then Panicked else PopCount)
    case PopCount => u.(pc := PopRestore, noff := (u.noff + WORD_LIMIT - 1) % WORD_LIMIT)
    case PopRestore => u.(pc := Idle, intr := u.intr || (u.noff == 0 && u.intena))
    case _ => u
  }

  /** One access by CPU `c` to lock `l`: spinlock_holding, the test-and-set, and the stores to the lock. */
  function LockStep(u: Cpu, c: nat, lock: Spin): (Cpu, Spin)
  {
    match u.pc
    case AcqReadLocked(l) => (u.(pc := if lock.locked then AcqReadCpu(l) else AcqTestAndSet(l)), lock)
    case AcqReadCpu(l) => (u.(pc := if lock.cpu == Some(c) then Panicked else AcqTestAndSet(l)), lock)
    case AcqTestAndSet(l) => (if lock.locked then u else u.(pc := AcqSetCpu(l)), lock.(locked := true))
    case AcqSetCpu(l) => (u.(pc := Idle, held := u.held + {l}), lock.(cpu := Some(c)))
    case RelReadLocked(l) => (u.(pc := if lock.locked then RelReadCpu(l) else Panicked), lock)
    case RelReadCpu(l) => (u.(pc := if lock.cpu == Some(c) then RelClearCpu(l) else Panicked), lock)
    case RelClearCpu(l) => (u.(pc := RelUnlock(l)), lock.(cpu := None))
    case RelUnlock(l) => (u.(pc := PopGet, held := u.held - {l}), lock.(locked := false))
    case _ => (u, lock)
  }

  /** The lock that the next access of a CPU goes to. */
  function LockOf(pc: Pc): Option<nat>
  {
    match pc
    case AcqReadLocked(l) => Some(l)
    case AcqReadCpu(l) => Some(l)
    case AcqTestAndSet(l) => Some(l)
    case AcqSetCpu(l) => Some(l)
    case RelReadLocked(l) => Some(l)
    case RelReadCpu(l) => Some(l)
    case RelClearCpu(l) => Some(l)
    case RelUnlock(l) => Some(l)
    case _ => None
  }

  /** CPU `c` takes a step; the action matters only when it is in the caller's code. */
  function Step(s: State, c: nat, a: Action): (s': State)
    requires c < |s.cpus|
    ensures |s'.cpus| == |s.cpus| && |s'.locks| == |s.locks|
  {
    var u := s.cpus[c];
    match LockOf(u.pc)
    case None => s.(cpus := s.cpus[c := OwnStep(u, a)])
    case Some(l) =>
      if l < |s.locks| then
        var (u', lock') := LockStep(u, c, s.locks[l]);
        State(s.cpus[c := u'], s.locks[l := lock'])
      else s
  }

  // ---------------------------------------------------------------- callers that pair their calls

  /** A caller acquires a lock it does not hold, releases one it holds, pops what it pushed, leaves the interrupt bit
      alone in between, and does not nest 2^32 deep. */
  predicate Legal(s: State, c: nat, a: Action)
    requires c < |s.cpus|
  {
    var u := s.cpus[c];
    u.pc == Idle ==>
      match a
      case Acquire(l) => l < |s.locks| && l !in u.held && u.noff < WORD_LIMIT - 1
      case Release(l) => l in u.held
      case Push => u.noff < WORD_LIMIT - 1
      case Pop => u.pushes > 0
      case SetIntr(_) => u.noff == 0
      case Other => true
  }

  type Schedule = seq<(nat, Action)>

  predicate LegalRun(s: State, sched: Schedule)
    decreases |sched|
  {
    sched == []
    || (sched[0].0 < |s.cpus| && Legal(s, sched[0].0, sched[0].1)
        && LegalRun(Step(s, sched[0].0, sched[0].1), sched[1..]))
  }

  function Run(s: State, sched: Schedule): (s': State)
    requires LegalRun(s, sched)
    ensures |s'.cpus| == |s.cpus| && |s'.locks| == |s.locks|
    decreases |sched|
  {
    if sched == [] then s else Run(Step(s, sched[0].0, sched[0].1), sched[1..])
  }

  /** All locks initialised, all CPUs in their callers' code, each with any interrupt bit and any stale `intena`. */
  ghost predicate Init(s: State)
  {
    && (forall c | 0 <= c < |s.cpus| :: var u := s.cpus[c];
          u.pc == Idle && u.noff == 0 && u.held == {} && u.pushes == 0 && u.chosen == u.intr)
    && (forall l | 0 <= l < |s.locks| :: s.locks[l] == Spin(false, None))
  }

  // ---------------------------------------------------------------- the invariant

  /** The CPU is past its successful test-and-set of the lock and before the store that releases it. */
  predicate Owns(u: Cpu, l: nat)
  {
    l in u.held || u.pc == AcqSetCpu(l)
  }

  /** The lock names the CPU: it owns it and has not begun to let go. */
  predicate Named(u: Cpu, l: nat)
  {
    l in u.held && u.pc != RelUnlock(l)
  }

  /** A lock or a push that noff counts but the caller does not have yet, or has no more. */
  function InFlight(pc: Pc): nat
  {
    match pc
    case AcqReadLocked(_) => 1
    case AcqReadCpu(_) => 1
    case AcqTestAndSet(_) => 1
    case AcqSetCpu(_) => 1
    case PopGet => 1
    case PopCheck => 1
    case PopCount => 1
    case _ => 0
  }

  function Acquiring(pc: Pc): Option<nat>
  {
    if pc.PushGet? || pc.PushDisable? || pc.PushSave? || pc.PushCount? then pc.lk
    else if pc.AcqReadLocked? || pc.AcqReadCpu? || pc.AcqTestAndSet? || pc.AcqSetCpu? then Some(pc.l)
    else None
  }

  function Releasing(pc: Pc): Option<nat>
  {
    if pc.RelReadLocked? || pc.RelReadCpu? || pc.RelClearCpu? || pc.RelUnlock? then Some(pc.l) else None
  }

  /** noff counts the held locks, the pushes not popped and what is in flight. */
  predicate Counts(u: Cpu)
  {
    u.noff == |u.held| + u.pushes + InFlight(u.pc)
  }

  /** Interrupts are off under any push, and the saved bit is the one to restore. */
  predicate Masked(u: Cpu)
  {
    && (u.noff > 0 ==> !u.intr && u.intena == u.chosen)
    && (u.noff == 0 && (u.pc.Idle? || u.pc.PushGet? || u.pc.PushDisable?) ==> u.intr == u.chosen)
    && (u.noff == 0 && (u.pc.PushDisable? || u.pc.PushSave?) ==> u.pc.was == u.chosen)
    && (u.pc.PushSave? || u.pc.PushCount? || u.pc.PopRestore? ==> !u.intr)
    && (u.pc.PushCount? || u.pc.PopRestore? ==> u.intena == u.chosen)
    && (u.pc.PushGet? || u.pc.PushDisable? || u.pc.PushSave? || u.pc.PushCount? ==> u.noff < WORD_LIMIT - 1)
  }

  predicate CpuOk(u: Cpu, nlocks: nat)
  {
    && u.pc != Panicked && Counts(u) && Masked(u)
    && (forall l | l in u.held :: l < nlocks)
    && (Acquiring(u.pc).Some? ==> Acquiring(u.pc).value < nlocks && Acquiring(u.pc).value !in u.held)
    && (Releasing(u.pc).Some? ==> Releasing(u.pc).value in u.held)
  }

  /** A lock and the CPU that owns it, if any: nobody else owns it, it is taken exactly when it has an owner, and it
      names its owner from the store after the test-and-set to the store before the release. */
  ghost predicate LockOk(cpus: seq<Cpu>, lock: Spin, l: nat, owner: Option<nat>)
  {
    && (owner.Some? ==> owner.value < |cpus|)
    && (forall c: nat | c < |cpus| :: Owns(cpus[c], l) <==> owner == Some(c))
    && lock.locked == owner.Some?
    && lock.cpu == if owner.Some? && Named(cpus[owner.value], l) then owner else None
  }

  /** The state keeps the protocol, and `owners` are the owners of its locks. */
  ghost predicate Inv(s: State, owners: seq<Option<nat>>)
  {
    && |owners| == |s.locks|
    && (forall c | 0 <= c < |s.cpus| :: CpuOk(s.cpus[c], |s.locks|))
    && (forall l | 0 <= l < |s.locks| :: LockOk(s.cpus, s.locks[l], l, owners[l]))
  }

  lemma InitInv(s: State)
    requires Init(s)
    ensures Inv(s, seq(|s.locks|, _ => None))
  {
  }

  /** The owner of a lock after a step on it. */
  function NextOwner(pc: Pc, c: nat, lock: Spin, owner: Option<nat>): Option<nat>
  {
    if pc.AcqTestAndSet? && !lock.locked then Some(c) else if pc.RelUnlock? then None else owner
  }

  /** The locks as atomic objects: a successful test-and-set takes one, the releasing store gives it back, no other
      step matters. */
  function NextOwners(s: State, c: nat, owners: seq<Option<nat>>): (o: seq<Option<nat>>)
    requires c < |s.cpus|
    ensures |o| == |owners|
  {
    match s.cpus[c].pc
    case AcqTestAndSet(l) =>
      if l < |owners| && l < |s.locks| && !s.locks[l].locked then owners[l := Some(c)] else owners
    case RelUnlock(l) => if l < |owners| then owners[l := None] else owners
    case _ => owners
  }

  /** A call by a caller that pairs its calls. */
  lemma CallOk(u: Cpu, a: Action, nlocks: nat)
    requires CpuOk(u, nlocks) && u.pc == Idle && Legal(State([u], seq(nlocks, _ => Spin(false, None))), 0, a)
    ensures CpuOk(Call(u, a), nlocks)
  {
    if a.Release? { assert |u.held| > 0; }
  }

  lemma PushStepOk(u: Cpu, a: Action, nlocks: nat)
    requires CpuOk(u, nlocks) && (u.pc.PushGet? || u.pc.PushDisable? || u.pc.PushSave? || u.pc.PushCount?)
    ensures CpuOk(OwnStep(u, a), nlocks)
  {
  }

  lemma PopStepOk(u: Cpu, a: Action, nlocks: nat)
    requires CpuOk(u, nlocks) && (u.pc.PopGet? || u.pc.PopCheck? || u.pc.PopCount? || u.pc.PopRestore?)
    ensures CpuOk(OwnStep(u, a), nlocks)
  {
  }

  /** A step on the CPU's own fields keeps what is required of it, and it owns the same locks. */
  lemma OwnStepOk(u: Cpu, a: Action, nlocks: nat)
    requires CpuOk(u, nlocks) && LockOf(u.pc).None?
    requires Legal(State([u], seq(nlocks, _ => Spin(false, None))), 0, a)
    ensures CpuOk(OwnStep(u, a), nlocks)
    ensures forall l :: (Owns(OwnStep(u, a), l) <==> Owns(u, l)) && (Named(OwnStep(u, a), l) <==> Named(u, l))
  {
    hide Counts, Masked;
    if u.pc == Idle {
      CallOk(u, a, nlocks);
    } else if u.pc.PopGet? || u.pc.PopCheck? || u.pc.PopCount? || u.pc.PopRestore? {
      PopStepOk(u, a, nlocks);
    } else {
      PushStepOk(u, a, nlocks);
    }
  }

  lemma OneMore(held: set<nat>, l: nat)
    ensures l !in held ==> |held + {l}| == |held| + 1
    ensures l in held ==> |held - {l}| == |held| - 1
  {
    if l in held { assert held == held - {l} + {l}; }
  }

  /** The two-read check at the start of an acquire never finds the CPU's own name. */
  lemma AcquireStepOk(u: Cpu, c: nat, lock: Spin, l: nat, nlocks: nat)
    requires CpuOk(u, nlocks) && LockOf(u.pc) == Some(l) && Acquiring(u.pc).Some?
    requires lock.cpu == Some(c) <==> Named(u, l)
    ensures CpuOk(LockStep(u, c, lock).0, nlocks)
  {
    if u.pc.AcqSetCpu? { OneMore(u.held, l); }
  }

  /** The two-read check at the start of a release always finds the CPU's own name. */
  lemma ReleaseStepOk(u: Cpu, c: nat, lock: Spin, l: nat, nlocks: nat)
    requires CpuOk(u, nlocks) && LockOf(u.pc) == Some(l) && Releasing(u.pc).Some?
    requires lock.locked && (lock.cpu == Some(c) <==> Named(u, l))
    ensures CpuOk(LockStep(u, c, lock).0, nlocks)
  {
    OneMore(u.held, l);
  }

  /** A step on a lock that is in order leaves it in order, its owner changed as for an atomic lock. */
  lemma LockStepOk(cpus: seq<Cpu>, lock: Spin, l: nat, owner: Option<nat>, c: nat, nlocks: nat)
    requires c < |cpus| && LockOf(cpus[c].pc) == Some(l) && CpuOk(cpus[c], nlocks) && LockOk(cpus, lock, l, owner)
    ensures var (u', lock') := LockStep(cpus[c], c, lock);
      && CpuOk(u', nlocks)
      && LockOk(cpus[c := u'], lock', l,
                NextOwner(cpus[c].pc, c, lock, owner))
  {
    hide Counts, Masked;
    assert Owns(cpus[c], l) <==> owner == Some(c);
    if Acquiring(cpus[c].pc).Some? {
      AcquireStepOk(cpus[c], c, lock, l, nlocks);
    } else {
      ReleaseStepOk(cpus[c], c, lock, l, nlocks);
    }
  }

  lemma LockStepElsewhere(u: Cpu, c: nat, lock: Spin, l: nat, k: nat)
    requires LockOf(u.pc) == Some(l) && k != l
    ensures Owns(LockStep(u, c, lock).0, k) <==> Owns(u, k)
    ensures Named(LockStep(u, c, lock).0, k) <==> Named(u, k)
  {
  }

  /** A lock is not affected by a step of a CPU that changes neither it nor the CPU's hold on it. */
  lemma LockKept(cpus: seq<Cpu>, lock: Spin, l: nat, owner: Option<nat>, c: nat, u': Cpu)
    requires c < |cpus| && LockOk(cpus, lock, l, owner)
    requires (Owns(u', l) <==> Owns(cpus[c], l)) && (Named(u', l) <==> Named(cpus[c], l))
    ensures LockOk(cpus[c := u'], lock, l, owner)
  {
  }

  /** Every step of the protocol is a step of atomic locks: a test-and-set succeeds only on a lock without owner, and
      only the owner releases. */
  lemma StepRefines(s: State, owners: seq<Option<nat>>, c: nat, a: Action)
    requires Inv(s, owners) && c < |s.cpus| && Legal(s, c, a)
    ensures Inv(Step(s, c, a), NextOwners(s, c, owners))
    ensures match s.cpus[c].pc
      case AcqTestAndSet(l) => l < |owners| && (s.locks[l].locked <==> owners[l].Some?)
      case RelUnlock(l) => l < |owners| && owners[l] == Some(c)
      case _ => true
  {
    hide CpuOk, LockOk, Owns, Named, OwnStep, LockStep;
    var u, n := s.cpus[c], |s.locks|;
    var owners', s' := NextOwners(s, c, owners), Step(s, c, a);
    match LockOf(u.pc)
    case None =>
      OwnStepOk(u, a, n);
      forall k | 0 <= k < n ensures LockOk(s'.cpus, s'.locks[k], k, owners'[k]) {
        LockKept(s.cpus, s.locks[k], k, owners[k], c, OwnStep(u, a));
      }
    case Some(l) =>
      LockIndex(u, n, l);
      LockStepOk(s.cpus, s.locks[l], l, owners[l], c, n);
      OwnerAt(s.cpus, s.locks[l], l, owners[l], c, n);
      forall k | 0 <= k < n ensures LockOk(s'.cpus, s'.locks[k], k, owners'[k]) {
        if k != l {
          LockStepElsewhere(u, c, s.locks[l], l, k);
          LockKept(s.cpus, s.locks[k], k, owners[k], c, s'.cpus[c]);
        }
      }
  }

  lemma LockIndex(u: Cpu, nlocks: nat, l: nat)
    requires CpuOk(u, nlocks) && LockOf(u.pc) == Some(l)
    ensures l < nlocks
  {
  }

  lemma OwnerAt(cpus: seq<Cpu>, lock: Spin, l: nat, owner: Option<nat>, c: nat, nlocks: nat)
    requires c < |cpus| && LockOf(cpus[c].pc) == Some(l) && CpuOk(cpus[c], nlocks) && LockOk(cpus, lock, l, owner)
    ensures lock.locked <==> owner.Some?
    ensures cpus[c].pc.RelUnlock? ==> owner == Some(c)
  {
    assert Owns(cpus[c], l) <==> owner == Some(c);
  }

  // ---------------------------------------------------------------- all runs

  lemma {:induction false} RunKeeps(s: State, owners: seq<Option<nat>>, sched: Schedule)
    requires Inv(s, owners) && LegalRun(s, sched)
    ensures exists o :: Inv(Run(s, sched), o)
    decreases |sched|
  {
    hide Inv, Legal, Step;
    if sched == [] {
      assert Inv(Run(s, sched), owners);
    } else {
      StepRefines(s, owners, sched[0].0, sched[0].1);
      var s1 := Step(s, sched[0].0, sched[0].1);
      RunKeeps(s1, NextOwners(s, sched[0].0, owners), sched[1..]);
      var o :| Inv(Run(s1, sched[1..]), o);
      assert Inv(Run(s, sched), o);
    }
  }

  /** At most one CPU owns each lock. */
  ghost predicate Exclusive(s: State)
  {
    forall l: nat, c: nat, d: nat | c < |s.cpus| && d < |s.cpus| && Owns(s.cpus[c], l) && Owns(s.cpus[d], l) :: c == d
  }

  /** spinlock_holding, whenever its two reads happen, never finds a lock naming a CPU that does not hold it, and finds
      a held lock taken and naming its holder. */
  ghost predicate HoldingSound(s: State)
  {
    forall l: nat, c: nat | l < |s.locks| && c < |s.cpus| ::
      && (s.locks[l].cpu == Some(c) ==> l in s.cpus[c].held)
      && (Named(s.cpus[c], l) ==> s.locks[l].locked && s.locks[l].cpu == Some(c))
  }

  ghost predicate NoPanic(s: State)
  {
    forall c | 0 <= c < |s.cpus| :: s.cpus[c].pc != Panicked
  }

  /** noff is the nesting depth: locks held, pushes not popped, and one for a lock on its way in or a pop on its way
      out. */
  ghost predicate NoffIsDepth(s: State)
  {
    forall c | 0 <= c < |s.cpus| :: var u := s.cpus[c]; u.noff == |u.held| + u.pushes + InFlight(u.pc)
  }

  /** Interrupts are off at any depth above 0, and as the caller chose them outside. */
  ghost predicate InterruptsRestored(s: State)
  {
    forall c | 0 <= c < |s.cpus| :: var u := s.cpus[c];
      && (u.noff > 0 ==> !u.intr)
      && (u.noff == 0 && u.pc == Idle ==> u.intr == u.chosen)
  }

  /** Spinlock safety over every interleaving of any number of CPUs and locks. */
  lemma RunsAreSafe(s: State, sched: Schedule)
    requires Init(s) && LegalRun(s, sched)
    ensures var t := Run(s, sched);
      Exclusive(t) && HoldingSound(t) && NoPanic(t) && NoffIsDepth(t) && InterruptsRestored(t)
  {
    InitInv(s);
    RunKeeps(s, seq(|s.locks|, _ => None), sched);
    var t := Run(s, sched);
    var owners :| Inv(t, owners);
    InvIsSafe(t, owners);
  }

  lemma InvIsSafe(t: State, owners: seq<Option<nat>>)
    requires Inv(t, owners)
    ensures Exclusive(t) && HoldingSound(t) && NoPanic(t) && NoffIsDepth(t) && InterruptsRestored(t)
  {
    forall l: nat, c: nat, d: nat | c < |t.cpus| && d < |t.cpus| && Owns(t.cpus[c], l) && Owns(t.cpus[d], l)
      ensures c == d
    {
      assert CpuOk(t.cpus[c], |t.locks|);
      assert l < |t.locks| && LockOk(t.cpus, t.locks[l], l, owners[l]);
    }
    forall l: nat, c: nat | l < |t.locks| && c < |t.cpus|
      ensures t.locks[l].cpu == Some(c) ==> l in t.cpus[c].held
      ensures Named(t.cpus[c], l) ==> t.locks[l].locked && t.locks[l].cpu == Some(c) {
      assert LockOk(t.cpus, t.locks[l], l, owners[l]);
      assert Owns(t.cpus[c], l) <==> owners[l] == Some(c);
    }
  }

  // ---------------------------------------------------------------- one CPU on its own

  /** `n` steps of CPU `c` alone. */
  function Alone(s: State, c: nat, n: nat): (s': State)
    requires c < |s.cpus|
    ensures |s'.cpus| == |s.cpus| && |s'.locks| == |s.locks|
    decreases n
  {
    if n == 0 then s else Alone(Step(s, c, Other), c, n - 1)
  }

  /** The same steps seen from the CPU and the one lock it works on. */
  function Solo(u: Cpu, c: nat, lock: Spin, n: nat): (Cpu, Spin)
    decreases n
  {
    if n == 0 then (u, lock)
    else if LockOf(u.pc).None? then Solo(OwnStep(u, Other), c, lock, n - 1)
    else Solo(LockStep(u, c, lock).0, c, LockStep(u, c, lock).1, n - 1)
  }

  /** The CPU works on lock `l` or on none. */
  predicate Only(pc: Pc, l: nat)
  {
    && (Acquiring(pc).Some? ==> Acquiring(pc) == Some(l))
    && (Releasing(pc).Some? ==> Releasing(pc) == Some(l))
  }

  lemma OnlyKept(u: Cpu, c: nat, lock: Spin, l: nat)
    requires Only(u.pc, l)
    ensures LockOf(u.pc).None? ==> Only(OwnStep(u, Other).pc, l)
    ensures LockOf(u.pc).Some? ==> LockOf(u.pc) == Some(l) && Only(LockStep(u, c, lock).0.pc, l)
  {
    if LockOf(u.pc).None? {
      hide LockStep;
    } else {
      hide OwnStep;
    }
  }

  lemma {:induction false} AloneIsSolo(s: State, c: nat, l: nat, n: nat)
    requires c < |s.cpus| && l < |s.locks| && Only(s.cpus[c].pc, l)
    ensures var (u, lock) := Solo(s.cpus[c], c, s.locks[l], n);
      Alone(s, c, n) == State(s.cpus[c := u], s.locks[l := lock])
    decreases n
  {
    hide OwnStep, LockStep, Only;
    if n == 0 {
      assert s.cpus[c := s.cpus[c]] == s.cpus && s.locks[l := s.locks[l]] == s.locks;
    } else {
      OnlyKept(s.cpus[c], c, s.locks[l], l);
      AloneIsSolo(Step(s, c, Other), c, l, n - 1);
    }
  }

  /** The CPU's fields after push_off. */
  function Pushed(u: Cpu): Cpu
  {
    u.(intr := false, noff := (u.noff + 1) % WORD_LIMIT, intena := if u.noff == 0 then u.intr else u.intena)
  }

  /** push_off at the start of an acquire. */
  lemma SoloPush(u: Cpu, c: nat, l: nat, lock: Spin, n: nat)
    requires u.pc == PushGet(Some(l)) && n >= 4
    ensures Solo(u, c, lock, n) == Solo(Pushed(u).(pc := AcqReadLocked(l)), c, lock, n - 4)
  {
    var u1 := u.(pc := PushDisable(Some(l), u.intr));
    var u2 := u.(pc := PushSave(Some(l), u.intr), intr := false);
    var u3 := u2.(pc := PushCount(Some(l)), intena := if u.noff == 0 then u.intr else u.intena);
    assert Solo(u, c, lock, n) == Solo(u1, c, lock, n - 1);
    assert Solo(u1, c, lock, n - 1) == Solo(u2, c, lock, n - 2);
    assert Solo(u2, c, lock, n - 2) == Solo(u3, c, lock, n - 3);
  }

  lemma SoloStep(u: Cpu, c: nat, lock: Spin, n: nat)
    requires n > 0
    ensures LockOf(u.pc).None? ==> Solo(u, c, lock, n) == Solo(OwnStep(u, Other), c, lock, n - 1)
    ensures LockOf(u.pc).Some? ==>
      Solo(u, c, lock, n) == Solo(LockStep(u, c, lock).0, c, LockStep(u, c, lock).1, n - 1)
  {
    hide OwnStep, LockStep;
  }

  /** pop_off not at depth 0. */
  lemma SoloPop(u: Cpu, c: nat, lock: Spin)
    requires u.pc == PopGet && !u.intr && u.noff > 0
    ensures Solo(u, c, lock, 4) == (u.(pc := Idle, noff := u.noff - 1, intr := u.noff == 1 && u.intena), lock)
  {
    hide Solo;
    var u1, u2, u3 := u.(pc := PopCheck), u.(pc := PopCount), u.(pc := PopRestore, noff := u.noff - 1);
    SoloStep(u, c, lock, 4);
    SoloStep(u1, c, lock, 3);
    SoloStep(u2, c, lock, 2);
    SoloStep(u3, c, lock, 1);
    SoloNothing(OwnStep(u3, Other), c, lock);
  }

  lemma SoloNothing(u: Cpu, c: nat, lock: Spin)
    ensures Solo(u, c, lock, 0) == (u, lock)
  {
  }

  /** The rest of an acquire of a free lock. */
  lemma SoloTake(u: Cpu, c: nat, l: nat)
    requires u.pc == AcqReadLocked(l)
    ensures Solo(u, c, Spin(false, None), 3) == (u.(pc := Idle, held := u.held + {l}), Spin(true, Some(c)))
  {
    assert Solo(u, c, Spin(false, None), 3) == Solo(u.(pc := AcqTestAndSet(l)), c, Spin(false, None), 2);
    assert Solo(u.(pc := AcqTestAndSet(l)), c, Spin(false, None), 2)
      == Solo(u.(pc := AcqSetCpu(l)), c, Spin(true, None), 1);
    assert Solo(u.(pc := AcqSetCpu(l)), c, Spin(true, None), 1)
      == Solo(u.(pc := Idle, held := u.held + {l}), c, Spin(true, Some(c)), 0);
  }

  /** A release by the holder, up to its pop_off. */
  lemma SoloGive(u: Cpu, c: nat, l: nat, n: nat)
    requires u.pc == RelReadLocked(l) && n >= 4
    ensures Solo(u, c, Spin(true, Some(c)), n)
      == Solo(u.(pc := PopGet, held := u.held - {l}), c, Spin(false, None), n - 4)
  {
    assert Solo(u, c, Spin(true, Some(c)), n) == Solo(u.(pc := RelReadCpu(l)), c, Spin(true, Some(c)), n - 1);
    assert Solo(u.(pc := RelReadCpu(l)), c, Spin(true, Some(c)), n - 1)
      == Solo(u.(pc := RelClearCpu(l)), c, Spin(true, Some(c)), n - 2);
    assert Solo(u.(pc := RelClearCpu(l)), c, Spin(true, Some(c)), n - 2)
      == Solo(u.(pc := RelUnlock(l)), c, Spin(true, None), n - 3);
  }

  /** What the invariant says of one CPU and one lock. */
  lemma InvAt(s: State, owners: seq<Option<nat>>, c: nat, l: nat)
    requires Inv(s, owners) && c < |s.cpus| && l < |s.locks| && s.cpus[c].pc == Idle
    ensures var u, lock := s.cpus[c], s.locks[l];
      && (l in u.held <==> lock == Spin(true, Some(c)))
      && (lock.cpu == Some(c) ==> l in u.held) && (!lock.locked ==> lock.cpu == None)
      && (u.noff > 0 ==> !u.intr)
  {
    assert LockOk(s.cpus, s.locks[l], l, owners[l]) && CpuOk(s.cpus[c], |s.locks|);
    assert Owns(s.cpus[c], l) <==> owners[l] == Some(c);
  }

  /** The two-read check before the test-and-set, undisturbed. */
  lemma SoloCheck(u: Cpu, c: nat, l: nat, lock: Spin)
    requires u.pc == AcqReadLocked(l) && (lock.cpu == Some(c) ==> lock.locked)
    ensures Solo(u, c, lock, 2).0.pc == Panicked <==> lock == Spin(true, Some(c))
  {
    if lock.locked {
      assert Solo(u, c, lock, 2) == Solo(u.(pc := AcqReadCpu(l)), c, lock, 1);
    } else {
      assert Solo(u, c, lock, 2) == Solo(u.(pc := AcqTestAndSet(l)), c, lock, 1);
    }
  }

  /** The caller's discipline is exactly what keeps the checks quiet: an acquire panics if and only if the CPU holds the
      lock already. */
  lemma AcquirePanicsIff(s: State, owners: seq<Option<nat>>, c: nat, l: nat)
    requires Inv(s, owners) && c < |s.cpus| && s.cpus[c].pc == Idle && l < |s.locks|
    ensures Alone(Step(s, c, Acquire(l)), c, 6).cpus[c].pc == Panicked <==> l in s.cpus[c].held
  {
    hide Inv, Step, Solo, OwnStep, LockStep, Alone;
    InvAt(s, owners, c, l);
    EnterAcquire(s, c, l);
    var s0 := Step(s, c, Acquire(l));
    var u, lock := s0.cpus[c], s0.locks[l];
    AloneIsSolo(s0, c, l, 6);
    SoloPush(u, c, l, lock, 6);
    SoloCheck(Pushed(u).(pc := AcqReadLocked(l)), c, l, lock);
  }

  /** The two-read check of a release, undisturbed. */
  lemma SoloReleaseCheck(u: Cpu, c: nat, l: nat, lock: Spin)
    requires u.pc == RelReadLocked(l)
    ensures Solo(u, c, lock, 2).0.pc == Panicked <==> lock != Spin(true, Some(c))
  {
    if lock.locked {
      assert Solo(u, c, lock, 2) == Solo(u.(pc := RelReadCpu(l)), c, lock, 1);
    } else {
      assert Solo(u, c, lock, 2) == Solo(u.(pc := Panicked), c, lock, 1);
    }
  }

  /** A release panics if and only if the CPU does not hold the lock. */
  lemma ReleasePanicsIff(s: State, owners: seq<Option<nat>>, c: nat, l: nat)
    requires Inv(s, owners) && c < |s.cpus| && s.cpus[c].pc == Idle && l < |s.locks|
    ensures Alone(Step(s, c, Release(l)), c, 2).cpus[c].pc == Panicked <==> l !in s.cpus[c].held
  {
    hide Inv, Step, Solo, OwnStep, LockStep, Alone;
    InvAt(s, owners, c, l);
    EnterRelease(s, c, l);
    var s0 := Step(s, c, Release(l));
    AloneIsSolo(s0, c, l, 2);
    SoloReleaseCheck(s0.cpus[c], c, l, s0.locks[l]);
  }

  /** A pop panics if and only if nothing is pushed or held. */
  lemma PopPanicsIff(s: State, owners: seq<Option<nat>>, c: nat)
    requires Inv(s, owners) && c < |s.cpus| && s.cpus[c].pc == Idle
    ensures Alone(Step(s, c, Pop), c, 2).cpus[c].pc == Panicked <==> s.cpus[c].noff == 0
  {
    assert CpuOk(s.cpus[c], |s.locks|);
    hide Inv, CpuOk, LockStep;
    var s0 := Step(s, c, Pop);
    var s1 := Step(s0, c, Other);
    assert Alone(s0, c, 2) == Alone(s1, c, 1);
    assert Alone(s1, c, 1) == Alone(Step(s1, c, Other), c, 0);
  }

  /** The CPU once it holds a free lock. */
  function Holder(u: Cpu, l: nat): Cpu
    requires u.noff < WORD_LIMIT - 1
  {
    Pushed(u).(held := u.held + {l})
  }

  lemma AcquireAlone(s: State, c: nat, l: nat)
    requires c < |s.cpus| && s.cpus[c].pc == Idle && l < |s.locks|
    requires s.locks[l] == Spin(false, None) && s.cpus[c].noff < WORD_LIMIT - 1
    ensures Alone(Step(s, c, Acquire(l)), c, 7)
      == State(s.cpus[c := Holder(s.cpus[c], l)], s.locks[l := Spin(true, Some(c))])
  {
    hide Step, OwnStep, LockStep;
    var u, s0 := s.cpus[c], Step(s, c, Acquire(l));
    EnterAcquire(s, c, l);
    AloneIsSolo(s0, c, l, 7);
    SoloPush(s0.cpus[c], c, l, Spin(false, None), 7);
    SoloTake(Pushed(u).(pc := AcqReadLocked(l)), c, l);
    assert s0.cpus[c := Holder(u, l)] == s.cpus[c := Holder(u, l)];
  }

  lemma ReleaseAlone(s: State, c: nat, l: nat)
    requires c < |s.cpus| && s.cpus[c].pc == Idle && l < |s.locks| && s.locks[l] == Spin(true, Some(c))
    requires !s.cpus[c].intr && s.cpus[c].noff > 0
    ensures var u := s.cpus[c];
      Alone(Step(s, c, Release(l)), c, 8)
      == State(s.cpus[c := u.(held := u.held - {l}, noff := u.noff - 1, intr := u.noff == 1 && u.intena)],
               s.locks[l := Spin(false, None)])
  {
    hide Step, OwnStep, LockStep;
    var u, s0 := s.cpus[c], Step(s, c, Release(l));
    EnterRelease(s, c, l);
    AloneIsSolo(s0, c, l, 8);
    SoloGive(s0.cpus[c], c, l, 8);
    SoloPop(u.(pc := PopGet, held := u.held - {l}), c, Spin(false, None));
    var v := u.(held := u.held - {l}, noff := u.noff - 1, intr := u.noff == 1 && u.intena);
    assert s0.cpus[c := v] == s.cpus[c := v];
  }

  /** A pop not at depth 0, undisturbed. */
  lemma PopAlone(s: State, c: nat, l: nat)
    requires c < |s.cpus| && s.cpus[c].pc == Idle && l < |s.locks| && !s.cpus[c].intr && s.cpus[c].noff > 0
    ensures var u := Call(s.cpus[c], Pop);
      Alone(Step(s, c, Pop), c, 4)
      == s.(cpus := s.cpus[c := u.(pc := Idle, noff := u.noff - 1, intr := u.noff == 1 && u.intena)])
  {
    hide OwnStep, LockStep, Solo, Alone;
    var u, s0 := Call(s.cpus[c], Pop), Step(s, c, Pop);
    EnterPop(s, c);
    AloneIsSolo(s0, c, l, 4);
    SoloPop(u, c, s.locks[l]);
    var v := u.(pc := Idle, noff := u.noff - 1, intr := u.noff == 1 && u.intena);
    assert s0.cpus[c := v] == s.cpus[c := v] && s.locks[l := s.locks[l]] == s.locks;
  }

  lemma EnterPop(s: State, c: nat)
    requires c < |s.cpus| && s.cpus[c].pc == Idle
    ensures Step(s, c, Pop) == s.(cpus := s.cpus[c := Call(s.cpus[c], Pop)])
  {
  }

  /** A pop with nothing pushed, by a CPU that holds a lock, is not caught: it ends in the caller's code with every lock
      still held and one level of interrupt masking lost. With one lock held the interrupt bit is back to what was
      chosen outside, inside the critical section, and no state of the protocol is like that. */
  lemma UnpairedPop(s: State, owners: seq<Option<nat>>, c: nat, l: nat)
    requires Inv(s, owners) && c < |s.cpus| && s.cpus[c].pc == Idle && s.cpus[c].pushes == 0 && l in s.cpus[c].held
    ensures s.cpus[c].noff > 0
    ensures var u, t := s.cpus[c], Alone(Step(s, c, Pop), c, 4);
      && t == s.(cpus := s.cpus[c := u.(noff := u.noff - 1, intr := u.noff == 1 && u.intena)])
      && (|u.held| == 1 ==> t.cpus[c].intr == u.chosen)
      && forall owners' :: !Inv(t, owners')
  {
    hide LockOk, OwnStep, LockStep, Alone, Step;
    var u := s.cpus[c];
    assert CpuOk(u, |s.locks|) && |u.held| > 0;
    PopAlone(s, c, l);
    var t := Alone(Step(s, c, Pop), c, 4);
    assert !Counts(t.cpus[c]) && !CpuOk(t.cpus[c], |t.locks|);
  }

  /** Acquiring a free lock and releasing it, undisturbed, restores the CPU and the lock: only the saved copy of the
      interrupt bit can differ. */
  lemma AcquireThenRelease(s: State, owners: seq<Option<nat>>, c: nat, l: nat)
    requires Inv(s, owners) && c < |s.cpus| && s.cpus[c].pc == Idle && l < |s.locks|
    requires !s.locks[l].locked && s.cpus[c].noff < WORD_LIMIT - 1
    ensures var held := Alone(Step(s, c, Acquire(l)), c, 7);
      && held.cpus[c] == Holder(s.cpus[c], l)
      && var u := s.cpus[c];
         Alone(Step(held, c, Release(l)), c, 8)
           == s.(cpus := s.cpus[c := u.(intena := if u.noff == 0 then u.intr else u.intena)])
  {
    hide *;
    InvAt(s, owners, c, l);
    var u, h := s.cpus[c], Holder(s.cpus[c], l);
    HolderReleased(u, l);
    AcquireAlone(s, c, l);
    ReleaseAlone(State(s.cpus[c := h], s.locks[l := Spin(true, Some(c))]), c, l);
    var v := h.(held := h.held - {l}, noff := h.noff - 1, intr := h.noff == 1 && h.intena);
    assert s.cpus[c := h][c := v] == s.cpus[c := v];
    assert s.locks[l := Spin(true, Some(c))][l := Spin(false, None)] == s.locks;
  }

  lemma HolderReleased(u: Cpu, l: nat)
    requires u.noff < WORD_LIMIT - 1 && l !in u.held && (u.noff > 0 ==> !u.intr)
    ensures var h := Holder(u, l);
      && !h.intr && h.noff > 0 && h.pc == u.pc
      && h.(held := h.held - {l}, noff := h.noff - 1, intr := h.noff == 1 && h.intena)
         == u.(intena := if u.noff == 0 then u.intr else u.intena)
  {
    assert u.held + {l} - {l} == u.held;
  }

  lemma EnterAcquire(s: State, c: nat, l: nat)
    requires c < |s.cpus| && s.cpus[c].pc == Idle
    ensures Step(s, c, Acquire(l)) == s.(cpus := s.cpus[c := s.cpus[c].(pc := PushGet(Some(l)))])
  {
  }

  lemma EnterRelease(s: State, c: nat, l: nat)
    requires c < |s.cpus| && s.cpus[c].pc == Idle
    ensures Step(s, c, Release(l)) == s.(cpus := s.cpus[c := s.cpus[c].(pc := RelReadLocked(l))])
  {
  }

  // ---------------------------------------------------------------- callers that do not pair their calls

  /** The schedule names CPUs that exist. */
  predicate InRange(s: State, sched: Schedule)
  {
    forall i | 0 <= i < |sched| :: sched[i].0 < |s.cpus|
  }

  function Exec(s: State, sched: Schedule): (s': State)
    requires InRange(s, sched)
    ensures |s'.cpus| == |s.cpus|
    decreases |sched|
  {
    if sched == [] then s else Exec(Step(s, sched[0].0, sched[0].1), sched[1..])
  }

  /** All CPUs but `me` pair their calls; `me` takes steps at any time. */
  predicate OthersLegal(s: State, me: nat, sched: Schedule)
    requires InRange(s, sched)
    decreases |sched|
  {
    sched == []
    || ((sched[0].0 == me || Legal(s, sched[0].0, sched[0].1))
        && OthersLegal(Step(s, sched[0].0, sched[0].1), me, sched[1..]))
  }

  function StepsOf(sched: Schedule, me: nat): nat
  {
    if sched == [] then 0 else (if sched[0].0 == me then 1 else 0) + StepsOf(sched[1..], me)
  }

  /** The steps from the start of a call to the end of its checks. */
  function ToCheck(pc: Pc): nat
  {
    match pc
    case PushGet(_) => 6
    case PushDisable(_, _) => 5
    case PushSave(_, _) => 4
    case PushCount(_) => 3
    case AcqReadLocked(_) => 2
    case AcqReadCpu(_) => 1
    case RelReadLocked(_) => 2
    case RelReadCpu(_) => 1
    case PopGet => 2
    case PopCheck => 1
    case _ => 0
  }

  /** On the way to a panic: an acquire of a lock it holds, a release of one it does not hold, or a pop at depth 0. */
  predicate Misusing(u: Cpu, nlocks: nat)
  {
    match u.pc
    case PushGet(lk) => lk.Some? && lk.value in u.held && lk.value < nlocks
    case PushDisable(lk, _) => lk.Some? && lk.value in u.held && lk.value < nlocks
    case PushSave(lk, _) => lk.Some? && lk.value in u.held && lk.value < nlocks
    case PushCount(lk) => lk.Some? && lk.value in u.held && lk.value < nlocks
    case AcqReadLocked(l) => l in u.held && l < nlocks
    case AcqReadCpu(l) => l in u.held && l < nlocks
    case RelReadLocked(l) => l !in u.held && l < nlocks
    case RelReadCpu(l) => l !in u.held && l < nlocks
    case PopGet => u.noff == 0
    case PopCheck => u.noff == 0
    case Panicked => true
    case _ => false
  }

  /** The protocol is kept by all CPUs but `me`, which is on the way to a panic. */
  ghost predicate Doomed(s: State, owners: seq<Option<nat>>, me: nat)
  {
    && |owners| == |s.locks| && me < |s.cpus| && Misusing(s.cpus[me], |s.locks|)
    && (forall c | 0 <= c < |s.cpus| && c != me :: CpuOk(s.cpus[c], |s.locks|))
    && (forall l | 0 <= l < |s.locks| :: LockOk(s.cpus, s.locks[l], l, owners[l]))
  }

  /** A step of the doomed CPU: it owns what it owned, changes no lock, and comes nearer to its panic. */
  lemma OwnMisstep(u: Cpu, a: Action, nlocks: nat)
    requires Misusing(u, nlocks) && LockOf(u.pc).None?
    ensures Misusing(OwnStep(u, a), nlocks)
    ensures ToCheck(OwnStep(u, a).pc) < ToCheck(u.pc) || ToCheck(OwnStep(u, a).pc) == 0
    ensures forall l :: (Owns(OwnStep(u, a), l) <==> Owns(u, l)) && (Named(OwnStep(u, a), l) <==> Named(u, l))
  {
  }

  lemma LockMisstep(cpus: seq<Cpu>, lock: Spin, l: nat, owner: Option<nat>, me: nat, nlocks: nat)
    requires me < |cpus| && Misusing(cpus[me], nlocks) && LockOf(cpus[me].pc) == Some(l) && LockOk(cpus, lock, l, owner)
    ensures l < nlocks
    ensures var (u', lock') := LockStep(cpus[me], me, lock);
      && lock' == lock && Misusing(u', nlocks) && ToCheck(u'.pc) < ToCheck(cpus[me].pc)
      && forall k :: (Owns(u', k) <==> Owns(cpus[me], k)) && (Named(u', k) <==> Named(cpus[me], k))
  {
    assert Owns(cpus[me], l) <==> owner == Some(me);
  }

  lemma MisuserSteps(s: State, owners: seq<Option<nat>>, me: nat, a: Action)
    requires Doomed(s, owners, me)
    ensures Doomed(Step(s, me, a), owners, me)
    ensures ToCheck(Step(s, me, a).cpus[me].pc) < ToCheck(s.cpus[me].pc) || ToCheck(Step(s, me, a).cpus[me].pc) == 0
  {
    hide CpuOk, LockOk, Owns, Named, OwnStep, LockStep, Misusing, ToCheck;
    var u, n, s' := s.cpus[me], |s.locks|, Step(s, me, a);
    match LockOf(u.pc)
    case None =>
      OwnMisstep(u, a, n);
      forall k | 0 <= k < n ensures LockOk(s'.cpus, s'.locks[k], k, owners[k]) {
        LockKept(s.cpus, s.locks[k], k, owners[k], me, s'.cpus[me]);
      }
    case Some(l) =>
      MisusedIndex(u, n, l);
      LockMisstep(s.cpus, s.locks[l], l, owners[l], me, n);
      forall k | 0 <= k < n ensures LockOk(s'.cpus, s'.locks[k], k, owners[k]) {
        LockKept(s.cpus, s.locks[k], k, owners[k], me, s'.cpus[me]);
      }
  }

  lemma MisusedIndex(u: Cpu, nlocks: nat, l: nat)
    requires Misusing(u, nlocks) && LockOf(u.pc) == Some(l)
    ensures l < nlocks
  {
  }

  /** A step of another CPU does not save it. */
  lemma OtherSteps(s: State, owners: seq<Option<nat>>, me: nat, c: nat, a: Action)
    requires Doomed(s, owners, me) && c < |s.cpus| && c != me && Legal(s, c, a)
    ensures Doomed(Step(s, c, a), NextOwners(s, c, owners), me)
    ensures Step(s, c, a).cpus[me] == s.cpus[me]
  {
    hide CpuOk, LockOk, Owns, Named, OwnStep, LockStep, Misusing;
    var u, n := s.cpus[c], |s.locks|;
    var owners', s' := NextOwners(s, c, owners), Step(s, c, a);
    match LockOf(u.pc)
    case None =>
      OwnStepOk(u, a, n);
      forall k | 0 <= k < n ensures LockOk(s'.cpus, s'.locks[k], k, owners'[k]) {
        LockKept(s.cpus, s.locks[k], k, owners[k], c, OwnStep(u, a));
      }
    case Some(l) =>
      LockIndex(u, n, l);
      LockStepOk(s.cpus, s.locks[l], l, owners[l], c, n);
      OwnerAt(s.cpus, s.locks[l], l, owners[l], c, n);
      forall k | 0 <= k < n ensures LockOk(s'.cpus, s'.locks[k], k, owners'[k]) {
        if k != l {
          LockStepElsewhere(u, c, s.locks[l], l, k);
          LockKept(s.cpus, s.locks[k], k, owners[k], c, s'.cpus[c]);
        }
      }
  }

  lemma {:induction false} DoomedPanics(s: State, owners: seq<Option<nat>>, me: nat, sched: Schedule)
    requires Doomed(s, owners, me) && InRange(s, sched) && OthersLegal(s, me, sched)
    requires StepsOf(sched, me) >= ToCheck(s.cpus[me].pc)
    ensures Exec(s, sched).cpus[me].pc == Panicked
    decreases |sched|
  {
    hide Doomed, Step, Legal, ToCheck;
    if sched == [] {
      AtCheck(s, owners, me);
    } else {
      var c, a := sched[0].0, sched[0].1;
      if c == me {
        DoomedIndex(s, owners, me);
        MisuserSteps(s, owners, me, a);
        DoomedPanics(Step(s, c, a), owners, me, sched[1..]);
      } else {
        DoomedIndex(s, owners, me);
        OtherSteps(s, owners, me, c, a);
        DoomedPanics(Step(s, c, a), NextOwners(s, c, owners), me, sched[1..]);
      }
    }
  }

  lemma DoomedIndex(s: State, owners: seq<Option<nat>>, me: nat)
    requires Doomed(s, owners, me)
    ensures me < |s.cpus|
  {
  }

  lemma AtCheck(s: State, owners: seq<Option<nat>>, me: nat)
    requires Doomed(s, owners, me) && ToCheck(s.cpus[me].pc) == 0
    ensures s.cpus[me].pc == Panicked
  {
  }

  /** A call that a caller must not make: a lock acquired again, a lock released that is not held, a pop at depth 0. */
  predicate Misuse(s: State, me: nat, a: Action)
    requires me < |s.cpus|
  {
    match a
    case Acquire(l) => l < |s.locks| && l in s.cpus[me].held
    case Release(l) => l < |s.locks| && l !in s.cpus[me].held
    case Pop => s.cpus[me].noff == 0
    case _ => false
  }

  /** From any reachable state such a call ends in a panic under every schedule of the other CPUs. */
  lemma MisusePanics(s: State, owners: seq<Option<nat>>, me: nat, a: Action, sched: Schedule)
    requires Inv(s, owners) && me < |s.cpus| && s.cpus[me].pc == Idle && Misuse(s, me, a)
    requires InRange(s, sched) && OthersLegal(Step(s, me, a), me, sched) && StepsOf(sched, me) >= 6
    ensures Exec(Step(s, me, a), sched).cpus[me].pc == Panicked
  {
    hide Owns, Named, OthersLegal, CpuOk;
    var s' := Step(s, me, a);
    forall l | 0 <= l < |s.locks| ensures LockOk(s'.cpus, s'.locks[l], l, owners[l]) {
      SameHold(s.cpus[me], s'.cpus[me], l);
      LockKept(s.cpus, s.locks[l], l, owners[l], me, s'.cpus[me]);
    }
    DoomedPanics(s', owners, me, sched);
  }

  lemma SameHold(u: Cpu, u': Cpu, l: nat)
    requires u'.held == u.held && u.pc == Idle && !u'.pc.AcqSetCpu? && !u'.pc.RelUnlock?
    ensures (Owns(u', l) <==> Owns(u, l)) && (Named(u', l) <==> Named(u, l))
  {
  }

  // ---------------------------------------------------------------- what a call comes to

  /** CPU `c` is inside a routine until the end of the schedule, and then back in its caller's code. */
  predicate BusyUntil(s: State, c: nat, sched: Schedule)
    requires c < |s.cpus| && LegalRun(s, sched)
    decreases |sched|
  {
    if sched == [] then s.cpus[c].pc == Idle
    else s.cpus[c].pc != Idle && BusyUntil(Step(s, sched[0].0, sched[0].1), c, sched[1..])
  }

  /** What a caller is promised when its call returns: `u` is its CPU at the call, `u'` at the return. */
  predicate Returned(u: Cpu, u': Cpu, a: Action)
  {
    match a
    case Acquire(l) =>
      && l in u'.held && u'.held == u.held + {l} && u'.pushes == u.pushes && u'.noff == u.noff + 1
      && !u'.intr && u'.chosen == u.chosen
    case Release(l) =>
      && l !in u'.held && u'.held == u.held - {l} && u'.pushes == u.pushes && u'.noff == u.noff - 1
      && u'.intr == (u.noff == 1 && u.chosen) && u'.chosen == u.chosen
    case Push =>
      && u'.held == u.held && u'.pushes == u.pushes + 1 && u'.noff == u.noff + 1
      && !u'.intr && u'.chosen == u.chosen
    case Pop =>
      && u'.held == u.held && u'.pushes == u.pushes - 1 && u'.noff == u.noff - 1
      && u'.intr == (u.noff == 1 && u.chosen) && u'.chosen == u.chosen
    case SetIntr(on) => u' == u.(intr := on, chosen := on)
    case Other => u' == u
  }

  /** How far a call has come, `u` being the CPU at the call and `u'` now. */
  predicate Underway(u: Cpu, u': Cpu, a: Action)
  {
    match a
    case Acquire(l) =>
      && u'.pushes == u.pushes && u'.chosen == u.chosen
      && (if u'.pc == Idle then u'.held == u.held + {l} else u'.held == u.held && Acquiring(u'.pc) == Some(l))
    case Release(l) =>
      && u'.pushes == u.pushes && u'.chosen == u.chosen
      && (if u'.pc == Idle || InPop(u'.pc) then u'.held == u.held - {l}
          else u'.held == u.held && Releasing(u'.pc) == Some(l))
    case Push =>
      && u'.held == u.held && u'.chosen == u.chosen
      && (if u'.pc == Idle then u'.pushes == u.pushes + 1 else u'.pushes == u.pushes && InPush(u'.pc))
    case Pop =>
      u'.held == u.held && u'.chosen == u.chosen && u'.pushes == u.pushes - 1 && (u'.pc == Idle || InPop(u'.pc))
    case SetIntr(on) => u' == u.(intr := on, chosen := on) && u'.pc == Idle
    case Other => u' == u && u'.pc == Idle
  }

  predicate InPop(pc: Pc)
  {
    pc.PopGet? || pc.PopCheck? || pc.PopCount? || pc.PopRestore?
  }

  /** In a push_off of its own. */
  predicate InPush(pc: Pc)
  {
    (pc.PushGet? || pc.PushDisable? || pc.PushSave? || pc.PushCount?) && pc.lk.None?
  }

  lemma CallUnderway(u: Cpu, a: Action)
    requires u.pc == Idle && (a.Pop? ==> u.pushes > 0)
    ensures Underway(u, Call(u, a), a)
  {
  }

  lemma OwnStepUnderway(u: Cpu, u': Cpu, a: Action, b: Action)
    requires Underway(u, u', a) && u'.pc != Idle && LockOf(u'.pc).None? && OwnStep(u', b).pc != Panicked
    ensures Underway(u, OwnStep(u', b), a)
  {
  }

  lemma LockStepUnderway(u: Cpu, u': Cpu, a: Action, c: nat, lock: Spin)
    requires Underway(u, u', a) && LockOf(u'.pc).Some? && LockStep(u', c, lock).0.pc != Panicked
    ensures Underway(u, LockStep(u', c, lock).0, a)
  {
    hide OwnStep, LockStep;
    match a
    case Acquire(l) => AcquireGoesOn(u', c, l, lock);
    case Release(l) => ReleaseGoesOn(u', c, l, lock);
    case _ =>
  }

  lemma AcquireGoesOn(u: Cpu, c: nat, l: nat, lock: Spin)
    requires Acquiring(u.pc) == Some(l) && LockOf(u.pc).Some? && LockStep(u, c, lock).0.pc != Panicked
    ensures var u' := LockStep(u, c, lock).0;
      && u'.pushes == u.pushes && u'.chosen == u.chosen
      && (if u'.pc == Idle then u'.held == u.held + {l} else u'.held == u.held && Acquiring(u'.pc) == Some(l))
  {
    hide OwnStep;
  }

  lemma ReleaseGoesOn(u: Cpu, c: nat, l: nat, lock: Spin)
    requires Releasing(u.pc) == Some(l) && LockOf(u.pc).Some? && LockStep(u, c, lock).0.pc != Panicked
    ensures var u' := LockStep(u, c, lock).0;
      && u'.pushes == u.pushes && u'.chosen == u.chosen && u'.pc != Idle
      && (if InPop(u'.pc) then u'.held == u.held - {l} else u'.held == u.held && Releasing(u'.pc) == Some(l))
  {
    hide OwnStep;
  }

  /** A step of any CPU takes the call of CPU `c` no way but forward. */
  lemma StepUnderway(s: State, owners: seq<Option<nat>>, u: Cpu, c: nat, a: Action, d: nat, b: Action)
    requires Inv(s, owners) && c < |s.cpus| && Underway(u, s.cpus[c], a) && s.cpus[c].pc != Idle
    requires d < |s.cpus| && Legal(s, d, b)
    ensures Inv(Step(s, d, b), NextOwners(s, d, owners)) && Underway(u, Step(s, d, b).cpus[c], a)
  {
    hide Underway, OwnStep, LockStep, LockOk, Counts, Masked, NextOwners, Legal;
    StepRefines(s, owners, d, b);
    assert CpuOk(Step(s, d, b).cpus[c], |s.locks|);
    assert CpuOk(s.cpus[c], |s.locks|);
    if d == c {
      if LockOf(s.cpus[c].pc).None? {
        OwnStepUnderway(u, s.cpus[c], a, b);
      } else {
        LockIndex(s.cpus[c], |s.locks|, LockOf(s.cpus[c].pc).value);
        LockStepUnderway(u, s.cpus[c], a, c, s.locks[LockOf(s.cpus[c].pc).value]);
      }
    }
  }

  lemma {:induction false} BusyUnderway(s: State, owners: seq<Option<nat>>, u: Cpu, c: nat, a: Action, sched: Schedule)
    requires Inv(s, owners) && c < |s.cpus| && Underway(u, s.cpus[c], a)
    requires LegalRun(s, sched) && BusyUntil(s, c, sched)
    ensures var t := Run(s, sched); t.cpus[c].pc == Idle && Underway(u, t.cpus[c], a) && exists o :: Inv(t, o)
    decreases |sched|
  {
    hide Inv, Legal, Step, Underway;
    if sched == [] {
      assert Inv(Run(s, sched), owners);
    } else {
      var d, b := sched[0].0, sched[0].1;
      StepUnderway(s, owners, u, c, a, d, b);
      BusyUnderway(Step(s, d, b), NextOwners(s, d, owners), u, c, a, sched[1..]);
    }
  }

  /** By the count of what is nested, a call that has returned has kept its promise. */
  lemma ReturnedBy(u: Cpu, u': Cpu, a: Action, nlocks: nat)
    requires CpuOk(u, nlocks) && CpuOk(u', nlocks) && u.pc == Idle && u'.pc == Idle && Underway(u, u', a)
    requires (a.Acquire? ==> a.l !in u.held) && (a.Release? ==> a.l in u.held)
    ensures Returned(u, u', a)
  {
    if a.Acquire? || a.Release? { OneMore(u.held, a.l); }
  }

  /** In every run from initialised locks a call that has returned has done its work: an acquire returns with the lock
      and only with it, a release without it, a push one deeper and a pop one less deep; interrupts are off at any depth
      and come back as chosen at depth 0. */
  lemma CallsReturn(s0: State, before: Schedule, c: nat, a: Action, sched: Schedule)
    requires Init(s0) && LegalRun(s0, before) && c < |s0.cpus|
    requires Run(s0, before).cpus[c].pc == Idle && Legal(Run(s0, before), c, a)
    requires LegalRun(Step(Run(s0, before), c, a), sched) && BusyUntil(Step(Run(s0, before), c, a), c, sched)
    ensures var s := Run(s0, before); var t := Run(Step(s, c, a), sched);
      && Returned(s.cpus[c], t.cpus[c], a)
      && (a.Acquire? ==> a.l < |t.locks| && t.locks[a.l] == Spin(true, Some(c)))
      && (a.Release? ==> a.l < |t.locks| && t.locks[a.l] != Spin(true, Some(c)))
  {
    hide LockOk, LockStep, OwnStep, Returned, Underway, Counts, Masked;
    InitInv(s0);
    RunKeeps(s0, seq(|s0.locks|, _ => None), before);
    var s := Run(s0, before);
    var owners :| Inv(s, owners);
    var u := s.cpus[c];
    assert CpuOk(u, |s.locks|);
    StepRefines(s, owners, c, a);
    CallUnderway(u, a);
    EntersCall(s, c, a);
    BusyUnderway(Step(s, c, a), NextOwners(s, c, owners), u, c, a, sched);
    var t := Run(Step(s, c, a), sched);
    var o :| Inv(t, o);
    assert CpuOk(t.cpus[c], |t.locks|);
    ReturnedBy(u, t.cpus[c], a, |s.locks|);
    if a.Acquire? || a.Release? { ReturnedHeld(t, o, u, c, a); }
  }

  lemma EntersCall(s: State, c: nat, a: Action)
    requires c < |s.cpus| && s.cpus[c].pc == Idle
    ensures Step(s, c, a).cpus[c] == Call(s.cpus[c], a)
  {
  }

  lemma ReturnedHeld(t: State, o: seq<Option<nat>>, u: Cpu, c: nat, a: Action)
    requires Inv(t, o) && c < |t.cpus| && t.cpus[c].pc == Idle && Returned(u, t.cpus[c], a)
    requires (a.Acquire? || a.Release?) && a.l < |t.locks|
    ensures t.locks[a.l] == Spin(true, Some(c)) <==> a.Acquire?
  {
    hide Inv;
    InvAt(t, o, c, a.l);
  }

  /** The steps that an acquire has still to take when the lock is free. */
  function ToHold(pc: Pc): nat
  {
    match pc
    case PushGet(_) => 7
    case PushDisable(_, _) => 6
    case PushSave(_, _) => 5
    case PushCount(_) => 4
    case AcqReadLocked(_) => 3
    case AcqReadCpu(_) => 3
    case AcqTestAndSet(_) => 2
    case AcqSetCpu(_) => 1
    case _ => 0
  }

  lemma {:induction false} SoloHolds(u: Cpu, c: nat, l: nat, lock: Spin)
    requires Acquiring(u.pc) == Some(l) && lock == Spin(u.pc.AcqSetCpu?, None)
    ensures var (u', lock') := Solo(u, c, lock, ToHold(u.pc));
      u'.pc == Idle && u'.held == u.held + {l} && lock' == Spin(true, Some(c))
    decreases ToHold(u.pc)
  {
    hide Solo;
    SoloStep(u, c, lock, ToHold(u.pc));
    if u.pc.AcqSetCpu? {
      SoloNothing(LockStep(u, c, lock).0, c, LockStep(u, c, lock).1);
    } else if LockOf(u.pc).None? {
      SoloHolds(OwnStep(u, Other), c, l, lock);
    } else {
      SoloHolds(LockStep(u, c, lock).0, c, l, LockStep(u, c, lock).1);
    }
  }

  /** From `s` to `t` CPU `c` has taken lock `l` and come back to its caller. */
  predicate TookLock(s: State, t: State, c: nat, l: nat)
  {
    && c < |s.cpus| && c < |t.cpus| && l < |t.locks|
    && t.cpus[c].pc == Idle && t.cpus[c].held == s.cpus[c].held + {l} && t.locks[l] == Spin(true, Some(c))
  }

  /** Wherever an acquire stands, contended or not: once no other CPU has the lock, the CPU running alone holds it and
      is back in its caller's code within seven steps. */
  lemma AcquireCompletes(s: State, owners: seq<Option<nat>>, c: nat, l: nat)
    requires Inv(s, owners) && c < |s.cpus| && l < |s.locks| && Acquiring(s.cpus[c].pc) == Some(l)
    requires forall d: nat | d < |s.cpus| && d != c :: !Owns(s.cpus[d], l)
    ensures exists n: nat :: n <= 7 && TookLock(s, Alone(s, c, n), c, l)
  {
    var u, lock := s.cpus[c], s.locks[l];
    assert LockOk(s.cpus, lock, l, owners[l]) && CpuOk(u, |s.locks|);
    assert Owns(u, l) <==> u.pc == AcqSetCpu(l);
    assert Owns(u, l) <==> owners[l] == Some(c);
    hide Solo, Alone, OwnStep, LockStep, Inv, LockOk, CpuOk;
    SoloHolds(u, c, l, lock);
    AloneIsSolo(s, c, l, ToHold(u.pc));
    assert TookLock(s, Alone(s, c, ToHold(u.pc)), c, l);
  }

  // ---------------------------------------------------------------- the routines themselves

  /** struct spinlock in memory. */
  class SpinLock {
    var locked: bool
    var name: string
    var cpu: Option<nat>

    /** spinlock_init. */
    constructor (name: string)
      ensures Value() == Spin(false, None) && this.name == name
    {
      locked := false;
      this.name := name;
      cpu := None;
    }

    function Value(): Spin
      reads this
    {
      Spin(locked, cpu)
    }
  }

  /** struct cpu in memory with the interrupt bit of its CPU. A routine that runs undisturbed ends in the state that its
      steps lead to. */
  class Core {
    const id: nat
    var intr: bool
    var noff: word
    var intena: bool

    constructor (id: nat)
      ensures this.id == id && noff == 0
    {
      this.id := id;
      intr, noff, intena := false, 0, false;
    }

    predicate Shows(u: Cpu)
      reads this
    {
      u.intr == intr && u.noff == noff && u.intena == intena
    }

    method PushOff(ghost u: Cpu, ghost lock: Spin)
      requires Shows(u) && u.pc == PushGet(None)
      modifies this
      ensures var (v, _) := Solo(u, id, lock, 4); v.pc == Idle && Shows(v)
    {
      hide Solo, OwnStep, LockStep;
      SoloPushOnly(u, id, lock);
      var was := intr;
      intr := false;
      if noff == 0 {
        intena := was;
      }
      noff := (noff + 1) % WORD_LIMIT;
    }

    method PopOff(ghost u: Cpu, ghost lock: Spin) returns (r: Outcome<()>)
      requires Shows(u) && u.pc == PopGet
      modifies this
      ensures var (v, lock') := Solo(u, id, lock, 4);
        lock' == lock && (r.Panic? <==> v.pc == Panicked) && (r.Done? ==> v.pc == Idle && Shows(v))
    {
      hide Solo, OwnStep, LockStep;
      SoloPopAny(u, id, lock);
      if intr {
        return Panic;
      }
      if noff < 1 {
        return Panic;
      }
      noff := noff - 1;
      if noff == 0 && intena {
        intr := true;
      }
      return Done(());
    }

    /** In every state that the protocol reaches, the answer to a caller is whether it holds the lock. */
    method Holding(lk: SpinLock) returns (r: bool)
      ensures r <==> lk.Value() == Spin(true, Some(id))
      ensures forall s: State, owners: seq<Option<nat>>, l: nat ::
        Inv(s, owners) && id < |s.cpus| && s.cpus[id].pc == Idle && l < |s.locks| && s.locks[l] == lk.Value()
        ==> (r <==> l in s.cpus[id].held)
    {
      hide Inv;
      forall s: State, owners: seq<Option<nat>>, l: nat
        | Inv(s, owners) && id < |s.cpus| && s.cpus[id].pc == Idle && l < |s.locks|
        ensures l in s.cpus[id].held <==> s.locks[l] == Spin(true, Some(id)) {
        InvAt(s, owners, id, l);
      }
      return lk.locked && lk.cpu == Some(id);
    }

    method Release(lk: SpinLock, l: nat, ghost u: Cpu) returns (r: Outcome<()>)
      requires Shows(u) && u.pc == RelReadLocked(l)
      modifies this, lk
      ensures var (v, lock) := Solo(u, id, old(lk.Value()), 8);
        lk.Value() == lock && (r.Panic? <==> v.pc == Panicked) && (r.Done? ==> v.pc == Idle && Shows(v))
    {
      hide Solo, OwnStep, LockStep, Inv;
      var holding := Holding(lk);
      if !holding {
        SoloRefused(u, id, l, lk.Value(), 8);
        return Panic;
      }
      SoloGive(u, id, l, 8);
      lk.cpu := None;
      lk.locked := false;
      r := PopOff(u.(pc := PopGet, held := u.held - {l}), Spin(false, None));
    }
  }

  lemma SoloPushOnly(u: Cpu, c: nat, lock: Spin)
    requires u.pc == PushGet(None)
    ensures Solo(u, c, lock, 4).0 == Pushed(u).(pc := Idle, pushes := u.pushes + 1)
  {
    var u1 := u.(pc := PushDisable(None, u.intr));
    var u2 := u.(pc := PushSave(None, u.intr), intr := false);
    var u3 := u2.(pc := PushCount(None), intena := if u.noff == 0 then u.intr else u.intena);
    assert Solo(u, c, lock, 4) == Solo(u1, c, lock, 3);
    assert Solo(u1, c, lock, 3) == Solo(u2, c, lock, 2);
    assert Solo(u2, c, lock, 2) == Solo(u3, c, lock, 1);
    assert Solo(u3, c, lock, 1) == Solo(OwnStep(u3, Other), c, lock, 0);
  }

  lemma {:induction false} SoloPanicked(u: Cpu, c: nat, lock: Spin, n: nat)
    requires u.pc == Panicked
    ensures Solo(u, c, lock, n) == (u, lock)
    decreases n
  {
    if n > 0 { SoloPanicked(u, c, lock, n - 1); }
  }

  lemma SoloPopAny(u: Cpu, c: nat, lock: Spin)
    requires u.pc == PopGet
    ensures Solo(u, c, lock, 4) ==
      if u.intr || u.noff == 0 then (u.(pc := Panicked), lock)
      else (u.(pc := Idle, noff := u.noff - 1, intr := u.noff == 1 && u.intena), lock)
  {
    if u.intr {
      assert Solo(u, c, lock, 4) == Solo(u.(pc := Panicked), c, lock, 3);
      SoloPanicked(u.(pc := Panicked), c, lock, 3);
    } else if u.noff == 0 {
      assert Solo(u, c, lock, 4) == Solo(u.(pc := PopCheck), c, lock, 3);
      assert Solo(u.(pc := PopCheck), c, lock, 3) == Solo(u.(pc := Panicked), c, lock, 2);
      SoloPanicked(u.(pc := Panicked), c, lock, 2);
    } else {
      SoloPop(u, c, lock);
    }
  }

  /** A release of a lock that does not name the CPU as its holder. */
  lemma SoloRefused(u: Cpu, c: nat, l: nat, lock: Spin, n: nat)
    requires u.pc == RelReadLocked(l) && lock != Spin(true, Some(c)) && n >= 2
    ensures Solo(u, c, lock, n) == (u.(pc := Panicked), lock)
  {
    if lock.locked {
      assert Solo(u, c, lock, n) == Solo(u.(pc := RelReadCpu(l)), c, lock, n - 1);
      assert Solo(u.(pc := RelReadCpu(l)), c, lock, n - 1) == Solo(u.(pc := Panicked), c, lock, n - 2);
      SoloPanicked(u.(pc := Panicked), c, lock, n - 2);
    } else {
      assert Solo(u, c, lock, n) == Solo(u.(pc := Panicked), c, lock, n - 1);
      SoloPanicked(u.(pc := Panicked), c, lock, n - 1);
    }
  }
}
