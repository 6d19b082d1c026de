/** The address spaces that proc_create builds, all in one memory: which translation each
    process has, why no user page of one is reachable from another, and what later
    creations leave alone. */
module Isolation {
  import opened Memory
  import opened Sv32
  import opened AddressSpace
  import Sched

  /** Memory, page uses, bump pointer, process table, and the image frames of each process by pid. */
  datatype Snapshot = Snapshot(mem: Mem, uses: Uses, next: nat, procs: seq<Sched.Proc>, nextPid: nat,
                               frames: map<nat, seq<nat>>)

  /** The address space of a process: its image from USER_BASE on, the kernel's memory identically
      and without U, and nothing else. */
  function SpaceView(lay: Layout, frames: seq<nat>, w: nat): Translation
  {
    if USER_BASE <= w < USER_BASE + PAGE_SIZE * |frames| && (w - USER_BASE) / PAGE_SIZE < |frames|
    then Mapped(frames[(w - USER_BASE) / PAGE_SIZE] + w % PAGE_SIZE, USER_FLAGS)
    else if lay.kernelBase <= w < lay.freeRamEnd then Mapped(w, KERNEL_FLAGS)
    else Fault
  }

  ghost predicate FramesOk(uses: Uses, pid: nat, frames: seq<nat>)
  {
    forall k: nat | k < |frames| :: frames[k] % PAGE_SIZE == 0 && UseOf(uses, frames[k]) == Image(pid, k)
  }

  /** Process `p` has its own table tree and kernel stack, and the translation above. */
  ghost predicate SpaceOk(lay: Layout, mem: Mem, uses: Uses, p: Sched.Proc, frames: seq<nat>)
  {
    && TreeOk(mem, uses, p.pid, p.pagetable)
    && p.kstackBase % PAGE_SIZE == 0 && UseOf(uses, p.kstackBase) == Stack(p.pid)
    && p.kstackTop == p.kstackBase + PAGE_SIZE
    && FramesOk(uses, p.pid, frames)
    && (forall w: word :: Walk(mem, p.pagetable, w) == SpaceView(lay, frames, w))
  }

  ghost predicate Live(s: Snapshot, i: nat)
  {
    i < |s.procs| && s.procs[i].state != Sched.Unused
  }

  /** The used pages are those below the bump pointer, and belong to processes already created. */
  ghost predicate PagesOk(lay: Layout, uses: Uses, next: nat, nextPid: nat)
  {
    && next % PAGE_SIZE == 0
    && (forall p | p in uses :: lay.freeRam / PAGE_SIZE <= p < next / PAGE_SIZE)
    && (forall p | p in uses :: uses[p] != Free && Owner(uses[p]) < nextPid)
  }

  ghost predicate Isolated(lay: Layout, s: Snapshot)
  {
    && PagesOk(lay, s.uses, s.next, s.nextPid)
    && (forall i: nat | Live(s, i) ::
          && s.procs[i].pid < s.nextPid && s.procs[i].pid in s.frames
          && SpaceOk(lay, s.mem, s.uses, s.procs[i], s.frames[s.procs[i].pid]))
    && (forall i: nat, j: nat | Live(s, i) && Live(s, j) && i != j :: s.procs[i].pid != s.procs[j].pid)
  }

  lemma IsolatedPages(lay: Layout, s: Snapshot)
    requires Isolated(lay, s)
    ensures PagesOk(lay, s.uses, s.next, s.nextPid)
  {
  }

  /** Process `i` may touch `va` in user mode: its translation carries U. */
  ghost predicate UserMapped(s: Snapshot, i: nat, va: word)
    requires i < |s.procs|
  {
    var t := Walk(s.mem, s.procs[i].pagetable, va);
    t.Mapped? && Bit(t.flags, PAGE_U)
  }

  ghost function UserPage(s: Snapshot, i: nat, va: word): nat
    requires i < |s.procs| && UserMapped(s, i, va)
  {
    Walk(s.mem, s.procs[i].pagetable, va).pa / PAGE_SIZE
  }

  lemma FlagValues()
    ensures KERNEL_FLAGS == 15 && USER_FLAGS == 31
    ensures !Bit(KERNEL_FLAGS, PAGE_U) && Bit(USER_FLAGS, PAGE_U)
  {
  }

  /** A user-mode page of a process is a page of that process's image - so never a page table, a kernel
      stack, or a page of the kernel. */
  lemma UserPageIsImage(lay: Layout, s: Snapshot, i: nat, va: word)
    requires Isolated(lay, s) && Live(s, i) && UserMapped(s, i, va)
    ensures UserPage(s, i, va) in s.uses
    ensures s.uses[UserPage(s, i, va)].Image? && s.uses[UserPage(s, i, va)].pid == s.procs[i].pid
    ensures USER_BASE <= va < USER_BASE + PAGE_SIZE * |s.frames[s.procs[i].pid]|
  {
    FlagValues();
    var frames := s.frames[s.procs[i].pid];
    assert SpaceOk(lay, s.mem, s.uses, s.procs[i], frames);
    assert Walk(s.mem, s.procs[i].pagetable, va) == SpaceView(lay, frames, va);
    var k := (va - USER_BASE) / PAGE_SIZE;
    assert UseOf(s.uses, frames[k]) == Image(s.procs[i].pid, k);
    SamePage(frames[k], va % PAGE_SIZE);
  }

  /** No two processes reach a common page in user mode. */
  lemma UserPagesDisjoint(lay: Layout, s: Snapshot, i: nat, j: nat, va: word, vb: word)
    requires Isolated(lay, s) && Live(s, i) && Live(s, j) && i != j
    requires UserMapped(s, i, va) && UserMapped(s, j, vb)
    ensures UserPage(s, i, va) != UserPage(s, j, vb)
  {
    UserPageIsImage(lay, s, i, va);
    UserPageIsImage(lay, s, j, vb);
  }

  /** Distinct virtual pages of one image have distinct frames. */
  lemma ImagePagesDistinct(lay: Layout, s: Snapshot, i: nat, va: word, vb: word)
    requires Isolated(lay, s) && Live(s, i) && UserMapped(s, i, va) && UserMapped(s, i, vb)
    ensures UserPage(s, i, va) == UserPage(s, i, vb) <==> va / PAGE_SIZE == vb / PAGE_SIZE
  {
    FlagValues();
    UserPageIsImage(lay, s, i, va);
    UserPageIsImage(lay, s, i, vb);
    var frames := s.frames[s.procs[i].pid];
    var a, b := (va - USER_BASE) / PAGE_SIZE, (vb - USER_BASE) / PAGE_SIZE;
    assert SpaceOk(lay, s.mem, s.uses, s.procs[i], frames);
    hide Isolated;
    assert Walk(s.mem, s.procs[i].pagetable, va) == SpaceView(lay, frames, va);
    assert Walk(s.mem, s.procs[i].pagetable, vb) == SpaceView(lay, frames, vb);
    assert UseOf(s.uses, frames[a]) == Image(s.procs[i].pid, a);
    assert UseOf(s.uses, frames[b]) == Image(s.procs[i].pid, b);
    SamePage(frames[a], va % PAGE_SIZE);
    SamePage(frames[b], vb % PAGE_SIZE);
    assert a == va / PAGE_SIZE - USER_BASE / PAGE_SIZE;
    assert b == vb / PAGE_SIZE - USER_BASE / PAGE_SIZE;
    hide SpaceOk, Walk, SpaceView;
    assert UserPage(s, i, va) == frames[a] / PAGE_SIZE && UserPage(s, i, vb) == frames[b] / PAGE_SIZE;
    hide UserPage;
    assert frames[a] / PAGE_SIZE == frames[b] / PAGE_SIZE ==> UseOf(s.uses, frames[a]) == UseOf(s.uses, frames[b]);
  }

  // ---------------------------------------------------------------- proc_create as a step

  /** The tables that an address space with an image of `pages` pages takes: one for each first-level entry that the
      kernel's range touches, and one for each that the image touches. */
  function TableCount(lay: Layout, pages: nat): int
    requires LayoutOk(lay)
  {
    TopIndex(lay.kernelBase, KernelPages(lay)) - Vpn1(lay.kernelBase) + TopIndex(USER_BASE, pages) - Vpn1(USER_BASE)
  }

  /** The pages one creation takes: kernel stack, root table, second-level tables and image. */
  function CreateCost(lay: Layout, size: nat): int
    requires LayoutOk(lay)
  {
    2 + TableCount(lay, PagesOf(size)) + PagesOf(size)
  }

  /** `t` follows from `s` by creating a process with image `image` in slot `i`: all its pages are new,
      and no byte of a page already in use changes. */
  ghost predicate Created(lay: Layout, s: Snapshot, t: Snapshot, i: nat, image: Mem)
    requires LayoutOk(lay)
  {
    && i < |s.procs| && s.procs[i].state == Sched.Unused
    && |t.procs| == |s.procs| && t.procs == s.procs[i := t.procs[i]]
    && t.procs[i].state == Sched.Ready && t.procs[i].pid == s.nextPid && t.nextPid == s.nextPid + 1
    && t.next == s.next + PAGE_SIZE * CreateCost(lay, |image|) <= lay.freeRamEnd
    && PagesOk(lay, t.uses, t.next, t.nextPid)
    && Grown(s.uses, t.uses, s.next, s.nextPid)
    && s.nextPid in t.frames
    && (forall pid | pid in s.frames && pid != s.nextPid :: pid in t.frames && t.frames[pid] == s.frames[pid])
    && |t.frames[s.nextPid]| == PagesOf(|image|)
    && AgreeBelow(s.mem, t.mem, s.next)
    && SpaceOk(lay, t.mem, t.uses, t.procs[i], t.frames[s.nextPid])
    && ImageHeld(t.mem, t.uses, s.nextPid, t.frames[s.nextPid], image)
  }

  /** The address space of a process that exists is unaffected by a creation. */
  lemma SpaceFrame(lay: Layout, s: Snapshot, t: Snapshot, i: nat, image: Mem, j: nat)
    requires LayoutOk(lay) && Isolated(lay, s) && Created(lay, s, t, i, image) && Live(s, j)
    ensures SpaceOk(lay, t.mem, t.uses, s.procs[j], s.frames[s.procs[j].pid])
  {
    hide LinkOk, Walk, SpaceView, ImageHeld, CreateCost;
    var p := s.procs[j];
    assert SpaceOk(lay, s.mem, s.uses, p, s.frames[p.pid]);
    forall b: nat | b < |s.mem| && InTree(UseOf(s.uses, b), p.pid) ensures t.mem[b] == s.mem[b] {
      assert b / PAGE_SIZE < s.next / PAGE_SIZE;
    }
    TreeFrame(s.mem, t.mem, s.uses, t.uses, p.pid, p.pagetable);
  }

  /** Creation keeps every address space apart from every other. */
  lemma CreationIsolates(lay: Layout, s: Snapshot, t: Snapshot, i: nat, image: Mem)
    requires LayoutOk(lay) && Isolated(lay, s) && Created(lay, s, t, i, image)
    ensures Isolated(lay, t)
  {
    hide SpaceOk, ImageHeld, CreateCost, PagesOk, Grown;
    forall j: nat | Live(t, j)
      ensures t.procs[j].pid < t.nextPid && t.procs[j].pid in t.frames
      ensures SpaceOk(lay, t.mem, t.uses, t.procs[j], t.frames[t.procs[j].pid])
    {
      if j != i {
        assert Live(s, j);
        SpaceFrame(lay, s, t, i, image, j);
      }
    }
    forall j: nat, k: nat | Live(t, j) && Live(t, k) && j != k ensures t.procs[j].pid != t.procs[k].pid {
      assert j == i || Live(s, j);
      assert k == i || Live(s, k);
    }
  }

  /** A process that exists keeps its record, its whole translation and every byte it can reach in user mode,
      whatever it has written there, when another process is created. */
  lemma CreationPreserves(lay: Layout, s: Snapshot, t: Snapshot, i: nat, image: Mem, j: nat, va: word)
    requires LayoutOk(lay) && Isolated(lay, s) && Created(lay, s, t, i, image) && Live(s, j)
    ensures Live(t, j) && t.procs[j] == s.procs[j]
    ensures Walk(t.mem, t.procs[j].pagetable, va) == Walk(s.mem, s.procs[j].pagetable, va)
    ensures UserMapped(s, j, va) ==>
      ReadVirtual(t.mem, t.procs[j].pagetable, va) == ReadVirtual(s.mem, s.procs[j].pagetable, va)
  {
    hide ImageHeld, CreateCost, Grown, TreeOk, FramesOk, SpaceView;
    var p := s.procs[j];
    assert SpaceOk(lay, s.mem, s.uses, p, s.frames[p.pid]);
    SpaceFrame(lay, s, t, i, image, j);
    assert Walk(t.mem, p.pagetable, va) == SpaceView(lay, s.frames[p.pid], va);
    if UserMapped(s, j, va) {
      UserPageIsImage(lay, s, j, va);
      var pa := Walk(s.mem, p.pagetable, va).pa;
      assert pa / PAGE_SIZE < s.next / PAGE_SIZE;
    }
  }

  ghost predicate CreatedSomewhere(lay: Layout, s: Snapshot, t: Snapshot, image: Mem)
    requires LayoutOk(lay)
  {
    exists i: nat :: Created(lay, s, t, i, image)
  }

  /** A run of creations, one for each image. */
  ghost predicate CreationRun(lay: Layout, run: seq<Snapshot>, images: seq<Mem>)
    requires LayoutOk(lay)
  {
    && |run| == |images| + 1
    && Isolated(lay, run[0])
    && forall k: nat | k < |images| :: CreatedSomewhere(lay, run[k], run[k + 1], images[k])
  }

  lemma {:induction false} RunIsolated(lay: Layout, run: seq<Snapshot>, images: seq<Mem>, k: nat)
    requires LayoutOk(lay) && CreationRun(lay, run, images) && k < |run|
    ensures Isolated(lay, run[k])
  {
    hide Isolated, Created;
    if k > 0 {
      RunIsolated(lay, run, images, k - 1);
      assert CreatedSomewhere(lay, run[k - 1], run[k], images[k - 1]);
      var i: nat :| Created(lay, run[k - 1], run[k], i, images[k - 1]);
      CreationIsolates(lay, run[k - 1], run[k], i, images[k - 1]);
    }
  }

  /** Over any run of creations, a process keeps what it can reach in user mode. */
  lemma {:induction false} RunPreserves(lay: Layout, run: seq<Snapshot>, images: seq<Mem>, a: nat, b: nat, j: nat,
                                        va: word)
    requires LayoutOk(lay) && CreationRun(lay, run, images) && a <= b < |run| && Live(run[a], j)
    ensures Live(run[b], j) && run[b].procs[j] == run[a].procs[j]
    ensures Walk(run[b].mem, run[b].procs[j].pagetable, va) == Walk(run[a].mem, run[a].procs[j].pagetable, va)
    ensures UserMapped(run[a], j, va) ==>
      ReadVirtual(run[b].mem, run[b].procs[j].pagetable, va) == ReadVirtual(run[a].mem, run[a].procs[j].pagetable, va)
  {
    hide Isolated, Created, Walk, ReadVirtual;
    if a < b {
      RunPreserves(lay, run, images, a, b - 1, j, va);
      RunIsolated(lay, run, images, b - 1);
      assert CreatedSomewhere(lay, run[b - 1], run[b], images[b - 1]);
      var i: nat :| Created(lay, run[b - 1], run[b], i, images[b - 1]);
      CreationPreserves(lay, run[b - 1], run[b], i, images[b - 1], j, va);
    }
  }

  /** The image of process `k` of a run, byte for byte with a zero tail, is what it reads from USER_BASE on
      when the run is over. */
  lemma RunDeliversImages(lay: Layout, run: seq<Snapshot>, images: seq<Mem>, k: nat, x: nat)
    requires LayoutOk(lay) && CreationRun(lay, run, images) && k < |images|
    requires x < PAGE_SIZE * PagesOf(|images[k]|) && USER_BASE + x < WORD_LIMIT
    ensures exists j: nat :: Live(run[|images|], j) && run[|images|].procs[j].pid == run[k].nextPid
              && ReadVirtual(run[|images|].mem, run[|images|].procs[j].pagetable, USER_BASE + x)
                == Some(ImageByte(images[k], x))
  {
    hide Isolated, ImageHeld, CreateCost, Grown, TreeOk, FramesOk, PagesOk, Walk, ReadVirtual, UserMapped, SpaceOk;
    RunIsolated(lay, run, images, k);
    assert CreatedSomewhere(lay, run[k], run[k + 1], images[k]);
    var i: nat :| Created(lay, run[k], run[k + 1], i, images[k]);
    NewImageReadable(lay, run[k + 1].mem, run[k + 1].uses, run[k + 1].procs[i], run[k + 1].frames[run[k].nextPid],
      images[k], x);
    MappedForUser(run[k + 1], i, USER_BASE + x);
    RunPreserves(lay, run, images, k + 1, |images|, i, USER_BASE + x);
  }

  lemma MappedForUser(s: Snapshot, i: nat, va: word)
    requires i < |s.procs|
    requires Walk(s.mem, s.procs[i].pagetable, va).Mapped? && Walk(s.mem, s.procs[i].pagetable, va).flags == USER_FLAGS
    ensures UserMapped(s, i, va)
  {
    FlagValues();
  }

  /** A process just created reads its image. */
  lemma NewImageReadable(lay: Layout, mem: Mem, uses: Uses, p: Sched.Proc, frames: seq<nat>, image: Mem, x: nat)
    requires SpaceOk(lay, mem, uses, p, frames) && ImageHeld(mem, uses, p.pid, frames, image)
    requires x < PAGE_SIZE * |frames| && USER_BASE + x < WORD_LIMIT
    ensures Walk(mem, p.pagetable, USER_BASE + x).Mapped? && Walk(mem, p.pagetable, USER_BASE + x).flags == USER_FLAGS
    ensures ReadVirtual(mem, p.pagetable, USER_BASE + x) == Some(ImageByte(image, x))
  {
    hide TreeOk, FramesOk, Walk;
    var k, j := x / PAGE_SIZE, x % PAGE_SIZE;
    assert PageHolds(mem, uses, p.pid, frames[k], k, image);
    assert Walk(mem, p.pagetable, USER_BASE + x) == SpaceView(lay, frames, USER_BASE + x);
    assert (USER_BASE + x) % PAGE_SIZE == j;
    assert mem[frames[k] + j] == ImageByte(image, PAGE_SIZE * k + j);
  }

  /** Free memory is used up at a fixed rate when every image has `size` bytes. */
  lemma {:induction false} RunConsumes(lay: Layout, run: seq<Snapshot>, images: seq<Mem>, size: nat, k: nat)
    requires LayoutOk(lay) && CreationRun(lay, run, images) && k < |run|
    requires forall m | m in images :: |m| == size
    ensures run[k].next == run[0].next + PAGE_SIZE * (k * CreateCost(lay, size))
  {
    hide Isolated, ImageHeld, Grown, PagesOk, SpaceOk, CreateCost;
    if k > 0 {
      RunConsumes(lay, run, images, size, k - 1);
      assert CreatedSomewhere(lay, run[k - 1], run[k], images[k - 1]);
      var i: nat :| Created(lay, run[k - 1], run[k], i, images[k - 1]);
      assert images[k - 1] in images;
      assert k * CreateCost(lay, size) == (k - 1) * CreateCost(lay, size) + CreateCost(lay, size);
    }
  }

  // ---------------------------------------------------------------- building one address space

  /** A zeroed root maps nothing. */
  lemma EmptyRoot(m: Mem, uses: Uses, pid: nat, root: nat)
    requires root % PAGE_SIZE == 0 && root + PAGE_SIZE <= |m| <= WORD_LIMIT && UseOf(uses, root) == Root(pid)
    requires forall b | root <= b < root + PAGE_SIZE :: m[b] == 0
    ensures TreeOk(m, uses, pid, root)
    ensures forall i: nat | i < 1024 :: Missing(m, root, i)
    ensures forall w: word :: Walk(m, root, w) == Fault
  {
    forall i: nat | i < 1024 ensures Word(m, root + 4 * i) == 0 {
    }
    forall w: word ensures Walk(m, root, w) == Fault {
      TreeWalk(m, uses, pid, root, w);
    }
  }

  /** Kernel run and image run on an empty root give the address space of a process. */
  lemma TwoRuns(lay: Layout, m2: Mem, m3: Mem, m4: Mem, uses3: Uses, uses4: Uses, pid: nat, root: nat, frames: seq<nat>)
    requires LayoutOk(lay)
    requires forall w: word :: Walk(m2, root, w) == Fault
    requires Extended(m2, m3, uses3, pid, root, lay.kernelBase, IdentityFrames(lay.kernelBase, KernelPages(lay)),
      KERNEL_FLAGS)
    requires Extended(m3, m4, uses4, pid, root, USER_BASE, frames, USER_FLAGS)
    ensures forall w: word :: Walk(m4, root, w) == SpaceView(lay, frames, w)
  {
    hide Walk, TreeOk, TopIndex, Missing;
    forall w: word ensures Walk(m4, root, w) == SpaceView(lay, frames, w) {
      assert Walk(m4, root, w) == View(m3, root, USER_BASE, frames, USER_FLAGS, w);
      KernelView(lay, m2, root, w);
    }
  }

  lemma KernelView(lay: Layout, m2: Mem, root: nat, w: word)
    requires LayoutOk(lay) && Walk(m2, root, w) == Fault
    ensures View(m2, root, lay.kernelBase, IdentityFrames(lay.kernelBase, KernelPages(lay)), KERNEL_FLAGS, w)
            == if lay.kernelBase <= w < lay.freeRamEnd then Mapped(w, KERNEL_FLAGS) else Fault
  {
    hide Walk;
    var n := KernelPages(lay);
    assert lay.kernelBase + PAGE_SIZE * n == lay.freeRamEnd;
    if lay.kernelBase <= w < lay.freeRamEnd {
      InRun(lay.kernelBase, n, w);
    }
  }

  lemma InRun(base: nat, n: nat, w: nat)
    requires base % PAGE_SIZE == 0 && base <= w < base + PAGE_SIZE * n
    ensures (w - base) / PAGE_SIZE < n && base + PAGE_SIZE * ((w - base) / PAGE_SIZE) + w % PAGE_SIZE == w
  {
    var k, r := (w - base) / PAGE_SIZE, (w - base) % PAGE_SIZE;
    assert w - base == PAGE_SIZE * k + r;
    assert w % PAGE_SIZE == r by { assert base == PAGE_SIZE * (base / PAGE_SIZE); }
  }

  /** The image lies below the first first-level entry of the kernel, as user.ld and linker.ld place them. */
  predicate ImageFits(lay: Layout, size: nat)
  {
    USER_BASE + PAGE_SIZE * PagesOf(size) <= Vpn1(lay.kernelBase) * 0x40_0000
  }

  /** How many tables the two runs cost. */
  lemma TwoRunsTables(lay: Layout, m2: Mem, m3: Mem, uses3: Uses, pid: nat, root: nat, size: nat)
    requires LayoutOk(lay) && ImageFits(lay, size)
    requires forall i: nat | i < 1024 :: Missing(m2, root, i)
    requires Extended(m2, m3, uses3, pid, root, lay.kernelBase, IdentityFrames(lay.kernelBase, KernelPages(lay)),
      KERNEL_FLAGS)
    ensures TablesFor(m2, root, lay.kernelBase, KernelPages(lay)) + TablesFor(m3, root, USER_BASE, PagesOf(size))
            == TableCount(lay, PagesOf(size))
    ensures TablesFor(m2, root, lay.kernelBase, KernelPages(lay))
      == TopIndex(lay.kernelBase, KernelPages(lay)) - Vpn1(lay.kernelBase)
    ensures TablesFor(m3, root, USER_BASE, PagesOf(size)) >= 0
  {
    hide Walk, TreeOk, View, Missing, LinkOk;
    var lo, hi := Vpn1(lay.kernelBase), TopIndex(lay.kernelBase, KernelPages(lay));
    TopIndexMonotone(lay.kernelBase, 0, KernelPages(lay));
    TopIndexMonotone(USER_BASE, 0, PagesOf(size));
    RangeTop(lay, size);
    AllMissing(m2, root, lo, hi);
    AllMissing(m3, root, Vpn1(USER_BASE), TopIndex(USER_BASE, PagesOf(size)));
  }

  lemma RangeTop(lay: Layout, size: nat)
    requires LayoutOk(lay) && ImageFits(lay, size)
    ensures TopIndex(lay.kernelBase, KernelPages(lay)) <= 1024
    ensures TopIndex(USER_BASE, PagesOf(size)) <= Vpn1(lay.kernelBase) < 1024
  {
    assert lay.kernelBase + PAGE_SIZE * KernelPages(lay) == lay.freeRamEnd;
  }

  lemma CostAtLeast(lay: Layout, size: nat)
    requires LayoutOk(lay)
    ensures CreateCost(lay, size) >= 2 + PagesOf(size)
  {
    TopIndexMonotone(lay.kernelBase, 0, KernelPages(lay));
    TopIndexMonotone(USER_BASE, 0, PagesOf(size));
  }

  /** What the kernel's run costs by itself. */
  lemma KernelTables(lay: Layout, m2: Mem, root: nat, size: nat)
    requires LayoutOk(lay) && ImageFits(lay, size)
    requires forall i: nat | i < 1024 :: Missing(m2, root, i)
    ensures 2 + TablesFor(m2, root, lay.kernelBase, KernelPages(lay)) <= CreateCost(lay, size)
  {
    hide Missing;
    TopIndexMonotone(lay.kernelBase, 0, KernelPages(lay));
    TopIndexMonotone(USER_BASE, 0, PagesOf(size));
    RangeTop(lay, size);
    AllMissing(m2, root, Vpn1(lay.kernelBase), TopIndex(lay.kernelBase, KernelPages(lay)));
  }

  /** After the two runs the new process has its address space, whatever its scheduling state, context and name. */
  lemma SpaceBuilt(lay: Layout, m2: Mem, m3: Mem, m4: Mem, uses2: Uses, uses3: Uses, uses4: Uses, next2: nat,
                   next3: nat, pid: nat, root: word, kstack: word, frames: seq<nat>, image: Mem, p: Sched.Proc)
    requires LayoutOk(lay)
    requires forall w: word :: Walk(m2, root, w) == Fault
    requires Extended(m2, m3, uses3, pid, root, lay.kernelBase, IdentityFrames(lay.kernelBase, KernelPages(lay)),
      KERNEL_FLAGS)
    requires Extended(m3, m4, uses4, pid, root, USER_BASE, frames, USER_FLAGS)
    requires Grown(uses2, uses3, next2, pid) && Grown(uses3, uses4, next3, pid)
    requires ImageHeld(m4, uses4, pid, frames, image)
    requires kstack % PAGE_SIZE == 0 && UseOf(uses2, kstack) == Stack(pid)
    requires p.pid == pid && p.pagetable == root && p.kstackBase == kstack && p.kstackTop == kstack + PAGE_SIZE
    ensures SpaceOk(lay, m4, uses4, p, frames)
  {
    TwoRuns(lay, m2, m3, m4, uses3, uses4, pid, root, frames);
    hide View, Walk, SpaceView, TopIndex, Missing, LinkOk, ImageByte;
    forall k: nat | k < |frames| ensures frames[k] % PAGE_SIZE == 0 && UseOf(uses4, frames[k]) == Image(pid, k) {
      assert PageHolds(m4, uses4, pid, frames[k], k, image);
    }
  }

  /** So whichever record has these fields owns the space. */
  lemma SpacesBuilt(lay: Layout, m2: Mem, m3: Mem, m4: Mem, uses2: Uses, uses3: Uses, uses4: Uses, next2: nat,
                    next3: nat, pid: nat, root: word, kstack: word, frames: seq<nat>, image: Mem)
    requires LayoutOk(lay)
    requires forall w: word :: Walk(m2, root, w) == Fault
    requires Extended(m2, m3, uses3, pid, root, lay.kernelBase, IdentityFrames(lay.kernelBase, KernelPages(lay)),
      KERNEL_FLAGS)
    requires Extended(m3, m4, uses4, pid, root, USER_BASE, frames, USER_FLAGS)
    requires Grown(uses2, uses3, next2, pid) && Grown(uses3, uses4, next3, pid)
    requires ImageHeld(m4, uses4, pid, frames, image)
    requires kstack % PAGE_SIZE == 0 && UseOf(uses2, kstack) == Stack(pid)
    ensures forall p: Sched.Proc | p.pid == pid && p.pagetable == root && p.kstackBase == kstack
      && p.kstackTop == kstack + PAGE_SIZE :: SpaceOk(lay, m4, uses4, p, frames)
  {
    hide *;
    forall p: Sched.Proc | p.pid == pid && p.pagetable == root && p.kstackBase == kstack
                           && p.kstackTop == kstack + PAGE_SIZE
      ensures SpaceOk(lay, m4, uses4, p, frames)
    {
      SpaceBuilt(lay, m2, m3, m4, uses2, uses3, uses4, next2, next3, pid, root, kstack, frames, image, p);
    }
  }

  lemma ExtendedTree(m0: Mem, m: Mem, uses: Uses, pid: nat, root: nat, base: nat, frames: seq<nat>, flags: nat)
    requires Extended(m0, m, uses, pid, root, base, frames, flags)
    ensures TreeOk(m, uses, pid, root)
  {
  }

  ghost predicate AgreeBelow(m0: Mem, m: Mem, next0: nat)
  {
    |m| == |m0| && forall b: nat | b < |m0| && b < next0 :: m[b] == m0[b]
  }

  /** Bytes in use before the creation survive one of its runs: none of them is in the new process's tables. */
  lemma OldPagesKept(lay: Layout, m0: Mem, m1: Mem, m2: Mem, uses0: Uses, uses1: Uses, next0: nat, next1: nat, pid: nat)
    requires PagesOk(lay, uses0, next0, pid) && next0 <= next1
    requires AgreeBelow(m0, m1, next0) && Grown(uses0, uses1, next0, pid) && OldBytesKept(m1, m2, uses1, pid, next1)
    ensures AgreeBelow(m0, m2, next0)
  {
    forall b: nat | b < |m0| && b < next0 ensures m2[b] == m0[b] {
      assert b / PAGE_SIZE < next0 / PAGE_SIZE;
      assert UseOf(uses1, b) == UseOf(uses0, b);
    }
  }

  // ---------------------------------------------------------------- scheduling and address spaces

  /** The two tables agree on what address spaces are about. */
  predicate SameSpaces(procs: seq<Sched.Proc>, procs': seq<Sched.Proc>)
  {
    |procs'| == |procs| && forall i: nat | i < |procs| ::
      && procs'[i].pid == procs[i].pid && procs'[i].pagetable == procs[i].pagetable
      && procs'[i].kstackBase == procs[i].kstackBase && procs'[i].kstackTop == procs[i].kstackTop
      && (procs'[i].state == Sched.Unused <==> procs[i].state == Sched.Unused)
  }

  /** The start of the scheduler changes no process's address space. */
  lemma StartKeepsSpaces(sys: Sched.System)
    requires Sched.Ok(sys) && sys.current.None? && Sched.Start(sys).Done?
    ensures SameSpaces(sys.procs, Sched.Start(sys).value.procs)
  {
  }

  /** Neither does a yield. */
  lemma YieldKeepsSpaces(sys: Sched.System)
    requires Sched.Ok(sys) && sys.current.Some?
    ensures Sched.Yield(sys).Done? && SameSpaces(sys.procs, Sched.Yield(sys).value.procs)
  {
    hide Sched.Abs, Sched.FileOf, Sched.NextLive, Sched.Yield;
    Sched.YieldCases(sys);
  }

  lemma SchedulingKeepsIsolation(lay: Layout, s: Snapshot, procs': seq<Sched.Proc>)
    requires Isolated(lay, s) && SameSpaces(s.procs, procs')
    ensures Isolated(lay, s.(procs := procs'))
  {
    hide PagesOk, TreeOk, FramesOk, Walk, SpaceView;
    var t := s.(procs := procs');
    forall i: nat | Live(t, i)
      ensures t.procs[i].pid < t.nextPid && t.procs[i].pid in t.frames
      ensures SpaceOk(lay, t.mem, t.uses, t.procs[i], t.frames[t.procs[i].pid])
    {
      assert Live(s, i);
      assert SpaceOk(lay, s.mem, s.uses, s.procs[i], s.frames[s.procs[i].pid]);
    }
    forall i: nat, j: nat | Live(t, i) && Live(t, j) && i != j ensures t.procs[i].pid != t.procs[j].pid {
      assert Live(s, i) && Live(s, j);
    }
  }

  /** In every reachable state the hardware translates through satp as the current process's address space says. */
  lemma CurrentTranslation(lay: Layout, s: Snapshot, sys: Sched.System, va: word)
    requires Isolated(lay, s) && Sched.Ok(sys) && sys.procs == s.procs && sys.current.Some?
    ensures var p := s.procs[sys.current.value];
      && p.pid in s.frames
      && Walk(s.mem, Sched.SatpRoot(sys.satp), va) == SpaceView(lay, s.frames[p.pid], va)
      && sys.sscratch == p.kstackBase + PAGE_SIZE && UseOf(s.uses, p.kstackBase) == Stack(p.pid)
  {
    hide PagesOk, FramesOk, Walk, SpaceView, LinkOk;
    var i := sys.current.value;
    assert Live(s, i);
    assert SpaceOk(lay, s.mem, s.uses, s.procs[i], s.frames[s.procs[i].pid]);
    Sched.SatpNamesRoot(s.procs[i].pagetable);
  }

  lemma GrownTwice(uses0: Uses, uses1: Uses, uses2: Uses, next0: nat, next1: nat, pid: nat)
    requires Grown(uses0, uses1, next0, pid) && Grown(uses1, uses2, next1, pid) && next0 <= next1
    ensures Grown(uses0, uses2, next0, pid)
  {
  }

  /** The parts of a creation. */
  lemma CreatedFrom(lay: Layout, s: Snapshot, t: Snapshot, i: nat, p: Sched.Proc, frames: seq<nat>, image: Mem)
    requires LayoutOk(lay) && Isolated(lay, s) && i < |s.procs| && s.procs[i].state == Sched.Unused
    requires t.procs == s.procs[i := p] && t.nextPid == s.nextPid + 1 && t.frames == s.frames[s.nextPid := frames]
    requires p.state == Sched.Ready && p.pid == s.nextPid
    requires t.next == s.next + PAGE_SIZE * CreateCost(lay, |image|) <= lay.freeRamEnd && t.next % PAGE_SIZE == 0
    requires forall q | q in t.uses :: lay.freeRam / PAGE_SIZE <= q < t.next / PAGE_SIZE
    requires Grown(s.uses, t.uses, s.next, s.nextPid) && AgreeBelow(s.mem, t.mem, s.next)
    requires |frames| == PagesOf(|image|) && SpaceOk(lay, t.mem, t.uses, p, frames)
    requires ImageHeld(t.mem, t.uses, s.nextPid, frames, image)
    ensures Created(lay, s, t, i, image) && Isolated(lay, t)
  {
    hide SpaceOk, ImageHeld, CreateCost;
    CreationIsolates(lay, s, t, i, image);
  }

  /** A run of creations with images of one size fits in memory, so the size bounds their number. */
  lemma RunFits(lay: Layout, run: seq<Snapshot>, images: seq<Mem>, size: nat)
    requires LayoutOk(lay) && CreationRun(lay, run, images) && images != []
    requires forall m | m in images :: |m| == size
    ensures run[0].next + PAGE_SIZE * (|images| * CreateCost(lay, size)) <= lay.freeRamEnd
  {
    hide Isolated, ImageHeld, Grown, PagesOk, SpaceOk, CreateCost;
    var n := |images|;
    RunConsumes(lay, run, images, size, n);
    assert CreatedSomewhere(lay, run[n - 1], run[n], images[n - 1]);
    var i: nat :| Created(lay, run[n - 1], run[n], i, images[n - 1]);
  }

  /** With the 64 MB of linker.ld all PROC_MAX processes are created only if one takes at most 256 pages. */
  lemma AllProcessesCost(lay: Layout, run: seq<Snapshot>, images: seq<Mem>, size: nat)
    requires LayoutOk(lay) && CreationRun(lay, run, images) && |images| == Sched.PROC_MAX
    requires (forall m | m in images :: |m| == size) && run[0].next == lay.freeRam
    requires lay.freeRamEnd == lay.freeRam + 0x400_0000
    ensures CreateCost(lay, size) <= 256
  {
    hide CreateCost, CreationRun;
    RunFits(lay, run, images, size);
  }
}
