/** Runs in which processes are created and scheduled and write to their own memory in user
    mode. Whatever the others do, a process keeps its translation, and the bytes it can reach
    change by its own writes only. */
module UserMemory {
  import opened Memory
  import opened Sv32
  import opened AddressSpace
  import opened Isolation
  import Sched

  /** The process in slot `i` stores to its address `va`, the table's scheduling fields change, or a process is
      created. */
  datatype Event = Create(image: Mem) | Store(i: nat, va: word, b: byte) | Schedule

  ghost predicate Stores(s: Snapshot, t: Snapshot, i: nat, va: word, b: byte)
  {
    && Live(s, i) && UserMapped(s, i, va)
    && var pa := Walk(s.mem, s.procs[i].pagetable, va).pa; pa < |s.mem| && t == s.(mem := s.mem[pa := b])
  }

  ghost predicate Happens(lay: Layout, s: Snapshot, t: Snapshot, e: Event)
    requires LayoutOk(lay)
  {
    match e
    case Create(image) => CreatedSomewhere(lay, s, t, image)
    case Store(i, va, b) => Stores(s, t, i, va, b)
    case Schedule => SameSpaces(s.procs, t.procs) && t == s.(procs := t.procs)
  }

  /** A store hits one image page of the process that makes it, so every process keeps its tables and its
      translation. */
  lemma StoreKeepsSpaces(lay: Layout, s: Snapshot, t: Snapshot, i: nat, va: word, b: byte)
    requires LayoutOk(lay) && Isolated(lay, s) && Stores(s, t, i, va, b)
    ensures Isolated(lay, t)
    ensures forall j: nat, w: word | Live(s, j) ::
      Walk(t.mem, s.procs[j].pagetable, w) == Walk(s.mem, s.procs[j].pagetable, w)
  {
    hide Isolated, Walk, TreeOk, FramesOk, SpaceView, PagesOk;
    UserPageIsImage(lay, s, i, va);
    var pa := Walk(s.mem, s.procs[i].pagetable, va).pa;
    forall j: nat | Live(s, j)
      ensures s.procs[j].pid in s.frames && SpaceOk(lay, t.mem, t.uses, t.procs[j], s.frames[s.procs[j].pid])
      ensures forall w: word :: Walk(t.mem, s.procs[j].pagetable, w) == Walk(s.mem, s.procs[j].pagetable, w)
    {
      SpaceOf(lay, s, j);
      assert forall p: nat | p < |s.mem| && InTree(UseOf(s.uses, p), s.procs[j].pid) :: t.mem[p] == s.mem[p];
      TreeFrame(s.mem, t.mem, s.uses, t.uses, s.procs[j].pid, s.procs[j].pagetable);
    }
    IsolatedIf(lay, s, t);
  }

  lemma SpaceOf(lay: Layout, s: Snapshot, j: nat)
    requires Isolated(lay, s) && Live(s, j)
    ensures s.procs[j].pid in s.frames && SpaceOk(lay, s.mem, s.uses, s.procs[j], s.frames[s.procs[j].pid])
  {
  }

  lemma IsolatedIf(lay: Layout, s: Snapshot, t: Snapshot)
    requires Isolated(lay, s) && t == s.(mem := t.mem)
    requires forall j: nat | Live(s, j) ::
      s.procs[j].pid in s.frames && SpaceOk(lay, t.mem, t.uses, t.procs[j], s.frames[s.procs[j].pid])
    ensures Isolated(lay, t)
  {
    hide SpaceOk, PagesOk;
    forall j: nat | Live(t, j) ensures Live(s, j) {
    }
  }

  lemma SamePlace(a: nat, b: nat)
    ensures a == b <==> a / PAGE_SIZE == b / PAGE_SIZE && a % PAGE_SIZE == b % PAGE_SIZE
  {
  }

  lemma AlignedPlus(a: nat, k: nat)
    requires a % PAGE_SIZE == 0 && k < PAGE_SIZE
    ensures (a + k) % PAGE_SIZE == k
  {
  }

  /** The walk keeps the offset within a page. */
  lemma SameOffset(lay: Layout, s: Snapshot, i: nat, va: word)
    requires Isolated(lay, s) && Live(s, i) && UserMapped(s, i, va)
    ensures Walk(s.mem, s.procs[i].pagetable, va).pa % PAGE_SIZE == va % PAGE_SIZE
  {
    hide Isolated, TreeOk, Walk, UseOf;
    FlagValues();
    SpaceOf(lay, s, i);
    UserPageIsImage(lay, s, i, va);
    var frames := s.frames[s.procs[i].pid];
    assert Walk(s.mem, s.procs[i].pagetable, va) == SpaceView(lay, frames, va);
    var k := (va - USER_BASE) / PAGE_SIZE;
    assert frames[k] % PAGE_SIZE == 0;
    AlignedPlus(frames[k], va % PAGE_SIZE);
  }

  /** Within a process, no two user addresses share a byte of memory. */
  lemma PlacesDistinct(lay: Layout, s: Snapshot, i: nat, va: word, w: word)
    requires Isolated(lay, s) && Live(s, i) && UserMapped(s, i, va) && UserMapped(s, i, w)
    ensures Walk(s.mem, s.procs[i].pagetable, va).pa == Walk(s.mem, s.procs[i].pagetable, w).pa <==> va == w
  {
    hide Isolated, Walk;
    ImagePagesDistinct(lay, s, i, va, w);
    SameOffset(lay, s, i, va);
    SameOffset(lay, s, i, w);
    SamePlace(va, w);
    SamePlace(Walk(s.mem, s.procs[i].pagetable, va).pa, Walk(s.mem, s.procs[i].pagetable, w).pa);
  }

  /** A store changes what one process reads at one address. */
  lemma StoreIsLocal(lay: Layout, s: Snapshot, t: Snapshot, i: nat, va: word, b: byte, j: nat, w: word)
    requires LayoutOk(lay) && Isolated(lay, s) && Stores(s, t, i, va, b) && Live(s, j) && UserMapped(s, j, w)
    ensures ReadVirtual(t.mem, t.procs[j].pagetable, w)
            == if j == i && w == va then Some(b) else ReadVirtual(s.mem, s.procs[j].pagetable, w)
  {
    hide Isolated, LayoutOk, Walk;
    StoreKeepsSpaces(lay, s, t, i, va, b);
    if j != i {
      UserPagesDisjoint(lay, s, j, i, w, va);
    } else {
      PlacesDistinct(lay, s, i, va, w);
    }
  }

  /** One event, seen from process `j`: its translation stays, and so does a byte that it does not store to itself. */
  lemma EventIsLocal(lay: Layout, s: Snapshot, t: Snapshot, e: Event, j: nat, w: word)
    requires LayoutOk(lay) && Isolated(lay, s) && Happens(lay, s, t, e) && Live(s, j)
    ensures Isolated(lay, t) && Live(t, j) && t.procs[j].pagetable == s.procs[j].pagetable
      && t.procs[j].pid == s.procs[j].pid
    ensures Walk(t.mem, t.procs[j].pagetable, w) == Walk(s.mem, s.procs[j].pagetable, w)
    ensures UserMapped(s, j, w) && !(e.Store? && e.i == j && e.va == w) ==>
      ReadVirtual(t.mem, t.procs[j].pagetable, w) == ReadVirtual(s.mem, s.procs[j].pagetable, w)
  {
    hide Isolated, LayoutOk, UserMapped, Walk, ReadVirtual, Created;
    match e
    case Create(image) =>
      var i: nat :| Created(lay, s, t, i, image);
      CreationIsolates(lay, s, t, i, image);
      CreationPreserves(lay, s, t, i, image, j, w);
    case Store(i, va, b) =>
      StoreKeepsSpaces(lay, s, t, i, va, b);
      if UserMapped(s, j, w) { StoreIsLocal(lay, s, t, i, va, b, j, w); }
    case Schedule =>
      SchedulingKeepsIsolation(lay, s, t.procs);
  }

  /** A run of events. */
  ghost predicate EventRun(lay: Layout, run: seq<Snapshot>, es: seq<Event>)
    requires LayoutOk(lay)
  {
    && |run| == |es| + 1
    && Isolated(lay, run[0])
    && forall k: nat | k < |es| :: Happens(lay, run[k], run[k + 1], es[k])
  }

  /** What process `j` last stored to `w`, or else the byte that was there. */
  function LastStored(es: seq<Event>, j: nat, w: word, before: Option<byte>): Option<byte>
  {
    if es == [] then before
    else
      var e := es[|es| - 1];
      if e.Store? && e.i == j && e.va == w then Some(e.b) else LastStored(es[..|es| - 1], j, w, before)
  }

  /** Over every run, a process reads at each of its user addresses what it last stored there itself, and otherwise what
      was there at the start; its translation never changes. No other process, no scheduling and no creation
      interferes. */
  lemma {:induction false} OwnMemory(lay: Layout, run: seq<Snapshot>, es: seq<Event>, j: nat, w: word)
    requires LayoutOk(lay) && EventRun(lay, run, es) && Live(run[0], j) && UserMapped(run[0], j, w)
    ensures var t := run[|es|];
      && Isolated(lay, t) && Live(t, j) && t.procs[j].pagetable == run[0].procs[j].pagetable
      && Walk(t.mem, t.procs[j].pagetable, w) == Walk(run[0].mem, run[0].procs[j].pagetable, w)
      && ReadVirtual(t.mem, t.procs[j].pagetable, w)
         == LastStored(es, j, w, ReadVirtual(run[0].mem, run[0].procs[j].pagetable, w))
    decreases |es|
  {
    hide Isolated, LayoutOk, Happens, Walk, ReadVirtual, UserMapped;
    if es != [] {
      var n := |es| - 1;
      OwnMemory(lay, run[..n + 1], es[..n], j, w);
      SameWalk(run[0], run[n], j, w);
      EventIsLocal(lay, run[n], run[n + 1], es[n], j, w);
      if es[n].Store? && es[n].i == j && es[n].va == w {
        OwnStore(lay, run[n], run[n + 1], es[n], j, w);
      }
    }
  }

  lemma SameWalk(s: Snapshot, t: Snapshot, j: nat, w: word)
    requires Live(s, j) && Live(t, j) && UserMapped(s, j, w)
    requires Walk(t.mem, t.procs[j].pagetable, w) == Walk(s.mem, s.procs[j].pagetable, w)
    ensures UserMapped(t, j, w)
  {
  }

  lemma OwnStore(lay: Layout, s: Snapshot, t: Snapshot, e: Event, j: nat, w: word)
    requires LayoutOk(lay) && Isolated(lay, s) && Happens(lay, s, t, e) && Live(s, j) && UserMapped(s, j, w)
    requires e.Store? && e.i == j && e.va == w
    ensures ReadVirtual(t.mem, t.procs[j].pagetable, w) == Some(e.b)
  {
    StoreIsLocal(lay, s, t, e.i, e.va, e.b, j, w);
  }
}
