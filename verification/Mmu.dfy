/** The bump allocator of mm/alloc.c and the page-table builder of arch/riscv/kernel/MMU.c,
    working in place on one physical memory. `panic` is the outcome `Panic`; nothing is
    said about the memory afterwards, since the kernel does not continue. */
module Mmu {
  import opened Memory
  import opened Sv32
  import opened AddressSpace

  /** `uses` with `n` pages from page `first` on given to `use`. */
  ghost function WithUse(uses: Uses, first: nat, n: nat, use: PageUse): (r: Uses)
    ensures forall p :: p in r <==> (p in uses || first <= p < first + n)
    ensures forall p | p in r :: r[p] == if first <= p < first + n then use else uses[p]
  {
    if n == 0 then uses else WithUse(uses, first, n - 1, use)[first + n - 1 := use]
  }

  /** The test of alloc_pages: the advanced pointer, in 32 bits, does not pass the end of free memory. */
  predicate AllocGuard(next: nat, pages: nat, end: nat)
  {
    (next + pages * PAGE_SIZE) % WORD_LIMIT <= end
  }

  predicate AllocFits(next: nat, pages: nat, end: nat)
  {
    next + pages * PAGE_SIZE <= end
  }

  /** The sum does not wrap, or wraps to an address past the end, which the test refuses as well. */
  predicate AllocGuardSafe(next: nat, pages: nat, end: nat)
  {
    next + pages * PAGE_SIZE < WORD_LIMIT || (next + pages * PAGE_SIZE) % WORD_LIMIT > end
  }

  /** The guard is right about exactly these requests; every other one is for more memory than there is and is let
      through. */
  lemma AllocGuardExact(next: nat, pages: nat, end: nat)
    requires next <= end < WORD_LIMIT
    ensures (AllocGuard(next, pages, end) <==> AllocFits(next, pages, end)) <==> AllocGuardSafe(next, pages, end)
  {
    if next + pages * PAGE_SIZE < WORD_LIMIT {
      assert (next + pages * PAGE_SIZE) % WORD_LIMIT == next + pages * PAGE_SIZE;
    }
  }

  /** A request of nearly four gigabytes is accepted with the pointer moving back by one page. */
  lemma AllocGuardWraps()
    ensures AllocGuard(0x8030_0000, 0xF_FFFF, 0x8430_0000) && !AllocFits(0x8030_0000, 0xF_FFFF, 0x8430_0000)
  {
    assert 0x8030_0000 + 0xF_FFFF * PAGE_SIZE == WORD_LIMIT + 0x802F_F000;
  }

  /** What the pointer arithmetic of alloc_pages comes to, with the pages handed out. */
  lemma AllocAdvances(next: nat, pages: nat, end: nat)
    requires next <= end < WORD_LIMIT && next % PAGE_SIZE == 0 && AllocGuardSafe(next, pages, end)
    ensures (next + pages * PAGE_SIZE) % WORD_LIMIT <= end <==> next + pages * PAGE_SIZE <= end
    ensures next + pages * PAGE_SIZE <= end ==>
      && (next + pages * PAGE_SIZE) % WORD_LIMIT == next + pages * PAGE_SIZE
      && (next + pages * PAGE_SIZE) % PAGE_SIZE == 0
      && (next + pages * PAGE_SIZE) / PAGE_SIZE == next / PAGE_SIZE + pages
  {
    AllocGuardExact(next, pages, end);
    DivModUnique(next + pages * PAGE_SIZE, PAGE_SIZE, next / PAGE_SIZE + pages, 0);
  }

  /** Where the byte at index `i` of the destination of an upward copy comes from. */
  function CopiedFrom(dest: nat, src: nat, i: nat): nat
  {
    if src < dest then src + i % (dest - src) else src + i
  }

  /** It is the byte at the same index of the source, unless that was copied over before. */
  lemma CopiedFromBack(dest: nat, src: nat, i: nat)
    ensures src <= CopiedFrom(dest, src, i) <= src + i
    ensures src + i < dest || dest <= src ==> CopiedFrom(dest, src, i) == src + i
    ensures src < dest <= src + i ==> CopiedFrom(dest, src, i) == CopiedFrom(dest, src, src + i - dest)
  {
    if src < dest {
      var d := dest - src;
      RemainderBack(i, d);
    }
  }

  lemma CopiedApart(dest: nat, src: nat, n: nat)
    requires src + n <= dest
    ensures forall i: nat | i < n :: CopiedFrom(dest, src, i) == src + i
  {
    forall i: nat | i < n ensures CopiedFrom(dest, src, i) == src + i {
      CopiedFromBack(dest, src, i);
    }
  }

  lemma RemainderBack(i: nat, d: nat)
    requires d > 0
    ensures i % d <= i && (i < d ==> i % d == i) && (i >= d ==> i % d == (i - d) % d)
  {
    if i >= d {
      var q, r := (i - d) / d, (i - d) % d;
      assert i - d == q * d + r;
      Distribute(q, 1, d);
      DivModUnique(i, d, q + 1, r);
      ProductOfNats(q, d);
    }
  }

  class Machine {
    const lay: Layout
    const ram: array<byte>
    var nextPaddr: nat
    ghost var uses: Uses

    /** The bump pointer lies in free memory, and the pages that have been given a use are the ones below it. */
    ghost predicate Valid()
      reads this
    {
      && LayoutOk(lay)
      && ram.Length == lay.freeRamEnd
      && nextPaddr % PAGE_SIZE == 0 && lay.freeRam <= nextPaddr <= lay.freeRamEnd
      && (forall p :: p in uses <==> lay.freeRam / PAGE_SIZE <= p < nextPaddr / PAGE_SIZE)
    }

    ghost function Bytes(): Mem
      reads ram
    {
      ram[..]
    }

    constructor (lay: Layout)
      requires LayoutOk(lay)
      ensures Valid() && fresh(ram) && this.lay == lay
      ensures nextPaddr == lay.freeRam && uses == map[]
    {
      this.lay := lay;
      ram := new byte[lay.freeRamEnd];
      nextPaddr := lay.freeRam;
      uses := map[];
    }

    method LoadWord(a: nat) returns (w: word)
      requires a + 4 <= ram.Length
      ensures w == Word(Bytes(), a)
    {
      var low := (ram[a] as int) + 0x100 * (ram[a + 1] as int);
      w := low + 0x1_0000 * (ram[a + 2] as int) + 0x100_0000 * (ram[a + 3] as int);
    }

    method StoreWord(a: nat, w: word)
      requires a + 4 <= ram.Length
      modifies ram
      ensures OneWord(old(Bytes()), Bytes(), a, w)
    {
      ram[a], ram[a + 1], ram[a + 2], ram[a + 3] := w % 0x100, w / 0x100 % 0x100, w / 0x1_0000 % 0x100, w / 0x100_0000;
      SetWordReads(old(Bytes()), a, w);
      assert Bytes() == SetWord(old(Bytes()), a, w);
    }

    method Memset(a: nat, c: byte, n: nat)
      requires a + n <= ram.Length
      modifies ram
      ensures forall b: nat | b < ram.Length :: ram[b] == if a <= b < a + n then c else old(ram[b])
    {
      for i := 0 to n
        invariant forall b: nat | b < ram.Length :: ram[b] == if a <= b < a + i then c else old(ram[b])
      {
        ram[a + i] := c;
      }
    }

    /** The loop copies upwards, so a destination that begins inside the source receives its start over and over. */
    method Memcpy(dest: nat, src: nat, n: nat)
      requires dest + n <= ram.Length && src + n <= ram.Length
      modifies ram
      ensures forall b: nat | b < ram.Length ::
        ram[b] == old(if dest <= b < dest + n && CopiedFrom(dest, src, b - dest) < ram.Length
                      then ram[CopiedFrom(dest, src, b - dest)] else ram[b])
      ensures forall i: nat | i < n :: CopiedFrom(dest, src, i) < src + n
    {
      forall i: nat | i < n ensures CopiedFrom(dest, src, i) <= src + i {
        CopiedFromBack(dest, src, i);
      }
      hide CopiedFrom;
      for i := 0 to n
        invariant forall b: nat | b < ram.Length ::
          ram[b] == old(if dest <= b < dest + i && CopiedFrom(dest, src, b - dest) < ram.Length
                        then ram[CopiedFrom(dest, src, b - dest)] else ram[b])
      {
        CopiedFromBack(dest, src, i);
        ram[dest + i] := ram[src + i];
      }
    }

    /** `pages` new pages for `use`, zeroed: the lowest addresses not yet handed out. */
    method AllocPages(pages: nat, ghost use: PageUse) returns (r: Outcome<word>)
      requires Valid()
      requires AllocGuardSafe(nextPaddr, pages, lay.freeRamEnd)
      modifies this, ram
      ensures r.Panic? <==> old(nextPaddr) + pages * PAGE_SIZE > lay.freeRamEnd
      ensures r.Done? ==>
        && Valid()
        && r.value == old(nextPaddr) && nextPaddr == old(nextPaddr) + pages * PAGE_SIZE
        && uses == WithUse(old(uses), r.value / PAGE_SIZE, pages, use)
        && forall b: nat | b < ram.Length :: ram[b] == if r.value <= b < nextPaddr then 0 else old(ram[b])
    {
      hide WithUse, AllocGuardSafe;
      AllocAdvances(nextPaddr, pages, lay.freeRamEnd);
      var paddr := nextPaddr;
      nextPaddr := (nextPaddr + pages * PAGE_SIZE) % WORD_LIMIT;
      if nextPaddr > lay.freeRamEnd {
        return Panic;
      }
      Memset(paddr, 0, pages * PAGE_SIZE);
      uses := WithUse(uses, paddr / PAGE_SIZE, pages, use);
      return Done(paddr);
    }

    /** The allocation of a missing second-level table inside map_page: no translation changes. */
    method EnsureTable(tableL1: nat, vpn1: nat, ghost pid: nat) returns (r: Outcome<()>)
      requires Valid() && TreeOk(Bytes(), uses, pid, tableL1) && vpn1 < 1024
      modifies this, ram
      ensures r.Panic? <==> Missing(old(Bytes()), tableL1, vpn1) && old(nextPaddr) + PAGE_SIZE > lay.freeRamEnd
      ensures r.Done? ==>
        && Valid() && TreeOk(Bytes(), uses, pid, tableL1)
        && (forall w: word :: Walk(Bytes(), tableL1, w) == Walk(old(Bytes()), tableL1, w))
        && Word(Bytes(), tableL1 + 4 * vpn1) % 2 == 1
        && (forall j: nat | j < 1024 && j != vpn1 ::
              Word(Bytes(), tableL1 + 4 * j) == Word(old(Bytes()), tableL1 + 4 * j))
        && OnlyTree(old(Bytes()), Bytes(), uses, pid)
        && (if Missing(old(Bytes()), tableL1, vpn1)
            then nextPaddr == old(nextPaddr) + PAGE_SIZE
              && uses == old(uses)[old(nextPaddr) / PAGE_SIZE := Table(pid, vpn1)]
            else nextPaddr == old(nextPaddr) && uses == old(uses))
    {
      hide BitAnd, BitOr, LinkOk, Walk, Word, LinkEntry, UseOf, InTree;
      var entry := LoadWord(tableL1 + 4 * vpn1);
      AndOne(entry);
      if BitAnd(entry, PAGE_V) == 0 {
        var pagetable := AllocPages(1, Table(pid, vpn1));
        if pagetable.Panic? { return Panic; }
        ghost var m := Bytes();
        assert uses == old(uses)[pagetable.value / PAGE_SIZE := Table(pid, vpn1)];
        AllocationKeepsTree(old(Bytes()), m, old(uses), pid, tableL1, old(nextPaddr));
        Entries(pagetable.value, 0);
        StoreWord(tableL1 + 4 * vpn1, LinkEntry(pagetable.value));
        LinkTable(m, Bytes(), old(uses), pid, tableL1, vpn1, pagetable.value);
        LinkFrame(old(Bytes()), m, Bytes(), old(uses), pid, tableL1, vpn1, pagetable.value);
      }
      return Done(());
    }

    /** The second half of map_page, for a table that exists. */
    method StoreLeaf(tableL1: nat, vpn1: nat, vaddr: word, paddr: word, flags: word, ghost pid: nat)
      requires Valid() && TreeOk(Bytes(), uses, pid, tableL1)
      requires vpn1 == Vpn1(vaddr) < 1024 && Word(Bytes(), tableL1 + 4 * vpn1) % 2 == 1
      modifies ram
      ensures LeafEntry(paddr, flags) < WORD_LIMIT
      ensures TreeOk(Bytes(), uses, pid, tableL1)
      ensures forall w: word ::
        Walk(Bytes(), tableL1, w) == Remapped(old(Bytes()), tableL1, vaddr, LeafEntry(paddr, flags), w)
      ensures forall j: nat | j < 1024 :: Word(Bytes(), tableL1 + 4 * j) == Word(old(Bytes()), tableL1 + 4 * j)
      ensures OnlyTree(old(Bytes()), Bytes(), uses, pid)
    {
      hide BitOr, BitAnd, LeafEntry, LeafTranslation, TreeOk, Walk, OneWord, OnlyTree, InTree, Word, TableAddress;
      ghost var m := Bytes();
      TreeBounds(m, uses, pid, tableL1);
      Entries(paddr, flags);
      IndexFields(vaddr);
      var vpn0 := IndexField(vaddr, 0x1000);
      var entry := LoadWord(tableL1 + 4 * vpn1);
      TreeWalk(m, uses, pid, tableL1, vaddr);
      TableAddressOf(m, tableL1, vaddr);
      var table0 := TableAddress(entry);
      assert table0 == TableFor(m, tableL1, vaddr) && vpn0 == Vpn0(vaddr);
      hide TableFor, IndexField;
      StoreWord(table0 + 4 * vpn0, LeafEntry(paddr, flags));
      SetLeaf(m, Bytes(), uses, pid, tableL1, vaddr, LeafEntry(paddr, flags));
      LeafFrame(m, m, Bytes(), uses, pid, table0, vpn0);
    }

    /** MMU.c map_page. `pid` owns the table tree at `tableL1`. */
    method MapPage(tableL1: nat, vaddr: word, paddr: word, flags: word, ghost pid: nat) returns (r: Outcome<()>)
      requires Valid() && TreeOk(Bytes(), uses, pid, tableL1)
      modifies this, ram
      ensures LeafEntry(paddr, flags) < WORD_LIMIT
      ensures r.Panic? <==>
        || vaddr % PAGE_SIZE != 0
        || paddr % PAGE_SIZE != 0
        || (Missing(old(Bytes()), tableL1, Vpn1(vaddr)) && old(nextPaddr) + PAGE_SIZE > lay.freeRamEnd)
      ensures r.Done? ==>
        && Valid() && TreeOk(Bytes(), uses, pid, tableL1)
        && (forall w: word :: Walk(Bytes(), tableL1, w)
              == Remapped(old(Bytes()), tableL1, vaddr, LeafEntry(paddr, flags), w))
        && !Missing(Bytes(), tableL1, Vpn1(vaddr))
        && (forall j: nat | j < 1024 && j != Vpn1(vaddr) ::
              Missing(Bytes(), tableL1, j) == Missing(old(Bytes()), tableL1, j))
        && OnlyTree(old(Bytes()), Bytes(), uses, pid)
        && (if Missing(old(Bytes()), tableL1, Vpn1(vaddr))
            then nextPaddr == old(nextPaddr) + PAGE_SIZE
              && uses == old(uses)[old(nextPaddr) / PAGE_SIZE := Table(pid, Vpn1(vaddr))]
            else nextPaddr == old(nextPaddr) && uses == old(uses))
    {
      hide LinkOk, Walk, LeafTranslation, LeafEntry, IndexField, UseOf, BitOr;
      Entries(paddr, flags);
      if vaddr % PAGE_SIZE != 0 || paddr % PAGE_SIZE != 0 {
        return Panic;
      }
      IndexFields(vaddr);
      var vpn1 := IndexField(vaddr, 0x40_0000);
      var linked := EnsureTable(tableL1, vpn1, pid);
      if linked.Panic? { return Panic; }
      StoreLeaf(tableL1, vpn1, vaddr, paddr, flags, pid);
      return Done(());
    }

    /** `frames` have been mapped from `base` on, and nothing else done, since the memory was `m0`. */
    ghost predicate MappedSince(m0: Mem, uses0: Uses, next0: nat, pid: nat, root: nat, base: nat, frames: seq<nat>,
                                flags: nat)
      reads this, ram
    {
      && Valid()
      && next0 % PAGE_SIZE == 0
      && Extended(m0, Bytes(), uses, pid, root, base, frames, flags)
      && Grown(uses0, uses, next0, pid)
      && OldBytesKept(m0, Bytes(), uses0, pid, next0)
    }

    /** One call of map_page inside a run of mappings. */
    method MapNextPage(table1: nat, vaddr: word, paddr: word, flags: nat, ghost m0: Mem, ghost uses0: Uses,
                       ghost next0: nat, ghost pid: nat, ghost base: nat, ghost frames: seq<nat>)
      returns (r: Outcome<()>)
      requires MappedSince(m0, uses0, next0, pid, table1, base, frames, WithV(flags)) && next0 <= nextPaddr
      requires base % PAGE_SIZE == 0 && vaddr == base + PAGE_SIZE * |frames| && paddr % PAGE_SIZE == 0
        && LeafFlags(flags)
      modifies this, ram
      ensures r.Panic? <==> old(nextPaddr) + PAGE_SIZE * NextTables(m0, table1, base, |frames|) > lay.freeRamEnd
      ensures r.Done? ==>
        && MappedSince(m0, uses0, next0, pid, table1, base, frames + [paddr], WithV(flags))
        && nextPaddr == old(nextPaddr) + PAGE_SIZE * NextTables(m0, table1, base, |frames|)
        && (forall p | p in old(uses) :: p in uses && uses[p] == old(uses)[p])
        && OnlyTree(old(Bytes()), Bytes(), uses, pid)
    {
      hide OldBytesKept, TablesFor, View, LeafTranslation, Walk, UseOf, LinkOk, Word;
      ghost var m1, uses1, next1 := Bytes(), uses, nextPaddr;
      RunAligned(base, |frames|);
      ExtendCost(m0, m1, uses1, pid, table1, base, frames, WithV(flags));
      r := MapPage(table1, vaddr, paddr, flags, pid);
      if r.Done? {
        ExtendStep(m0, m1, Bytes(), uses1, uses, pid, table1, base, frames, flags, paddr);
        assert next1 / PAGE_SIZE >= next0 / PAGE_SIZE;
        KeptByTreeWrites(m0, m1, Bytes(), uses0, uses1, uses, pid, next0);
      }
    }

    /** MMU.c kernel_map_page. */
    method KernelMapPage(table1: nat, ghost pid: nat) returns (r: Outcome<()>)
      requires Valid() && TreeOk(Bytes(), uses, pid, table1)
      modifies this, ram
      ensures r.Panic? <==>
        old(nextPaddr) + PAGE_SIZE * TablesFor(old(Bytes()), table1, lay.kernelBase, KernelPages(lay)) > lay.freeRamEnd
      ensures r.Done? ==>
        && MappedSince(old(Bytes()), old(uses), old(nextPaddr), pid, table1, lay.kernelBase,
                       IdentityFrames(lay.kernelBase, KernelPages(lay)), KERNEL_FLAGS)
        && nextPaddr == old(nextPaddr) + PAGE_SIZE * TablesFor(old(Bytes()), table1, lay.kernelBase, KernelPages(lay))
    {
      hide Extended, Grown, OldBytesKept, TreeOk, TablesFor;
      ghost var m0, uses0, next0 := Bytes(), uses, nextPaddr;
      ghost var n := 0;
      var paddr := lay.kernelBase;
      RunStart(m0, uses0, pid, table1, lay.kernelBase, KERNEL_FLAGS, next0);
      while paddr < lay.freeRamEnd
        invariant n <= KernelPages(lay) && paddr == lay.kernelBase + PAGE_SIZE * n <= lay.freeRamEnd
        invariant MappedSince(m0, uses0, next0, pid, table1, lay.kernelBase, IdentityFrames(lay.kernelBase, n),
          KERNEL_FLAGS)
        invariant nextPaddr == next0 + PAGE_SIZE * TablesFor(m0, table1, lay.kernelBase, n)
      {
        RunAligned(lay.kernelBase, n);
        RunProgress(lay.kernelBase, n, lay.freeRamEnd);
        KernelAndUserFlags();
        TablesMonotone(m0, table1, lay.kernelBase, n + 1, KernelPages(lay));
        var mapped := MapNextPage(table1, paddr, paddr, PAGE_R + PAGE_W + PAGE_X, m0, uses0, next0, pid,
                                  lay.kernelBase, IdentityFrames(lay.kernelBase, n));
        if mapped.Panic? { return Panic; }
        n := n + 1;
        paddr := paddr + PAGE_SIZE;
      }
      return Done(());
    }

    /** The bytes at `image`, which the linker places in the kernel's own data. */
    ghost function ImageBytes(image: nat, size: nat): Mem
      requires image + size <= ram.Length
      reads ram
    {
      ram[image..image + size]
    }

    /** The copy of up to a page of the image from `off` on into a zeroed page. */
    method CopyIntoPage(page: nat, image: nat, size: nat, off: nat)
      requires image + size <= page && page + PAGE_SIZE <= ram.Length && off < size
      requires forall b: nat | page <= b < page + PAGE_SIZE :: ram[b] == 0
      modifies ram
      ensures forall b: nat | b < ram.Length ::
        Bytes()[b] == if page <= b < page + PAGE_SIZE
          then ImageByte(old(ImageBytes(image, size)), off + (b - page)) else old(Bytes())[b]
    {
      hide CopiedFrom;
      ghost var m := Bytes();
      var remaining := size - off;
      var copySize := if PAGE_SIZE <= remaining then PAGE_SIZE else remaining;
      CopiedApart(page, image + off, copySize);
      Memcpy(page, image + off, copySize);
      ghost var s := m[image..image + size];
      forall b: nat | b < ram.Length
        ensures Bytes()[b] == if page <= b < page + PAGE_SIZE then ImageByte(s, off + (b - page)) else m[b] {
        if page <= b < page + copySize {
          assert CopiedFrom(page, image + off, b - page) == image + off + (b - page);
        }
      }
    }

    /** The first half of a turn of user_map_page: a page is allocated and part of the image copied into it. */
    method FillImagePage(image: nat, size: nat, off: nat, ghost m0: Mem, ghost uses0: Uses, ghost next0: nat,
                         ghost pid: nat, ghost root: nat, ghost base: nat, ghost frames: seq<nat>, ghost flags: nat)
      returns (r: Outcome<word>)
      requires MappedSince(m0, uses0, next0, pid, root, base, frames, flags) && next0 <= nextPaddr
      requires image + size <= lay.freeRam && off == PAGE_SIZE * |frames| < size
      requires ImageHeld(Bytes(), uses, pid, frames, ImageBytes(image, size))
      modifies this, ram
      ensures r.Panic? <==> old(nextPaddr) + PAGE_SIZE > lay.freeRamEnd
      ensures r.Done? ==>
        && MappedSince(m0, uses0, next0, pid, root, base, frames, flags)
        && r.value % PAGE_SIZE == 0 && nextPaddr == old(nextPaddr) + PAGE_SIZE
        && ImageBytes(image, size) == old(ImageBytes(image, size))
        && ImageHeld(Bytes(), uses, pid, frames, ImageBytes(image, size))
        && PageHolds(Bytes(), uses, pid, r.value, |frames|, ImageBytes(image, size))
    {
      hide Extended, TreeOk, PageHolds, ImageHeld, InTree, Word, Walk, UseOf, CopiedFrom, Grown, OldBytesKept, TreeKept;
      ghost var m, uses1, s := Bytes(), uses, ImageBytes(image, size);
      assert image + size <= lay.freeRam <= ram.Length;
      r := AllocPages(1, Image(pid, |frames|));
      if r.Panic? { return; }
      var page := r.value;
      ghost var zeroed := Bytes();
      assert ImageBytes(image, size) == s;
      CopyIntoPage(page, image, size, off);
      assert uses == uses1[page / PAGE_SIZE := Image(pid, |frames|)];
      assert ImageBytes(image, size) == s;
      forall b: nat | b < |m|
        ensures Bytes()[b] == if page <= b < page + PAGE_SIZE then ImageByte(s, off + (b - page)) else m[b] {
        assert Bytes()[b] == if page <= b < page + PAGE_SIZE then ImageByte(s, off + (b - page)) else zeroed[b];
      }
      NewPageKept(m0, m, Bytes(), uses0, uses1, pid, next0, page, |frames|);
      FilledPage(m, Bytes(), uses1, pid, page, |frames|, s);
      ExtendFrame(m0, m, Bytes(), uses1, uses, pid, root, base, frames, flags);
      ImageFrame(m, Bytes(), uses1, uses, pid, frames, s);
    }

    /** One turn of the loop of user_map_page: a page allocated, filled and mapped. */
    method MapImagePage(table1: nat, image: nat, size: nat, off: nat, ghost m0: Mem, ghost uses0: Uses,
                        ghost next0: nat, ghost pid: nat, ghost frames: seq<nat>)
      returns (r: Outcome<()>, ghost page: nat)
      requires MappedSince(m0, uses0, next0, pid, table1, USER_BASE, frames, USER_FLAGS) && next0 <= nextPaddr
      requires lay.freeRam <= next0 && image + size <= lay.freeRam
      requires off == PAGE_SIZE * |frames| < size && USER_BASE + size <= WORD_LIMIT
      requires ImageHeld(Bytes(), uses, pid, frames, ImageBytes(image, size))
      modifies this, ram
      ensures r.Panic?
        <==> old(nextPaddr) + PAGE_SIZE * (1 + NextTables(m0, table1, USER_BASE, |frames|)) > lay.freeRamEnd
      ensures r.Done? ==>
        && MappedSince(m0, uses0, next0, pid, table1, USER_BASE, frames + [page], USER_FLAGS)
        && nextPaddr == old(nextPaddr) + PAGE_SIZE * (1 + NextTables(m0, table1, USER_BASE, |frames|))
        && ImageBytes(image, size) == old(ImageBytes(image, size))
        && ImageHeld(Bytes(), uses, pid, frames + [page], ImageBytes(image, size))
    {
      hide Extended, TreeOk, PageHolds, ImageHeld, Grown, OldBytesKept, TablesFor, OnlyTree;
      KernelAndUserFlags();
      TablesMonotone(m0, table1, USER_BASE, |frames|, |frames| + 1);
      var filled := FillImagePage(image, size, off, m0, uses0, next0, pid, table1, USER_BASE, frames, USER_FLAGS);
      if filled.Panic? {
        return Panic, 0;
      }
      page := filled.value;
      ghost var m, uses1, s := Bytes(), uses, ImageBytes(image, size);
      ImageHeldAppend(m, uses1, pid, frames, page, s);
      r := MapNextPage(table1, USER_BASE + off, filled.value, PAGE_U + PAGE_R + PAGE_W + PAGE_X, m0, uses0, next0, pid,
                       USER_BASE, frames);
      if r.Done? {
        ImageKeptByTreeWrites(m, Bytes(), uses1, uses, pid, frames + [page], s);
        StaticKept(m, Bytes(), uses, pid, lay.freeRam);
        assert Bytes()[..lay.freeRam][image..image + size] == m[..lay.freeRam][image..image + size];
        assert ImageBytes(image, size) == s;
      }
    }

    /** MMU.c user_map_page. Afterwards the image can be read back through the walk. */
    method UserMapPage(table1: nat, image: nat, size: nat, ghost pid: nat)
      returns (r: Outcome<()>, ghost frames: seq<nat>)
      requires Valid() && TreeOk(Bytes(), uses, pid, table1)
      requires image + size <= lay.freeRam && USER_BASE + size <= WORD_LIMIT
      modifies this, ram
      ensures r.Panic? <==>
        old(nextPaddr) + PAGE_SIZE * (PagesOf(size) + TablesFor(old(Bytes()), table1, USER_BASE, PagesOf(size)))
        > lay.freeRamEnd
      ensures r.Done? ==>
        && MappedSince(old(Bytes()), old(uses), old(nextPaddr), pid, table1, USER_BASE, frames, USER_FLAGS)
        && |frames| == PagesOf(size)
        && nextPaddr == old(nextPaddr) + PAGE_SIZE * (|frames| + TablesFor(old(Bytes()), table1, USER_BASE, |frames|))
        && ImageHeld(Bytes(), uses, pid, frames, old(ImageBytes(image, size)))
        && (forall i: nat | i < PAGE_SIZE * |frames| && USER_BASE + i < WORD_LIMIT ::
              ReadVirtual(Bytes(), table1, USER_BASE + i) == Some(ImageByte(old(ImageBytes(image, size)), i)))
    {
      hide Extended, TreeOk, Grown, OldBytesKept, TablesFor, PageHolds, ReadVirtual;
      ghost var m0, uses0, next0, s := Bytes(), uses, nextPaddr, ImageBytes(image, size);
      RunStart(m0, uses0, pid, table1, USER_BASE, USER_FLAGS, next0);
      frames := [];
      var off := 0;
      while off < size
        invariant off == PAGE_SIZE * |frames| && |frames| <= PagesOf(size)
        invariant MappedSince(m0, uses0, next0, pid, table1, USER_BASE, frames, USER_FLAGS)
        invariant nextPaddr == next0 + PAGE_SIZE * (|frames| + TablesFor(m0, table1, USER_BASE, |frames|))
        invariant ImageBytes(image, size) == s && ImageHeld(Bytes(), uses, pid, frames, s)
        decreases size - off
      {
        assert |frames| + 1 <= PagesOf(size);
        TablesMonotone(m0, table1, USER_BASE, |frames| + 1, PagesOf(size));
        var mapped, page := MapImagePage(table1, image, size, off, m0, uses0, next0, pid, frames);
        if mapped.Panic? {
          return Panic, frames;
        }
        frames := frames + [page];
        off := off + PAGE_SIZE;
      }
      forall i: nat | i < PAGE_SIZE * |frames| && USER_BASE + i < WORD_LIMIT
        ensures ReadVirtual(Bytes(), table1, USER_BASE + i) == Some(ImageByte(s, i))
      {
        ImageReadBack(m0, Bytes(), uses, pid, table1, USER_BASE, frames, USER_FLAGS, s, i);
      }
      return Done(()), frames;
    }
  }
}
