/** Sv32: the address-translation walk of section 4.3.2 of the RISC-V Privileged
    Architecture, the page-table entries the kernel writes, and the two memory
    updates (hang an empty second-level table, write one leaf) as transformations
    of the translation that a table describes. */
module Sv32 {
  import opened Memory

  const PAGE_V: nat := 1
  const PAGE_R: nat := 2
  const PAGE_W: nat := 4
  const PAGE_X: nat := 8
  const PAGE_U: nat := 16

  // ---------------------------------------------------------------- the walk

  /** The result of translating an address: the physical address and the low ten bits of the leaf. */
  datatype Translation = Fault | Mapped(pa: nat, flags: nat)

  function Bit(pte: nat, weight: nat): bool
    requires weight > 0
  {
    pte / weight % 2 == 1
  }

  /** Step 3: a valid entry that is not writable without being readable. */
  predicate Present(pte: nat)
  {
    Bit(pte, PAGE_V) && !(Bit(pte, PAGE_W) && !Bit(pte, PAGE_R))
  }

  /** Step 4: an entry with R or X set is a leaf. */
  predicate IsLeaf(pte: nat)
  {
    Bit(pte, PAGE_R) || Bit(pte, PAGE_X)
  }

  /** The D, A and U bits of a non-leaf entry are reserved. */
  predicate IsPointer(pte: nat)
  {
    !IsLeaf(pte) && !Bit(pte, PAGE_U) && !Bit(pte, 64) && !Bit(pte, 128)
  }

  function Ppn(pte: nat): nat { pte / 1024 }

  function Vpn1(va: nat): nat { va / 0x40_0000 }

  function Vpn0(va: nat): nat { va / 0x1000 % 1024 }

  /** Step 5 onwards at level 0. */
  function LeafTranslation(pte: nat, va: nat): Translation
  {
    if Present(pte) && IsLeaf(pte) then Mapped(Ppn(pte) * PAGE_SIZE + va % PAGE_SIZE, pte % 1024)
    else Fault
  }

  /** The walk, with a fault for a table entry outside memory. The A and D bits are not modelled. */
  function Walk(m: Mem, root: nat, va: nat): Translation
  {
    if root + 4 * Vpn1(va) + 4 > |m| then Fault
    else
      var pte := Word(m, root + 4 * Vpn1(va));
      if !Present(pte) then Fault
      else if IsLeaf(pte) then
        // A superpage; step 6 rejects a misaligned one.
        if Ppn(pte) % 1024 != 0 then Fault
        else Mapped(Ppn(pte) * PAGE_SIZE + va % 0x40_0000, pte % 1024)
      else if !IsPointer(pte) then Fault
      else SecondLevel(m, Ppn(pte) * PAGE_SIZE, va)
  }

  function SecondLevel(m: Mem, table: nat, va: nat): Translation
  {
    if table + 4 * Vpn0(va) + 4 > |m| then Fault
    else LeafTranslation(Word(m, table + 4 * Vpn0(va)), va)
  }

  // ---------------------------------------------------------------- entries as the kernel computes them

  /** `(x >> s) & 0x3ff` of a virtual address. */
  function IndexField(va: nat, unit: nat): nat
    requires unit > 0
  {
    BitAnd(va / unit, 0x3ff)
  }

  /** `((paddr / PAGE_SIZE) << 10) | flags | PAGE_V` in 32 bits. */
  function LeafEntry(paddr: nat, flags: nat): nat
  {
    BitOr(BitOr(paddr / PAGE_SIZE * 1024 % WORD_LIMIT, flags), PAGE_V)
  }

  /** `((paddr / PAGE_SIZE) << 10) | PAGE_V` in 32 bits. */
  function LinkEntry(paddr: nat): nat
  {
    BitOr(paddr / PAGE_SIZE * 1024 % WORD_LIMIT, PAGE_V)
  }

  /** `(entry >> 10) * PAGE_SIZE` in 32 bits. */
  function TableAddress(entry: nat): nat
  {
    entry / 1024 * PAGE_SIZE % WORD_LIMIT
  }

  lemma PowTen()
    ensures Pow2(10) == 1024
  {
    assert Pow2(5) == 32;
  }

  lemma IndexFields(va: word)
    ensures IndexField(va, 0x40_0000) == Vpn1(va) < 1024
    ensures IndexField(va, 0x1000) == Vpn0(va) < 1024
  {
    hide BitAnd, Pow2;
    PowTen();
    AndOnes(va / 0x40_0000, 10);
    AndOnes(va / 0x1000, 10);
  }

  /** The flag word with V forced on. */
  function WithV(flags: nat): nat
  {
    if flags % 2 == 1 then flags else flags + 1
  }

  /** The fields of an entry with frame number `frame` and low bits `low`. */
  lemma EntryFields(frame: nat, low: nat)
    requires low < 1024
    ensures Ppn(frame * 1024 + low) == frame
    ensures (frame * 1024 + low) % 1024 == low
    ensures (frame * 1024 + low) % 2 == low % 2
  {
    DivModUnique(frame * 1024 + low, 1024, frame, low);
    assert frame * 1024 + low == 2 * (512 * frame) + low;
  }

  /** The flag bits above V are those of the low bits. */
  lemma EntryBits(frame: nat, low: nat)
    requires low < 1024
    ensures Bit(frame * 1024 + low, PAGE_R) == Bit(low, PAGE_R)
    ensures Bit(frame * 1024 + low, PAGE_W) == Bit(low, PAGE_W)
    ensures Bit(frame * 1024 + low, PAGE_X) == Bit(low, PAGE_X)
    ensures Bit(frame * 1024 + low, PAGE_U) == Bit(low, PAGE_U)
    ensures Bit(frame * 1024 + low, 64) == Bit(low, 64) && Bit(frame * 1024 + low, 128) == Bit(low, 128)
  {
    var e := frame * 1024 + low;
    assert e / 2 == 512 * frame + low / 2;
    assert e / 4 == 256 * frame + low / 4;
    assert e / 8 == 128 * frame + low / 8;
    assert e / 16 == 64 * frame + low / 16;
    assert e / 64 == 16 * frame + low / 64;
    assert e / 128 == 8 * frame + low / 128;
    EvenPlus(32 * frame, low / 16);
    EvenPlus(8 * frame, low / 64);
    EvenPlus(4 * frame, low / 128);
    EvenPlus(256 * frame, low / 2);
    EvenPlus(128 * frame, low / 4);
    EvenPlus(64 * frame, low / 8);
  }

  lemma EvenPlus(half: nat, x: nat)
    ensures (2 * half + x) % 2 == x % 2
  {
  }

  /** The three fields or-ed together, whatever bits the flag word has. */
  lemma EntryOr(frame: nat, flags: nat)
    ensures BitOr(BitOr(frame * 1024, flags), PAGE_V) == BitOr(frame, flags / 1024) * 1024 + WithV(flags % 1024)
  {
    hide BitOr, Pow2;
    PowTen();
    OrFields(frame, 0, flags / 1024, flags % 1024, 10);
    OrComm(0, flags % 1024);
    OrZero(flags % 1024);
    EntryFields(frame, 0);
    var high := BitOr(frame, flags / 1024);
    EntryFields(high, flags % 1024);
    OrOne(high * 1024 + flags % 1024);
  }

  lemma ShiftedFrame(paddr: word)
    ensures paddr / PAGE_SIZE * 1024 % WORD_LIMIT == paddr / PAGE_SIZE * 1024
    ensures paddr / PAGE_SIZE * 1024 + 1023 < WORD_LIMIT
  {
    assert paddr / PAGE_SIZE < 0x10_0000;
  }

  lemma FrameOr(paddr: word, flags: word)
    ensures BitOr(paddr / PAGE_SIZE, flags / 1024) < 0x40_0000
  {
    assert Pow2(22) == 0x40_0000 by { assert Pow2(11) == 2048; }
    OrBound(paddr / PAGE_SIZE, flags / 1024, 22);
  }

  /** What `map_page` writes. Flag bits above the tenth fall on the frame number. */
  lemma Entries(paddr: word, flags: word)
    ensures LeafEntry(paddr, flags) == BitOr(paddr / PAGE_SIZE, flags / 1024) * 1024 + WithV(flags % 1024) < WORD_LIMIT
    ensures LinkEntry(paddr) == paddr / PAGE_SIZE * 1024 + 1 < WORD_LIMIT
  {
    hide BitOr;
    ShiftedFrame(paddr);
    FrameOr(paddr, flags);
    EntryOr(paddr / PAGE_SIZE, flags);
    EntryOr(paddr / PAGE_SIZE, 0);
    OrZero(paddr / PAGE_SIZE * 1024);
    OrZero(paddr / PAGE_SIZE);
  }

  /** The address the kernel reads back out of a link is the page it put in. */
  lemma LinkRoundTrip(paddr: word)
    requires paddr % PAGE_SIZE == 0
    ensures TableAddress(LinkEntry(paddr)) == Ppn(LinkEntry(paddr)) * PAGE_SIZE == paddr
  {
    hide LinkEntry, LeafEntry, WithV;
    Entries(paddr, 0);
    EntryFields(paddr / PAGE_SIZE, 1);
    assert paddr == paddr / PAGE_SIZE * PAGE_SIZE;
  }

  /** The permissions ask for a readable or executable page, and not for a writable one that is not readable. */
  predicate LegalLeaf(flags: nat)
  {
    (Bit(flags, PAGE_R) || Bit(flags, PAGE_X)) && !(Bit(flags, PAGE_W) && !Bit(flags, PAGE_R))
  }

  /** What the walk makes of an entry written by `map_page`. Flag bits from the eleventh up are or-ed into the frame
      number. */
  lemma LeafEntryMeaning(paddr: word, flags: word, va: nat)
    requires paddr % PAGE_SIZE == 0
    ensures LeafTranslation(LeafEntry(paddr, flags), va)
            == if LegalLeaf(flags)
               then Mapped(BitOr(paddr / PAGE_SIZE, flags / 1024) * PAGE_SIZE + va % PAGE_SIZE, WithV(flags % 1024))
               else Fault
    ensures flags < 1024 ==> BitOr(paddr / PAGE_SIZE, flags / 1024) * PAGE_SIZE == paddr
  {
    hide BitOr, LeafEntry, Bit, WithV;
    Entries(paddr, flags);
    var frame, low := BitOr(paddr / PAGE_SIZE, flags / 1024), WithV(flags % 1024);
    LowBits(flags % 1024);
    EntryFields(frame, low);
    EntryBits(frame, low);
    EntryBits(flags / 1024, flags % 1024);
    FlagBits(flags % 1024);
    OrZero(paddr / PAGE_SIZE);
    ValidBit(frame, low);
  }

  /** The page maps to `paddr` with its flags exactly when the flags are legal and those bits are in the frame number
      already. */
  lemma LeafEntryExact(paddr: word, flags: word, va: nat)
    requires paddr % PAGE_SIZE == 0
    ensures LeafTranslation(LeafEntry(paddr, flags), va) == Mapped(paddr + va % PAGE_SIZE, WithV(flags % 1024))
            <==> LegalLeaf(flags) && BitOr(paddr / PAGE_SIZE, flags / 1024) == paddr / PAGE_SIZE
  {
    hide BitOr, LeafEntry, LeafTranslation, LegalLeaf, WithV;
    LeafEntryMeaning(paddr, flags, va);
    assert paddr == paddr / PAGE_SIZE * PAGE_SIZE;
  }

  /** A flag word whose twelfth bit moves the page to another frame, and one whose eleventh bit does no harm. */
  lemma FrameChanges(va: nat)
    ensures LeafTranslation(LeafEntry(0x1000, 0x802), va) == Mapped(0x3000 + va % PAGE_SIZE, PAGE_R + PAGE_V)
    ensures LeafTranslation(LeafEntry(0x1000, 0x402), va) == Mapped(0x1000 + va % PAGE_SIZE, PAGE_R + PAGE_V)
  {
    hide LeafEntry, LeafTranslation;
    LeafEntryMeaning(0x1000, 0x802, va);
    LeafEntryMeaning(0x1000, 0x402, va);
    assert BitOr(1, 2) == 3 && BitOr(1, 1) == 1;
  }

  lemma LowBits(low: nat)
    requires low < 1024
    ensures WithV(low) < 1024 && WithV(low) % 2 == 1
  {
  }

  lemma ValidBit(frame: nat, low: nat)
    ensures low % 2 == 1 ==> Bit(frame * 1024 + low, PAGE_V)
  {
    EvenPlus(512 * frame, low);
  }

  /** Forcing V leaves the permission bits alone. */
  lemma FlagBits(flags: nat)
    ensures Bit(WithV(flags), PAGE_R) == Bit(flags, PAGE_R)
    ensures Bit(WithV(flags), PAGE_W) == Bit(flags, PAGE_W)
    ensures Bit(WithV(flags), PAGE_X) == Bit(flags, PAGE_X)
  {
    var low := WithV(flags);
    assert low / 2 == flags / 2;
    assert low / 4 == low / 2 / 2 && flags / 4 == flags / 2 / 2;
    assert low / 8 == low / 2 / 4 && flags / 8 == flags / 2 / 4;
  }

  // ---------------------------------------------------------------- page uses and table trees

  /** What an allocated page is for. One page has one use, so pages of different uses are different pages. */
  datatype PageUse =
    | Free
    | Stack(pid: nat)
    | Root(pid: nat)
    | Table(pid: nat, vpn1: nat)
    | Image(pid: nat, index: nat)

  /** The use of each allocated page, by page number. */
  type Uses = map<nat, PageUse>

  ghost function UseOf(uses: Uses, a: nat): PageUse
  {
    if a / PAGE_SIZE in uses then uses[a / PAGE_SIZE] else Free
  }

  ghost function Owner(u: PageUse): nat
  {
    match u
    case Free => 0
    case Stack(pid) => pid
    case Root(pid) => pid
    case Table(pid, _) => pid
    case Image(pid, _) => pid
  }

  ghost predicate InTree(u: PageUse, pid: nat)
  {
    u == Root(pid) || (u.Table? && u.pid == pid)
  }

  /** Entry `i` of a root is invalid, or is a pointer to the second-level table of index `i`. */
  ghost predicate LinkOk(m: Mem, uses: Uses, pid: nat, root: nat, i: nat)
    requires root + 4096 <= |m| && i < 1024
  {
    var e := Word(m, root + 4 * i);
    e % 2 == 0
    || (e % 1024 == 1 && Ppn(e) * PAGE_SIZE + PAGE_SIZE <= |m| && UseOf(uses, Ppn(e) * PAGE_SIZE) == Table(pid, i))
  }

  /** `root` is the root of process `pid`'s table tree: every valid entry leads to a table of that process
      with that index, so second-level tables are distinct from each other and from everything else. */
  ghost predicate TreeOk(m: Mem, uses: Uses, pid: nat, root: nat)
  {
    && root % PAGE_SIZE == 0
    && root + PAGE_SIZE <= |m| <= WORD_LIMIT
    && UseOf(uses, root) == Root(pid)
    && forall i: nat | i < 1024 :: LinkOk(m, uses, pid, root, i)
  }

  lemma TreeBounds(m: Mem, uses: Uses, pid: nat, root: nat)
    requires TreeOk(m, uses, pid, root)
    ensures root % PAGE_SIZE == 0 && root + PAGE_SIZE <= |m| <= WORD_LIMIT
  {
  }

  lemma SamePage(a: nat, k: nat)
    requires a % PAGE_SIZE == 0 && k < PAGE_SIZE
    ensures (a + k) / PAGE_SIZE == a / PAGE_SIZE
  {
  }

  /** The byte at `a` may change only if it lies in process `pid`'s tables. */
  ghost predicate OnlyTree(m: Mem, m': Mem, uses: Uses, pid: nat)
  {
    |m'| == |m| && forall a: nat | a < |m| && !InTree(UseOf(uses, a), pid) :: m'[a] == m[a]
  }

  /** No byte of process `pid`'s tables changes. */
  ghost predicate TreeKept(m: Mem, m': Mem, uses: Uses, pid: nat)
  {
    |m'| == |m| && forall a: nat | a < |m| && InTree(UseOf(uses, a), pid) :: m'[a] == m[a]
  }

  /** The first-level entry `i` leads nowhere yet. */
  ghost predicate Missing(m: Mem, root: nat, i: nat)
  {
    root + 4 * i + 4 <= |m| && Word(m, root + 4 * i) % 2 == 0
  }

  lemma TableAddressOf(m: Mem, root: nat, va: nat)
    requires root + 4 * Vpn1(va) + 4 <= |m| <= WORD_LIMIT
    requires TableFor(m, root, va) + PAGE_SIZE <= |m|
    ensures TableAddress(Word(m, root + 4 * Vpn1(va))) == TableFor(m, root, va)
  {
  }

  /** The second-level table through which `va` is translated. */
  function TableFor(m: Mem, root: nat, va: nat): nat
    requires root + 4 * Vpn1(va) + 4 <= |m|
  {
    Ppn(Word(m, root + 4 * Vpn1(va))) * PAGE_SIZE
  }

  /** A tree whose bytes are kept translates as before, whatever else is allocated or written. */
  lemma TreeFrame(m: Mem, m': Mem, uses: Uses, uses': Uses, pid: nat, root: nat)
    requires TreeOk(m, uses, pid, root) && TreeKept(m, m', uses, pid)
    requires forall p | p in uses :: p in uses' && uses'[p] == uses[p]
    ensures TreeOk(m', uses', pid, root)
    ensures forall i: nat | i < 1024 :: Word(m', root + 4 * i) == Word(m, root + 4 * i)
    ensures forall va: word :: Walk(m', root, va) == Walk(m, root, va)
  {
    forall i: nat | i < 1024
      ensures Word(m', root + 4 * i) == Word(m, root + 4 * i)
    {
      PageWord(m, m', uses, pid, root, i);
    }
    forall i: nat | i < 1024 ensures LinkOk(m', uses', pid, root, i) {
      assert LinkOk(m, uses, pid, root, i);
    }
    forall va: word ensures Walk(m', root, va) == Walk(m, root, va) {
      WalkFrame(m, m', uses, uses', pid, root, va);
    }
  }

  /** What is written in the tree of one process leaves the trees of the others and their translations as they were. */
  lemma OtherTreesKept(m: Mem, m': Mem, uses: Uses, uses': Uses, pid: nat, other: nat, root: nat)
    requires other != pid && TreeOk(m, uses, other, root) && OnlyTree(m, m', uses', pid)
    requires forall p | p in uses :: p in uses' && uses'[p] == uses[p]
    ensures TreeOk(m', uses', other, root)
    ensures forall va: word :: Walk(m', root, va) == Walk(m, root, va)
  {
    hide Walk, LinkOk;
    TreeFrame(m, m', uses, uses', other, root);
  }

  /** In a well-formed tree the walk reads one entry of the root and one of the table it leads to. */
  lemma TreeWalk(m: Mem, uses: Uses, pid: nat, root: nat, va: word)
    requires TreeOk(m, uses, pid, root)
    ensures Vpn1(va) < 1024 && Vpn0(va) < 1024
    ensures var e := Word(m, root + 4 * Vpn1(va));
      if e % 2 == 0 then Walk(m, root, va) == Fault
      else
        && e % 1024 == 1
        && TableFor(m, root, va) % PAGE_SIZE == 0
        && TableFor(m, root, va) + PAGE_SIZE <= |m|
        && UseOf(uses, TableFor(m, root, va)) == Table(pid, Vpn1(va))
        && Walk(m, root, va) == LeafTranslation(Word(m, TableFor(m, root, va) + 4 * Vpn0(va)), va)
  {
    hide Walk, LeafTranslation, Word, UseOf;
    VpnBounds(va);
    assert LinkOk(m, uses, pid, root, Vpn1(va));
    WalkThrough(m, root, va);
  }

  lemma WalkThrough(m: Mem, root: nat, va: nat)
    requires root + 4 * Vpn1(va) + 4 <= |m|
    ensures var e := Word(m, root + 4 * Vpn1(va));
      && (e % 2 == 0 ==> Walk(m, root, va) == Fault)
      && (e % 1024 == 1 ==> Walk(m, root, va) == SecondLevel(m, Ppn(e) * PAGE_SIZE, va))
  {
    var e := Word(m, root + 4 * Vpn1(va));
    if e % 1024 == 1 {
      PointerEntry(e / 1024);
    }
  }

  lemma VpnBounds(va: word)
    ensures Vpn1(va) < 1024 && Vpn0(va) < 1024
  {
  }

  /** An entry whose only flag is V points to the next level. */
  lemma PointerEntry(frame: nat)
    ensures Present(frame * 1024 + 1) && IsPointer(frame * 1024 + 1)
    ensures (frame * 1024 + 1) % 1024 == 1
  {
    var e := frame * 1024 + 1;
    assert e % 2 == 1 && e % 1024 == 1;
    EntryBits(frame, 1);
  }

  lemma WalkFrame(m: Mem, m': Mem, uses: Uses, uses': Uses, pid: nat, root: nat, va: word)
    requires TreeOk(m, uses, pid, root) && TreeKept(m, m', uses, pid)
    requires TreeOk(m', uses', pid, root)
    ensures Walk(m', root, va) == Walk(m, root, va)
  {
    hide Walk, SecondLevel, LeafTranslation, LinkOk, Word;
    TreeWalk(m, uses, pid, root, va);
    TreeWalk(m', uses', pid, root, va);
    PageWord(m, m', uses, pid, root, Vpn1(va));
    if Word(m, root + 4 * Vpn1(va)) % 2 == 1 {
      PageWord(m, m', uses, pid, TableFor(m, root, va), Vpn0(va));
    }
  }

  /** Entry `i` of a table page that is kept. */
  lemma PageWord(m: Mem, m': Mem, uses: Uses, pid: nat, table: nat, i: nat)
    requires table % PAGE_SIZE == 0 && i < 1024 && table + PAGE_SIZE <= |m|
    requires InTree(UseOf(uses, table), pid) && TreeKept(m, m', uses, pid)
    ensures Word(m', table + 4 * i) == Word(m, table + 4 * i)
  {
    SamePage(table, 4 * i);
    SamePage(table, 4 * i + 1);
    SamePage(table, 4 * i + 2);
    SamePage(table, 4 * i + 3);
  }

  /** Zeroing a page that had no use keeps every tree. */
  lemma AllocationKeepsTree(m: Mem, m': Mem, uses: Uses, pid: nat, root: nat, page: nat)
    requires TreeOk(m, uses, pid, root) && |m'| == |m| && page % PAGE_SIZE == 0 && page / PAGE_SIZE !in uses
    requires forall b: nat | b < |m| && !(page <= b < page + PAGE_SIZE) :: m'[b] == m[b]
    ensures TreeOk(m', uses, pid, root)
    ensures forall i: nat | i < 1024 :: Word(m', root + 4 * i) == Word(m, root + 4 * i)
    ensures forall va: word :: Walk(m', root, va) == Walk(m, root, va)
  {
    forall b: nat | b < |m| && InTree(UseOf(uses, b), pid) ensures m'[b] == m[b] {
      if page <= b < page + PAGE_SIZE { SamePage(page, b - page); }
    }
    TreeFrame(m, m', uses, uses, pid, root);
  }

  // ---------------------------------------------------------------- the two table updates

  lemma PageNumber(va: word, va': word)
    ensures va / PAGE_SIZE == va' / PAGE_SIZE <==> (Vpn1(va) == Vpn1(va') && Vpn0(va) == Vpn0(va'))
  {
    var p, p' := va / 4096, va' / 4096;
    assert Vpn1(va) == p / 1024 && Vpn1(va') == p' / 1024;
    assert p == p / 1024 * 1024 + p % 1024 && p' == p' / 1024 * 1024 + p' % 1024;
  }

  /** Words in different pages, or at different indices of one page, do not overlap. */
  lemma WordsApart(a: nat, i: nat, b: nat, j: nat)
    requires a % PAGE_SIZE == 0 && b % PAGE_SIZE == 0 && i < 1024 && j < 1024
    requires a != b || i != j
    ensures a + 4 * i + 4 <= b + 4 * j || b + 4 * j + 4 <= a + 4 * i
  {
    if a != b {
      assert a / PAGE_SIZE != b / PAGE_SIZE;
    }
  }

  /** The update of `map_page` when the first-level entry was invalid: an empty table appears
      in the tree and no translation changes. */
  lemma LinkTable(m: Mem, m': Mem, uses: Uses, pid: nat, root: nat, i: nat, page: word)
    requires TreeOk(m, uses, pid, root) && i < 1024 && Word(m, root + 4 * i) % 2 == 0
    requires page % PAGE_SIZE == 0 && page + PAGE_SIZE <= |m| && page / PAGE_SIZE !in uses
    requires forall a | page <= a < page + PAGE_SIZE :: m[a] == 0
    requires LinkEntry(page) < WORD_LIMIT && OneWord(m, m', root + 4 * i, LinkEntry(page))
    ensures TreeOk(m', uses[page / PAGE_SIZE := Table(pid, i)], pid, root)
    ensures Word(m', root + 4 * i) % 2 == 1
    ensures forall j: nat | j < 1024 && j != i :: Word(m', root + 4 * j) == Word(m, root + 4 * j)
    ensures forall va: word :: Walk(m', root, va) == Walk(m, root, va)
  {
    hide BitOr, LeafEntry, LinkEntry, WithV, Walk;
    Entries(page, 0);
    LinkRoundTrip(page);
    EntryFields(page / PAGE_SIZE, 1);
    var uses' := uses[page / PAGE_SIZE := Table(pid, i)];
    forall j: nat | j < 1024 ensures LinkOk(m', uses', pid, root, j) {
      assert LinkOk(m, uses, pid, root, j);
    }
    forall va: word ensures Walk(m', root, va) == Walk(m, root, va) {
      LinkTableWalk(m, m', uses, pid, root, i, page, va);
    }
  }

  /** An entry of a zeroed page is not a translation. */
  lemma ZeroEntry(m: Mem, page: nat, va: word)
    requires page + PAGE_SIZE <= |m| && forall a | page <= a < page + PAGE_SIZE :: m[a] == 0
    ensures Vpn0(va) < 1024 && Word(m, page + 4 * Vpn0(va)) == 0 && LeafTranslation(0, va) == Fault
  {
    VpnBounds(va);
  }

  lemma RootUsed(m: Mem, uses: Uses, pid: nat, root: nat, page: nat)
    requires TreeOk(m, uses, pid, root) && page / PAGE_SIZE !in uses
    ensures root != page && root % PAGE_SIZE == 0 && root + PAGE_SIZE <= |m|
  {
  }

  lemma OneWordKeeps(m: Mem, m': Mem, a: nat, w: word)
    requires OneWord(m, m', a, w)
    ensures |m'| == |m| && a + 4 <= |m| && Word(m', a) == w
    ensures forall b: nat | b + 4 <= |m| && (b + 4 <= a || a + 4 <= b) :: Word(m', b) == Word(m, b)
  {
  }

  lemma LinkTableWalk(m: Mem, m': Mem, uses: Uses, pid: nat, root: nat, i: nat, page: word, va: word)
    requires TreeOk(m, uses, pid, root) && i < 1024 && Word(m, root + 4 * i) % 2 == 0
    requires page % PAGE_SIZE == 0 && page + PAGE_SIZE <= |m| && page / PAGE_SIZE !in uses
    requires forall a | page <= a < page + PAGE_SIZE :: m[a] == 0
    requires LinkEntry(page) < WORD_LIMIT && OneWord(m, m', root + 4 * i, LinkEntry(page))
    requires TreeOk(m', uses[page / PAGE_SIZE := Table(pid, i)], pid, root)
    ensures Walk(m', root, va) == Walk(m, root, va)
  {
    hide Walk, SecondLevel, LinkOk, UseOf, Word, LeafTranslation, LinkEntry, TableAddress, OneWord;
    RootUsed(m, uses, pid, root, page);
    OneWordKeeps(m, m', root + 4 * i, LinkEntry(page));
    TreeWalk(m, uses, pid, root, va);
    TreeWalk(m', uses[page / PAGE_SIZE := Table(pid, i)], pid, root, va);
    if Vpn1(va) == i {
      LinkRoundTrip(page);
      WordsApart(root, i, page, Vpn0(va));
      ZeroEntry(m, page, va);
    } else if Word(m, root + 4 * Vpn1(va)) % 2 == 1 {
      WordsApart(root, i, TableFor(m, root, va), Vpn0(va));
    }
  }

  /** The translation of `w` after the page of `va` has been given the leaf `pte`. */
  function Remapped(m: Mem, root: nat, va: nat, pte: nat, w: nat): Translation
  {
    if w / PAGE_SIZE == va / PAGE_SIZE then LeafTranslation(pte, w) else Walk(m, root, w)
  }

  /** The last store of `map_page`: the translation changes for the addresses of one page and no other. */
  lemma SetLeaf(m: Mem, m': Mem, uses: Uses, pid: nat, root: nat, va: word, pte: word)
    requires TreeOk(m, uses, pid, root) && Word(m, root + 4 * Vpn1(va)) % 2 == 1
    requires OneWord(m, m', TableFor(m, root, va) + 4 * Vpn0(va), pte)
    ensures TreeOk(m', uses, pid, root)
    ensures forall j: nat | j < 1024 :: Word(m', root + 4 * j) == Word(m, root + 4 * j)
    ensures forall w: word :: Walk(m', root, w) == Remapped(m, root, va, pte, w)
  {
    TreeWalk(m, uses, pid, root, va);
    forall j: nat | j < 1024 ensures Word(m', root + 4 * j) == Word(m, root + 4 * j) {
      WordsApart(root, j, TableFor(m, root, va), Vpn0(va));
    }
    forall j: nat | j < 1024 ensures LinkOk(m', uses, pid, root, j) {
      assert LinkOk(m, uses, pid, root, j);
    }
    forall w: word ensures Walk(m', root, w) == Remapped(m, root, va, pte, w) {
      SetLeafWalk(m, m', uses, pid, root, va, pte, w);
    }
  }

  lemma SetLeafWalk(m: Mem, m': Mem, uses: Uses, pid: nat, root: nat, va: word, pte: word, w: word)
    requires TreeOk(m, uses, pid, root) && Word(m, root + 4 * Vpn1(va)) % 2 == 1
    requires OneWord(m, m', TableFor(m, root, va) + 4 * Vpn0(va), pte)
    requires TreeOk(m', uses, pid, root)
    requires forall j: nat | j < 1024 :: Word(m', root + 4 * j) == Word(m, root + 4 * j)
    ensures Walk(m', root, w) == Remapped(m, root, va, pte, w)
  {
    hide Walk, SecondLevel, LeafTranslation, LinkOk, Word, UseOf;
    PageNumber(va, w);
    TreeWalk(m, uses, pid, root, va);
    TreeWalk(m, uses, pid, root, w);
    TreeWalk(m', uses, pid, root, w);
    var t, u := TableFor(m, root, va), TableFor(m, root, w);
    if Word(m, root + 4 * Vpn1(w)) % 2 == 1 && (t != u || Vpn0(w) != Vpn0(va)) {
      WordsApart(u, Vpn0(w), t, Vpn0(va));
    }
  }

  /** Zeroing a page and hanging it into the tree touches only that tree. */
  lemma LinkFrame(m: Mem, m1: Mem, m2: Mem, uses: Uses, pid: nat, root: nat, i: nat, page: nat)
    requires |m| == |m1| == |m2| && root % PAGE_SIZE == 0 && i < 1024 && page % PAGE_SIZE == 0
    requires page / PAGE_SIZE !in uses && UseOf(uses, root) == Root(pid)
    requires forall b: nat | b < |m| && !(page <= b < page + PAGE_SIZE) :: m1[b] == m[b]
    requires forall b: nat | b < |m| && !(root + 4 * i <= b < root + 4 * i + 4) :: m2[b] == m1[b]
    ensures OnlyTree(m, m2, uses[page / PAGE_SIZE := Table(pid, i)], pid)
  {
    var uses' := uses[page / PAGE_SIZE := Table(pid, i)];
    forall b: nat | b < |m| && !InTree(UseOf(uses', b), pid) ensures m2[b] == m[b] {
      if page <= b < page + PAGE_SIZE { SamePage(page, b - page); }
      if root + 4 * i <= b < root + 4 * i + 4 { SamePage(root, b - root); }
    }
  }

  /** So does writing an entry of one of its tables. */
  lemma LeafFrame(m: Mem, m1: Mem, m2: Mem, uses: Uses, pid: nat, table: nat, i: nat)
    requires OnlyTree(m, m1, uses, pid) && |m2| == |m1| && table % PAGE_SIZE == 0 && i < 1024
    requires InTree(UseOf(uses, table), pid)
    requires forall b: nat | b < |m| && !(table + 4 * i <= b < table + 4 * i + 4) :: m2[b] == m1[b]
    ensures OnlyTree(m, m2, uses, pid)
  {
    forall b: nat | b < |m| && !InTree(UseOf(uses, b), pid) ensures m2[b] == m[b] {
      if table + 4 * i <= b < table + 4 * i + 4 { SamePage(table, b - table); }
    }
  }
}
