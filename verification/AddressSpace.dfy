/** Runs of pages mapped one after another into a table tree, the shape shared by the loops
    of kernel_map_page and user_map_page: what the walk yields, and how many second-level
    tables the run costs. */
module AddressSpace {
  import opened Memory
  import opened Sv32

  const USER_BASE: nat := 0x100_0000
  const KERNEL_FLAGS: nat := WithV(PAGE_R + PAGE_W + PAGE_X)
  const USER_FLAGS: nat := WithV(PAGE_U + PAGE_R + PAGE_W + PAGE_X)

  /** The linker's symbols. */
  datatype Layout = Layout(kernelBase: nat, freeRam: nat, freeRamEnd: nat)

  ghost predicate LayoutOk(lay: Layout)
  {
    && lay.kernelBase % PAGE_SIZE == 0 && lay.freeRam % PAGE_SIZE == 0 && lay.freeRamEnd % PAGE_SIZE == 0
    && 0 < lay.kernelBase <= lay.freeRam <= lay.freeRamEnd < WORD_LIMIT - PAGE_SIZE
  }

  /** The frames of an identity mapping. */
  function IdentityFrames(base: nat, n: nat): (s: seq<nat>)
    ensures |s| == n && forall k | 0 <= k < n :: s[k] == base + PAGE_SIZE * k
  {
    if n == 0 then [] else IdentityFrames(base, n - 1) + [base + PAGE_SIZE * (n - 1)]
  }

  /** The number of pages of [kernelBase, freeRamEnd). */
  function KernelPages(lay: Layout): nat
    requires lay.kernelBase <= lay.freeRamEnd
  {
    (lay.freeRamEnd - lay.kernelBase) / PAGE_SIZE
  }

  /** The translation of `w` once `frames` have been mapped from the page at `base` on. */
  function View(m0: Mem, root: nat, base: nat, frames: seq<nat>, flags: nat, w: nat): Translation
  {
    if base <= w < base + PAGE_SIZE * |frames| && (w - base) / PAGE_SIZE < |frames|
    then Mapped(frames[(w - base) / PAGE_SIZE] + w % PAGE_SIZE, flags)
    else Walk(m0, root, w)
  }

  /** One past the last first-level index touched by `n` pages from `base`. */
  function TopIndex(base: nat, n: nat): nat
  {
    if n == 0 then Vpn1(base) else Vpn1(base + PAGE_SIZE * n - 1) + 1
  }

  /** The number of first-level entries in [lo, hi) that lead nowhere. */
  ghost function MissingTables(m: Mem, root: nat, lo: nat, hi: nat): nat
  {
    if hi <= lo then 0
    else MissingTables(m, root, lo, hi - 1) + (if Missing(m, root, hi - 1) then 1 else 0)
  }

  /** The number of second-level tables that mapping `n` pages from `base` allocates. */
  ghost function TablesFor(m: Mem, root: nat, base: nat, n: nat): nat
  {
    MissingTables(m, root, Vpn1(base), TopIndex(base, n))
  }

  /** The tables allocated by page `n` of the run: at most one, when its first-level entry is first reached and was
      empty. */
  ghost function NextTables(m: Mem, root: nat, base: nat, n: nat): int
  {
    TablesFor(m, root, base, n + 1) - TablesFor(m, root, base, n)
  }

  lemma {:induction false} MissingMonotone(m: Mem, root: nat, lo: nat, hi: nat, hi': nat)
    requires hi <= hi'
    ensures MissingTables(m, root, lo, hi) <= MissingTables(m, root, lo, hi')
  {
    if hi < hi' { MissingMonotone(m, root, lo, hi, hi' - 1); }
  }

  lemma {:induction false} AllMissing(m: Mem, root: nat, lo: nat, hi: nat)
    requires forall i: nat | lo <= i < hi :: Missing(m, root, i)
    ensures MissingTables(m, root, lo, hi) == if lo <= hi then hi - lo else 0
  {
    if lo < hi { AllMissing(m, root, lo, hi - 1); }
  }

  lemma TopIndexStep(base: nat, n: nat)
    requires base % PAGE_SIZE == 0
    ensures TopIndex(base, n + 1) == Vpn1(base + PAGE_SIZE * n) + 1
    ensures TopIndex(base, n) == Vpn1(base + PAGE_SIZE * n) || TopIndex(base, n) == Vpn1(base + PAGE_SIZE * n) + 1
    ensures Vpn1(base) <= TopIndex(base, n)
  {
    var v := base + PAGE_SIZE * n;
    assert v % PAGE_SIZE == 0;
    assert (v + 4095) / 0x40_0000 == v / 0x40_0000;
  }

  lemma {:induction false} TopIndexMonotone(base: nat, n: nat, n': nat)
    requires base % PAGE_SIZE == 0 && n <= n'
    ensures TopIndex(base, n) <= TopIndex(base, n')
  {
    if n < n' {
      TopIndexMonotone(base, n, n' - 1);
      TopIndexStep(base, n' - 1);
    }
  }

  lemma TablesMonotone(m: Mem, root: nat, base: nat, n: nat, n': nat)
    requires base % PAGE_SIZE == 0 && n <= n'
    ensures TablesFor(m, root, base, n) <= TablesFor(m, root, base, n')
  {
    TopIndexMonotone(base, n, n');
    MissingMonotone(m, root, Vpn1(base), TopIndex(base, n), TopIndex(base, n'));
  }

  /** `frames` have been mapped from `base` on into a tree that was `m0`. */
  ghost predicate Extended(m0: Mem, m: Mem, uses: Uses, pid: nat, root: nat, base: nat, frames: seq<nat>, flags: nat)
  {
    && TreeOk(m, uses, pid, root)
    && (forall w: word :: Walk(m, root, w) == View(m0, root, base, frames, flags, w))
    && (forall j: nat | j < 1024 ::
          Missing(m, root, j) <==> (Missing(m0, root, j) && !(Vpn1(base) <= j < TopIndex(base, |frames|))))
  }

  /** Changes outside the tree do not undo the mapping. */
  lemma ExtendFrame(m0: Mem, m: Mem, m': Mem, uses: Uses, uses': Uses, pid: nat, root: nat, base: nat, frames: seq<nat>,
                    flags: nat)
    requires Extended(m0, m, uses, pid, root, base, frames, flags) && TreeKept(m, m', uses, pid)
    requires forall p | p in uses :: p in uses' && uses'[p] == uses[p]
    ensures Extended(m0, m', uses', pid, root, base, frames, flags)
  {
    TreeFrame(m, m', uses, uses', pid, root);
  }

  /** Flags with which a leaf is legal. */
  predicate LeafFlags(flags: nat)
  {
    flags < 1024 && LegalLeaf(flags)
  }

  lemma RunAligned(base: nat, n: nat)
    requires base % PAGE_SIZE == 0
    ensures (base + PAGE_SIZE * n) % PAGE_SIZE == 0
  {
  }

  /** A run of pages from `base` that has not reached the page-aligned `end`. */
  lemma RunProgress(base: nat, n: nat, end: nat)
    requires base % PAGE_SIZE == 0 && end % PAGE_SIZE == 0 && base + PAGE_SIZE * n < end
    ensures n + 1 <= (end - base) / PAGE_SIZE
    ensures base + PAGE_SIZE * (n + 1) <= end
  {
  }

  /** The flags of kernel and of user pages. */
  lemma KernelAndUserFlags()
    ensures LeafFlags(PAGE_R + PAGE_W + PAGE_X) && LeafFlags(PAGE_U + PAGE_R + PAGE_W + PAGE_X)
    ensures WithV(PAGE_R + PAGE_W + PAGE_X) == 15 && WithV(PAGE_U + PAGE_R + PAGE_W + PAGE_X) == 31
  {
  }

  /** What mapping one more page will cost. */
  lemma ExtendCost(m0: Mem, m1: Mem, uses1: Uses, pid: nat, root: nat, base: nat, frames: seq<nat>, flags: nat)
    requires base % PAGE_SIZE == 0 && base + PAGE_SIZE * |frames| < WORD_LIMIT
    requires Extended(m0, m1, uses1, pid, root, base, frames, flags)
    ensures NextTables(m0, root, base, |frames|) == if Missing(m1, root, Vpn1(base + PAGE_SIZE * |frames|))
      then 1 else 0
  {
    TopIndexStep(base, |frames|);
    VpnBounds(base + PAGE_SIZE * |frames|);
  }

  /** Mapping one more page: the translation grows by that page. */
  lemma ExtendStep(m0: Mem, m1: Mem, m2: Mem, uses1: Uses, uses2: Uses, pid: nat, root: nat, base: nat,
                   frames: seq<nat>, flags: nat, page: word)
    requires base % PAGE_SIZE == 0 && page % PAGE_SIZE == 0 && LeafFlags(flags)
    requires base + PAGE_SIZE * |frames| < WORD_LIMIT
    requires Extended(m0, m1, uses1, pid, root, base, frames, WithV(flags))
    requires TreeOk(m2, uses2, pid, root)
    requires forall w: word ::
      Walk(m2, root, w) == Remapped(m1, root, base + PAGE_SIZE * |frames|, LeafEntry(page, flags), w)
    requires !Missing(m2, root, Vpn1(base + PAGE_SIZE * |frames|))
    requires forall j: nat | j < 1024 && j != Vpn1(base + PAGE_SIZE * |frames|) ::
      Missing(m2, root, j) == Missing(m1, root, j)
    ensures Extended(m0, m2, uses2, pid, root, base, frames + [page], WithV(flags))
  {
    var v := base + PAGE_SIZE * |frames|;
    TopIndexStep(base, |frames|);
    VpnBounds(v);
    forall w: word ensures Walk(m2, root, w) == View(m0, root, base, frames + [page], WithV(flags), w) {
      ViewStep(m0, m1, root, base, frames, flags, page, w);
    }
  }

  lemma ViewStep(m0: Mem, m1: Mem, root: nat, base: nat, frames: seq<nat>, flags: nat, page: word, w: word)
    requires base % PAGE_SIZE == 0 && page % PAGE_SIZE == 0 && LeafFlags(flags)
    requires Walk(m1, root, w) == View(m0, root, base, frames, WithV(flags), w)
    ensures Remapped(m1, root, base + PAGE_SIZE * |frames|, LeafEntry(page, flags), w)
            == View(m0, root, base, frames + [page], WithV(flags), w)
  {
    hide Walk, LeafEntry, LeafTranslation, BitOr, LegalLeaf, WithV;
    RunAligned(base, |frames|);
    InPage(base + PAGE_SIZE * |frames|, w);
    LeafEntryMeaning(page, flags, w);
    if base <= w {
      PageIndex(base, |frames|, w);
      PageIndex(base, |frames| + 1, w);
    }
  }

  lemma PageIndex(base: nat, n: nat, w: nat)
    requires base <= w
    ensures w < base + PAGE_SIZE * n <==> (w - base) / PAGE_SIZE < n
  {
  }

  lemma InPage(v: nat, w: nat)
    requires v % PAGE_SIZE == 0
    ensures w / PAGE_SIZE == v / PAGE_SIZE <==> v <= w < v + PAGE_SIZE
  {
  }

  // ---------------------------------------------------------------- what a run of mappings leaves alone

  /** Uses are never taken back, and new ones are given to pages from `next0` on, for process `pid`. */
  ghost predicate Grown(uses0: Uses, uses: Uses, next0: nat, pid: nat)
  {
    && (forall p | p in uses0 :: p in uses && uses[p] == uses0[p])
    && (forall p | p in uses && p !in uses0 :: p >= next0 / PAGE_SIZE && uses[p] != Free && Owner(uses[p]) == pid)
  }

  /** Every byte below `next0` outside process `pid`'s tables is as it was. */
  ghost predicate OldBytesKept(m0: Mem, m: Mem, uses0: Uses, pid: nat, next0: nat)
  {
    |m| == |m0| && forall b: nat | b < |m0| && b < next0 && !InTree(UseOf(uses0, b), pid) :: m[b] == m0[b]
  }

  /** A new image page comes after what was there and leaves it alone. */
  lemma NewPageKept(m0: Mem, m: Mem, m': Mem, uses0: Uses, uses: Uses, pid: nat, next0: nat, page: nat, k: nat)
    requires Grown(uses0, uses, next0, pid) && OldBytesKept(m0, m, uses0, pid, next0)
    requires page >= next0 && page / PAGE_SIZE !in uses && |m'| == |m|
    requires forall b: nat | b < |m| && b < page :: m'[b] == m[b]
    ensures Grown(uses0, uses[page / PAGE_SIZE := Image(pid, k)], next0, pid)
    ensures OldBytesKept(m0, m', uses0, pid, next0)
  {
    hide InTree, UseOf;
  }

  /** The start of a run. */
  lemma RunStart(m: Mem, uses: Uses, pid: nat, root: nat, base: nat, flags: nat, next: nat)
    requires TreeOk(m, uses, pid, root)
    ensures Extended(m, m, uses, pid, root, base, [], flags)
    ensures Grown(uses, uses, next, pid) && OldBytesKept(m, m, uses, pid, next)
    ensures TablesFor(m, root, base, 0) == 0
  {
  }

  /** What one call of map_page leaves alone, seen from the start of a run. */
  lemma KeptByTreeWrites(m0: Mem, m1: Mem, m2: Mem, uses0: Uses, uses1: Uses, uses2: Uses, pid: nat, next0: nat)
    requires OldBytesKept(m0, m1, uses0, pid, next0) && OnlyTree(m1, m2, uses2, pid)
    requires next0 % PAGE_SIZE == 0 && Grown(uses0, uses2, next0, pid)
    ensures OldBytesKept(m0, m2, uses0, pid, next0)
  {
    forall b: nat | b < |m0| && b < next0 && !InTree(UseOf(uses0, b), pid) ensures m2[b] == m0[b] {
      assert b / PAGE_SIZE < next0 / PAGE_SIZE;
      assert UseOf(uses2, b) == UseOf(uses0, b);
    }
  }

  // ---------------------------------------------------------------- the pages of an image

  /** Byte `i` of an image followed by zeros. */
  function ImageByte(image: Mem, i: nat): byte
  {
    if i < |image| then image[i] else 0
  }

  /** The page at `frame` belongs to page `k` of process `pid`'s image and holds it. */
  ghost predicate PageHolds(m: Mem, uses: Uses, pid: nat, frame: nat, k: nat, image: Mem)
  {
    && frame % PAGE_SIZE == 0 && frame + PAGE_SIZE <= |m|
    && UseOf(uses, frame) == Image(pid, k)
    && forall b: nat | frame <= b < frame + PAGE_SIZE :: m[b] == ImageByte(image, PAGE_SIZE * k + (b - frame))
  }

  ghost predicate ImageHeld(m: Mem, uses: Uses, pid: nat, frames: seq<nat>, image: Mem)
  {
    forall k: nat | k < |frames| :: PageHolds(m, uses, pid, frames[k], k, image)
  }

  /** Pages of an image survive writes elsewhere. */
  lemma ImageFrame(m: Mem, m': Mem, uses: Uses, uses': Uses, pid: nat, frames: seq<nat>, image: Mem)
    requires ImageHeld(m, uses, pid, frames, image) && |m'| == |m|
    requires forall p | p in uses :: p in uses' && uses'[p] == uses[p]
    requires forall b: nat | b < |m| && UseOf(uses, b).Image? && UseOf(uses, b).pid == pid :: m'[b] == m[b]
    ensures ImageHeld(m', uses', pid, frames, image)
  {
    forall k: nat | k < |frames| ensures PageHolds(m', uses', pid, frames[k], k, image) {
      assert PageHolds(m, uses, pid, frames[k], k, image);
      forall b: nat | frames[k] <= b < frames[k] + PAGE_SIZE ensures m'[b] == m[b] {
        SamePage(frames[k], b - frames[k]);
      }
    }
  }

  /** Reading a byte through the walk. */
  function ReadVirtual(m: Mem, root: nat, va: nat): Option<byte>
  {
    match Walk(m, root, va)
    case Fault => None
    case Mapped(pa, _) => if pa < |m| then Some(m[pa]) else None
  }

  /** The number of pages that `size` bytes take. */
  function PagesOf(size: nat): nat
  {
    (size + PAGE_SIZE - 1) / PAGE_SIZE
  }

  /** An image mapped at `base` reads back byte for byte, with zeros up to the end of its last page. */
  lemma ImageReadBack(m0: Mem, m: Mem, uses: Uses, pid: nat, root: nat, base: nat, frames: seq<nat>, flags: nat,
                      image: Mem, i: nat)
    requires Extended(m0, m, uses, pid, root, base, frames, flags) && ImageHeld(m, uses, pid, frames, image)
    requires base % PAGE_SIZE == 0 && i < PAGE_SIZE * |frames| && base + i < WORD_LIMIT
    ensures ReadVirtual(m, root, base + i) == Some(ImageByte(image, i))
  {
    var k, j := i / PAGE_SIZE, i % PAGE_SIZE;
    assert k < |frames|;
    assert PageHolds(m, uses, pid, frames[k], k, image);
    assert (base + i) % PAGE_SIZE == j by { DivModUnique(base + i, PAGE_SIZE, base / PAGE_SIZE + k, j); }
    assert Walk(m, root, base + i) == Mapped(frames[k] + j, flags);
    assert m[frames[k] + j] == ImageByte(image, PAGE_SIZE * k + j);
  }

  /** A page with no use is taken for page `k` of an image and filled. */
  lemma FilledPage(m: Mem, m': Mem, uses: Uses, pid: nat, page: nat, k: nat, image: Mem)
    requires |m'| == |m| && page % PAGE_SIZE == 0 && page + PAGE_SIZE <= |m| && page / PAGE_SIZE !in uses
    requires forall b: nat | b < |m| :: m'[b] == if page <= b < page + PAGE_SIZE
      then ImageByte(image, PAGE_SIZE * k + (b - page)) else m[b]
    ensures PageHolds(m', uses[page / PAGE_SIZE := Image(pid, k)], pid, page, k, image)
    ensures TreeKept(m, m', uses, pid)
    ensures forall b: nat | b < |m| && UseOf(uses, b).Image? && UseOf(uses, b).pid == pid :: m'[b] == m[b]
  {
    forall b: nat | b < |m| && UseOf(uses, b) != Free ensures m'[b] == m[b] {
      if page <= b < page + PAGE_SIZE { SamePage(page, b - page); }
    }
  }

  /** Mapping the filled page keeps the image. */
  lemma ImageKeptByTreeWrites(m: Mem, m': Mem, uses: Uses, uses': Uses, pid: nat, frames: seq<nat>, image: Mem)
    requires ImageHeld(m, uses, pid, frames, image) && OnlyTree(m, m', uses', pid)
    requires forall p | p in uses :: p in uses' && uses'[p] == uses[p]
    ensures ImageHeld(m', uses', pid, frames, image)
  {
    forall b: nat | b < |m| && UseOf(uses, b).Image? ensures m'[b] == m[b] {
      assert UseOf(uses', b) == UseOf(uses, b);
    }
    ImageFrame(m, m', uses, uses', pid, frames, image);
  }

  lemma ImageHeldAppend(m: Mem, uses: Uses, pid: nat, frames: seq<nat>, page: nat, image: Mem)
    requires ImageHeld(m, uses, pid, frames, image) && PageHolds(m, uses, pid, page, |frames|, image)
    ensures ImageHeld(m, uses, pid, frames + [page], image)
  {
  }

  /** Memory below the pages in use, where the kernel image lies, is not a page table. */
  lemma StaticKept(m: Mem, m': Mem, uses': Uses, pid: nat, limit: nat)
    requires OnlyTree(m, m', uses', pid) && limit % PAGE_SIZE == 0 && limit <= |m|
    requires forall p | p in uses' :: p >= limit / PAGE_SIZE
    ensures m'[..limit] == m[..limit]
  {
    forall b: nat | b < limit ensures m'[b] == m[b] {
      assert b / PAGE_SIZE < limit / PAGE_SIZE;
      assert UseOf(uses', b) == Free;
    }
  }
}
