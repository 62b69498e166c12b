/** kmain's memory bring-up from the bootloader's memory map to the running heap: what initialisation leaves,
    when the mapping loop may start from it, and what then holds of every byte the heap gives out. */
module Kernel {
  import opened Words
  import opened PagePool
  import opened PageTables
  import opened MemoryMap
  import opened MappingRuns
  import opened TableNeed
  import opened DirectMap
  import opened Boot
  import opened HeapWindow
  import opened BootLimits
  import opened HeapMemory
  import Heap
  import HeapRuns

  // ---- Clearing the heap bitmap ----------------------------------------------------------------

  /** The frames from f on, n of them, cleared. */
  ghost function Cleared(mem: Memory, f: nat, n: nat): Memory {
    imap k: nat | true :: if f <= k < f + n then ZeroTable() else mem[k]
  }

  lemma OneFrameMore(mem: Memory, f: nat, n: nat)
    ensures Cleared(mem, f, 0) == mem && Cleared(mem, f, n + 1) == Clear(Cleared(mem, f, n), f + n)
  {
    hide ZeroTable;
  }

  lemma ClearedFrames(mem: Memory, f: nat, n: nat)
    ensures forall k: nat :: Cleared(mem, f, n)[k] == if f <= k < f + n then ZeroTable() else mem[k]
  {
  }

  /** The same through the direct map, page by page. */
  ghost function ClearedThrough(mem: Memory, root: nat, hhdm: u64, f: nat, n: nat): Stored
    decreases n
  {
    if n == 0 then Written(mem)
    else
      match ClearedThrough(mem, root, hhdm, f, n - 1)
      case StoreFault => StoreFault
      case Written(mem1) => ClearAt(mem1, root, Direct(hhdm, f + n - 1, 0))
  }

  /** Clearing frames that are not tables keeps the tree and every translation. */
  lemma ClearingKeepsTranslations(s: Vm, levels: map<nat, nat>, f: nat, n: nat)
    requires Tree(s, levels) && forall k :: f <= k < f + n ==> k !in levels
    ensures Tree(s.(mem := Cleared(s.mem, f, n)), levels)
    ensures forall v: u64 :: Translate(Cleared(s.mem, f, n), s.root, v) == Translate(s.mem, s.root, v)
  {
    ClearedFrames(s.mem, f, n);
    hide Translate, Cleared;
    WritesOutsideTables(s, levels, s.(mem := Cleared(s.mem, f, n)));
  }

  /** Through a direct map that reaches them, those very frames are cleared. */
  lemma {:induction false} ClearedThroughIsPhysical(s: Vm, levels: map<nat, nat>, hhdm: u64, pages: set<nat>,
                                                   f: nat, n: nat)
    requires Tree(s, levels) && DirectMapped(s, hhdm, pages)
    requires forall k :: f <= k < f + n ==> k in pages && k !in levels
    ensures ClearedThrough(s.mem, s.root, hhdm, f, n) == Written(Cleared(s.mem, f, n))
    decreases n
  {
    hide Tree, Cleared, Clear, ClearAt, Translate, Direct, DirectMapped;
    if n == 0 {
      OneFrameMore(s.mem, f, 0);
    } else {
      var mem1 := Cleared(s.mem, f, n - 1);
      ClearedThroughIsPhysical(s, levels, hhdm, pages, f, n - 1);
      assert ClearedThrough(s.mem, s.root, hhdm, f, n) == ClearAt(mem1, s.root, Direct(hhdm, f + n - 1, 0));
      ClearingKeepsTranslations(s, levels, f, n - 1);
      ClearsThatFrame(s, mem1, hhdm, pages, f + n - 1);
      OneFrameMore(s.mem, f, n - 1);
    }
  }

  lemma ClearsThatFrame(s: Vm, mem: Memory, hhdm: u64, pages: set<nat>, f: nat)
    requires DirectMapped(s, hhdm, pages) && f in pages
    requires Translate(mem, s.root, Direct(hhdm, f, 0)) == Translate(s.mem, s.root, Direct(hhdm, f, 0))
    ensures ClearAt(mem, s.root, Direct(hhdm, f, 0)) == Written(Clear(mem, f))
  {
    hide Clear, Direct, Translate;
    assert Resolve(s.mem, s.root, Direct(hhdm, f, 0)) == Frame(f);
  }

  // ---- Initialisation --------------------------------------------------------------------------

  /** What kmain starts from: the memory map, the length and the address of the page bitmap that it leads to,
      memory with the bootloader's tables, and the addresses of the direct map and of the I/O APIC. */
  datatype Start = Start(entries: seq<Entry>, words: nat, base: u64, mem: Memory, root: nat, hhdm: u64, ioapic: u64)

  ghost function FirstBusy(k: Start): set<nat> {
    InitialBusy(k.entries, k.words, k.base / PAGE_SIZE)
  }

  ghost predicate FreeAtStart(k: Start, p: nat) {
    StartsFree(k.entries, k.words, k.base / PAGE_SIZE, p)
  }

  function ScanWindow(k: Start): nat {
    64 * (k.words / 64)
  }

  /** The state before heap_bitmap_pointer. */
  ghost function BeforeHeapBitmap(k: Start): Vm {
    Vm(k.mem, FirstBusy(k), ScanWindow(k), k.root)
  }

  /** The page that heap_bitmap_pointer takes from there. */
  ghost function HeapBitmapPage(k: Start): nat {
    Take(FirstBusy(k), ScanWindow(k)).addr / PAGE_SIZE
  }

  /** The busy pages after init_bitmap_pmm: one more, and less what clearing the heap bitmap wipes off. */
  ghost function BusyAfterInit(k: Start): set<nat> {
    var g := Take(FirstBusy(k), ScanWindow(k));
    AfterWipe(g.busy, k.base, g.addr / PAGE_SIZE)
  }

  /** The state init_bitmap_pmm ends in. */
  ghost function AfterInit(k: Start): Vm {
    Vm(Cleared(k.mem, HeapBitmapPage(k), HEAP_BITMAP_FRAMES), BusyAfterInit(k), ScanWindow(k), k.root)
  }

  ghost function InitThrough(k: Start): Outcome {
    match ClearedThrough(k.mem, k.root, k.hhdm, HeapBitmapPage(k), HEAP_BITMAP_FRAMES)
    case StoreFault => Halted
    case Written(mem') => Done(Vm(mem', BusyAfterInit(k), ScanWindow(k), k.root))
  }

  /** The memory part of kmain, with its accesses. */
  ghost function KmainThrough(k: Start): Outcome
    requires 64 * k.words <= FRAMES
  {
    match InitThrough(k)
    case Halted => Halted
    case Done(s) => BootThrough(s, k.hhdm, k.ioapic)
  }

  /** Page f is one of the pages locked for the page bitmap. */
  predicate BitmapsOwn(k: Start, f: nat) {
    k.base / PAGE_SIZE <= f < k.base / PAGE_SIZE + BitmapPages(k.words)
  }

  /** A page that can be taken before the heap bitmap is, is usable memory, is not page 0, and is none of
      the bitmap's own pages. If the fifteen pages after the first one taken did not start free, no other
      lies in the heap bitmap. */
  lemma TakenPagesAreApart(k: Start, f: nat)
    requires k.words > 0 && f in FreePages(FirstBusy(k), ScanWindow(k))
    ensures UsablePage(k.entries, f) && f != 0 && !BitmapsOwn(k, f)
    ensures var h := HeapBitmapPage(k);
            (forall p :: h < p < h + HEAP_BITMAP_FRAMES ==> !FreeAtStart(k, p)) ==>
              f == h || !InBitmap(h, f)
  {
    assert FreeAtStart(k, f);
  }

  // ---- When the bring-up may start -------------------------------------------------------------

  /** What the machine must be like before heap_bitmap_pointer: ready for the bring-up with a page to spare;
      the sixteen frames that will hold the heap bitmap and the page bitmap's own pages are no tables and are
      direct-mapped; and the fifteen pages that nobody reserves do not start free and hold nothing of the page
      bitmap. */
  ghost predicate KernelReady(k: Start, levels: map<nat, nat>, pages: set<nat>) {
    var s := BeforeHeapBitmap(k);
    && BootReady(s, levels, k.hhdm, k.ioapic, pages)
    && BootNeed(s, k.hhdm, k.ioapic) + 1 <= |FreePages(s.busy, s.window)|
    && BitmapsLieWell(k, levels, pages)
  }

  ghost predicate BitmapsLieWell(k: Start, levels: map<nat, nat>, pages: set<nat>) {
    var h := HeapBitmapPage(k);
    && k.words > 0
    && (forall f :: InBitmap(h, f) || BitmapsOwn(k, f) ==> f in pages && f !in levels)
    && (forall p :: h < p < h + HEAP_BITMAP_FRAMES ==> !FreeAtStart(k, p))
    && (k.base + 8 * k.words <= h * PAGE_SIZE || (h + HEAP_BITMAP_FRAMES) * PAGE_SIZE <= k.base)
  }

  /** Then clearing the heap bitmap leaves the busy pages alone. */
  lemma InitTakesOnePage(k: Start, levels: map<nat, nat>, pages: set<nat>)
    requires KernelReady(k, levels, pages)
    ensures var s := BeforeHeapBitmap(k);
            var h := HeapBitmapPage(k);
            && h in FreePages(s.busy, s.window) && BusyAfterInit(k) == s.busy + {h}
            && |FreePages(s.busy + {h}, s.window)| == |FreePages(s.busy, s.window)| - 1
            && (forall f :: f in FreePages(s.busy + {h}, s.window) ==> f in FreePages(s.busy, s.window) && f != h)
  {
    var busy := FirstBusy(k);
    assert 0 in busy && forall p :: p in busy ==> p < 64 * k.words;
    assert FreePages(busy, ScanWindow(k)) != {};
    hide BootReady, FirstBusy, FreeAtStart, FreePages;
    TakesOnePage(busy, k.words, k.base);
  }

  lemma TakesOnePage(busy: set<nat>, words: nat, base: u64)
    requires words > 0 && 0 in busy && FreePages(busy, 64 * (words / 64)) != {}
    requires forall p :: p in busy ==> p < 64 * words
    requires var h := Take(busy, 64 * (words / 64)).addr / PAGE_SIZE;
             base + 8 * words <= h * PAGE_SIZE || (h + HEAP_BITMAP_FRAMES) * PAGE_SIZE <= base
    ensures var window := 64 * (words / 64);
            var g := Take(busy, window);
            var h := g.addr / PAGE_SIZE;
            && h in FreePages(busy, window) && AfterWipe(g.busy, base, h) == busy + {h}
            && |FreePages(busy + {h}, window)| == |FreePages(busy, window)| - 1
            && (forall f :: f in FreePages(busy + {h}, window) ==> f in FreePages(busy, window) && f != h)
  {
    var window := 64 * (words / 64);
    var h := Take(busy, window).addr / PAGE_SIZE;
    TakeMeaning(busy, window);
    hide Take;
    assert h < 64 * words;
    NothingWiped(busy + {h}, words, base, h);
  }

  lemma NothingWiped(busy: set<nat>, words: nat, base: u64, h: nat)
    requires words > 0 && forall p :: p in busy ==> p < 64 * words
    requires base + 8 * words <= h * PAGE_SIZE || (h + HEAP_BITMAP_FRAMES) * PAGE_SIZE <= base
    ensures AfterWipe(busy, base, h) == busy
  {
    WipeSparesBitmapIff(base, words, h);
    hide BitCleared;
  }

  /** More busy pages and cleared frames outside the tables keep a state ready for the bring-up. */
  lemma StaysReady(s: Vm, levels: map<nat, nat>, hhdm: u64, ioapic: u64, pages: set<nat>, s': Vm)
    requires BootReady(s, levels, hhdm, ioapic, pages) && Tree(s', levels)
    requires s'.root == s.root && s'.window == s.window && forall f :: f in s.busy ==> f in s'.busy
    requires forall v: u64 :: Translate(s'.mem, s.root, v) == Translate(s.mem, s.root, v)
    requires forall f :: f in levels ==> s'.mem[f] == s.mem[f]
    requires BootNeed(s, hhdm, ioapic) <= |FreePages(s'.busy, s.window)|
    ensures BootReady(s', levels, hhdm, ioapic, pages)
  {
    SameNeed(s, levels, hhdm, ioapic, pages, s') by {
      hide Tree, Translate;
    }
    hide BootNeed;
    hide Tree, Translate, Reaches, ApartForBoot, FreePages, Direct;
    ReachesAfter(s, levels, hhdm, pages, s', levels);
  }

  /** The need depends on the tables only. */
  lemma SameNeed(s: Vm, levels: map<nat, nat>, hhdm: u64, ioapic: u64, pages: set<nat>, s': Vm)
    requires BootReady(s, levels, hhdm, ioapic, pages) && s'.root == s.root
    requires forall f :: f in levels ==> s'.mem[f] == s.mem[f]
    ensures BootNeed(s', hhdm, ioapic) == BootNeed(s, hhdm, ioapic)
  {
    BootReadyFacts(s, levels, hhdm, ioapic, pages);
    NoLargeIff(s);
    hide BootReady, Tree, Translate, HeapPage, NoLargeHeapPages, Part, LapicPage;
    TreeFacts(s, levels);
    MissingReadsBelow(s, levels, s'.mem, s.root, 3, LapicPage(hhdm));
    MissingReadsBelow(s, levels, s'.mem, s.root, 3, ioapic);
    MissingReadsBelow(s, levels, s'.mem, s.root, 3, HeapPage(0));
  }

  /** So init_bitmap_pmm ends in a state the bring-up can start from, with a cleared heap bitmap that is
      reserved in effect: its frames cannot be handed out. */
  lemma InitLeavesReady(k: Start, levels: map<nat, nat>, pages: set<nat>)
    requires KernelReady(k, levels, pages)
    ensures var s := AfterInit(k);
            && InitThrough(k) == Done(s)
            && BootReady(s, levels, k.hhdm, k.ioapic, pages)
            && s.window == ScanWindow(k) && s.window <= FRAMES
  {
    hide KernelReady, BeforeHeapBitmap, AfterInit, InitThrough, BootReady, HeapBitmapPage, Cleared, ClearedThrough;
    hide FreePages, FirstBusy;
    var s, h := InitAsSteps(k, levels, pages);
    ClearsHeapBitmap(s, levels, k.hhdm, k.ioapic, pages, h);
  }

  /** Initialisation from the state before the heap bitmap is taken. */
  lemma InitAsSteps(k: Start, levels: map<nat, nat>, pages: set<nat>) returns (s: Vm, h: nat)
    requires KernelReady(k, levels, pages)
    ensures s == Vm(k.mem, FirstBusy(k), ScanWindow(k), k.root)
    ensures h == HeapBitmapPage(k)
    ensures BitmapsLieWell(k, levels, pages)
    ensures BootReady(s, levels, k.hhdm, k.ioapic, pages)
    ensures BootNeed(s, k.hhdm, k.ioapic) <= |FreePages(s.busy + {h}, s.window)|
    ensures forall f :: h <= f < h + HEAP_BITMAP_FRAMES ==> f in pages && f !in levels
    ensures var s' := Vm(Cleared(k.mem, h, HEAP_BITMAP_FRAMES), s.busy + {h}, s.window, k.root);
            && AfterInit(k) == s'
            && (ClearedThrough(k.mem, k.root, k.hhdm, h, HEAP_BITMAP_FRAMES) == Written(s'.mem) ==>
                 InitThrough(k) == Done(s'))
  {
    s := BeforeHeapBitmap(k);
    h := HeapBitmapPage(k);
    InitTakesOnePage(k, levels, pages);
    hide BootReady, FreePages, FirstBusy, HeapBitmapPage, Cleared, ClearedThrough, BusyAfterInit, FreeAtStart;
  }

  lemma ClearingStaysReady(s0: Vm, levels: map<nat, nat>, hhdm: u64, ioapic: u64, pages: set<nat>, s: Vm, h: nat)
    requires BootReady(s0, levels, hhdm, ioapic, pages) && Tree(s, levels)
    requires s == s0.(busy := s.busy) && s0.busy <= s.busy
    requires BootNeed(s0, hhdm, ioapic) <= |FreePages(s.busy, s.window)|
    requires forall f :: h <= f < h + HEAP_BITMAP_FRAMES ==> f !in levels
    ensures BootReady(s.(mem := Cleared(s.mem, h, HEAP_BITMAP_FRAMES)), levels, hhdm, ioapic, pages)
  {
    hide BootReady, Tree, Cleared, Translate, FreePages, BootNeed;
    ClearedFrames(s.mem, h, HEAP_BITMAP_FRAMES);
    ClearingKeepsTranslations(s, levels, h, HEAP_BITMAP_FRAMES);
    StaysReady(s0, levels, hhdm, ioapic, pages, s.(mem := Cleared(s.mem, h, HEAP_BITMAP_FRAMES)));
  }

  lemma ClearsHeapBitmap(s: Vm, levels: map<nat, nat>, hhdm: u64, ioapic: u64, pages: set<nat>, h: nat)
    requires BootReady(s, levels, hhdm, ioapic, pages)
    requires forall f :: h <= f < h + HEAP_BITMAP_FRAMES ==> f in pages && f !in levels
    requires BootNeed(s, hhdm, ioapic) <= |FreePages(s.busy + {h}, s.window)|
    ensures ClearedThrough(s.mem, s.root, hhdm, h, HEAP_BITMAP_FRAMES) == Written(Cleared(s.mem, h, HEAP_BITMAP_FRAMES))
    ensures BootReady(Vm(Cleared(s.mem, h, HEAP_BITMAP_FRAMES), s.busy + {h}, s.window, s.root), levels, hhdm, ioapic, pages)
    ensures s.window <= FRAMES
  {
    hide BootReady, Cleared, ClearedThrough, Translate, FreePages, Tree, DirectMapped, Reaches, NoLargeHeapPages;
    BootReadyFacts(s, levels, hhdm, ioapic, pages);
    ClearedThroughIsPhysical(s, levels, hhdm, pages, h, HEAP_BITMAP_FRAMES);
    MoreBusyKeepsTree(s, levels, s.busy + {h});
    ClearingStaysReady(s, levels, hhdm, ioapic, pages, s.(busy := s.busy + {h}), h);
  }

  lemma InitLeavesBitmap(k: Start, levels: map<nat, nat>, pages: set<nat>)
    requires KernelReady(k, levels, pages)
    ensures BitmapReady(AfterInit(k), levels, pages, HeapBitmapPage(k))
  {
    hide KernelReady, BitmapsLieWell, AfterInit, BootReady, Cleared, FreePages, HeapBitmapPage, FirstBusy, BitmapFrames;
    var s, h := InitAsSteps(k, levels, pages);
    BitmapCannotBeTaken(k, levels, pages);
    ClearedFrames(k.mem, h, HEAP_BITMAP_FRAMES);
  }

  lemma BitmapCannotBeTaken(k: Start, levels: map<nat, nat>, pages: set<nat>)
    requires BitmapsLieWell(k, levels, pages)
    ensures var h := HeapBitmapPage(k);
            forall f :: f in BitmapFrames(h) ==>
              && InBitmap(h, f) && f in pages && f !in levels
              && f !in FreePages(FirstBusy(k) + {h}, ScanWindow(k))
  {
    hide HeapBitmapPage, StartsFree;
    var h := HeapBitmapPage(k);
    forall f | f in BitmapFrames(h) ensures f !in FreePages(FirstBusy(k) + {h}, ScanWindow(k)) {
      if f != h {
        assert !FreeAtStart(k, f);
      }
    }
  }

  // ---- The page bitmap through the direct map --------------------------------------------------

  /** The address at which the source accesses word i of the page bitmap. */
  function PageBitmapAddress(k: Start, i: nat): u64 {
    (k.base + k.hhdm + 8 * i) % TWO_64
  }

  /** The array that `Manager` keeps for the page bitmap is what the kernel reads and writes: for a page-aligned
      bitmap each word is reached where it lies, in every state whose direct map serves `pages`, and so in all
      that kmain and the heap go through, and in the midst of a call as well. */
  lemma PageBitmapReached(k: Start, levels0: map<nat, nat>, pages: set<nat>,
                          s: Vm, levels: map<nat, nat>, mem: Memory, i: nat)
    requires KernelReady(k, levels0, pages) && k.base % PAGE_SIZE == 0 && i < k.words
    requires Tree(s, levels) && Reaches(s, levels, k.hhdm, pages) && KeepsPresent(s, levels, mem)
    ensures Resolve(mem, s.root, PageBitmapAddress(k, i)) == Frame((k.base + 8 * i) / PAGE_SIZE)
    ensures PageBitmapAddress(k, i) % PAGE_SIZE == (k.base + 8 * i) % PAGE_SIZE
    ensures BitmapsOwn(k, (k.base + 8 * i) / PAGE_SIZE)
  {
    hide KernelReady, Tree, KeepsPresent, Direct, HeapBitmapPage, BitmapsOwn, FreeAtStart, Resolve, DirectMapped;
    var f := k.base / PAGE_SIZE;
    BitmapWordPlace(k, i);
    LiesWell(k, levels0, pages);
    BitmapAddressDirect(k, i);
    hide PageBitmapAddress;
    DirectAccess(s, levels, k.hhdm, pages, mem, f + i / 512, i % 512);
  }

  lemma BitmapAddressDirect(k: Start, i: nat)
    requires k.base % PAGE_SIZE == 0
    ensures PageBitmapAddress(k, i) == Direct(k.hhdm, k.base / PAGE_SIZE + i / 512, i % 512)
  {
    WordOfFrame(k.hhdm, k.base / PAGE_SIZE, i);
  }

  lemma BitmapWordPlace(k: Start, i: nat)
    requires k.base % PAGE_SIZE == 0 && i < k.words
    ensures (k.base + 8 * i) / PAGE_SIZE == k.base / PAGE_SIZE + i / 512
    ensures (k.base + 8 * i) % PAGE_SIZE == 8 * (i % 512)
    ensures BitmapsOwn(k, k.base / PAGE_SIZE + i / 512)
  {
  }

  // ---- kmain and the heap it leaves ------------------------------------------------------------

  /** Under those conditions kmain's memory bring-up runs through without a fault and computes the bring-up
      on physical frames. */
  lemma KmainRunsThrough(k: Start, levels: map<nat, nat>, pages: set<nat>)
    requires 64 * k.words <= FRAMES && KernelReady(k, levels, pages)
    ensures KmainThrough(k) == Done(BootMemory(AfterInit(k), k.hhdm, k.ioapic))
  {
    InitLeavesReady(k, levels, pages);
    hide KernelReady, AfterInit, InitThrough, BootReady, BootMemory, BootThrough;
    var levels', frames := BootMapsEverything(AfterInit(k), levels, k.hhdm, k.ioapic, pages);
  }

  /** And then the devices and the heap are mapped where they should be. */
  lemma KmainBringsUp(k: Start, levels: map<nat, nat>, pages: set<nat>, a: nat)
    requires 64 * k.words <= FRAMES && KernelReady(k, levels, pages) && IoapicAt(k.ioapic, k.hhdm, a)
    ensures BroughtUp(AfterInit(k), BootMemory(AfterInit(k), k.hhdm, k.ioapic), k.hhdm, a)
  {
    InitLeavesReady(k, levels, pages);
    hide KernelReady, AfterInit, BootReady, BootMemory, BroughtUp;
    BootBringsUp(AfterInit(k), levels, k.hhdm, k.ioapic, pages, a);
  }

  /** The machine that the heap finds after kmain's bring-up. */
  ghost function MachineAfterKmain(k: Start): Machine
    requires 64 * k.words <= FRAMES
  {
    Machine(BootMemory(AfterInit(k), k.hhdm, k.ioapic), k.hhdm, HeapBitmapPage(k))
  }

  /** Frame f is usable memory and nothing the kernel keeps for itself: not page 0, not the page bitmap, not
      the heap bitmap, not a page table. */
  ghost predicate NotTheKernels(k: Start, levels: map<nat, nat>, f: nat) {
    && UsablePage(k.entries, f) && f != 0 && f !in levels
    && !BitmapsOwn(k, f) && !InBitmap(HeapBitmapPage(k), f)
  }

  /** Nor do these overlap each other: no table lies in page 0 or in a bitmap. */
  ghost predicate TablesApart(k: Start, levels: map<nat, nat>) {
    forall f :: f in levels ==> f != 0 && !BitmapsOwn(k, f) && !InBitmap(HeapBitmapPage(k), f)
  }

  lemma LiesWell(k: Start, levels: map<nat, nat>, pages: set<nat>)
    requires KernelReady(k, levels, pages)
    ensures BitmapsLieWell(k, levels, pages)
    ensures forall f :: BitmapsOwn(k, f) ==> !InBitmap(HeapBitmapPage(k), f)
  {
    hide BootReady, FreePages, HeapBitmapPage, FreeAtStart;
  }

  lemma FreeAfterInitIsApart(k: Start, levels: map<nat, nat>, pages: set<nat>, f: nat)
    requires KernelReady(k, levels, pages)
    requires var s := AfterInit(k); f in FreePages(s.busy, s.window)
    ensures UsablePage(k.entries, f) && f != 0 && !BitmapsOwn(k, f)
    ensures !InBitmap(HeapBitmapPage(k), f)
  {
    LiesWell(k, levels, pages);
    InitTakesOnePage(k, levels, pages);
    hide KernelReady, FirstBusy, HeapBitmapPage, FreePages, BusyAfterInit;
    TakenPagesAreApart(k, f);
  }

  lemma AllTablesApart(k: Start, levels0: map<nat, nat>, pages: set<nat>, m: Machine, levels: map<nat, nat>)
    requires KernelReady(k, levels0, pages) && StillSound(AfterInit(k), levels0, m, levels, pages)
    ensures TablesApart(k, levels)
  {
    hide KernelReady, AfterInit, HeapBitmapPage, Reaches, FreePages, BitmapFrames, BitmapsOwn, Tree;
    LiesWell(k, levels0, pages);
    TreeFacts(m.vm, levels);
    forall f | f in levels ensures !BitmapsOwn(k, f) && !InBitmap(HeapBitmapPage(k), f) {
      if f !in levels0 {
        FreeAfterInitIsApart(k, levels0, pages, f);
      }
    }
  }

  /** No table entry, no cleared page and no heap store after initialisation hits the page bitmap's own pages. */
  lemma PageBitmapKept(k: Start, levels0: map<nat, nat>, pages: set<nat>, m: Machine, levels: map<nat, nat>)
    requires KernelReady(k, levels0, pages) && StillSound(AfterInit(k), levels0, m, levels, pages)
    requires m.at == HeapBitmapPage(k) && TablesApart(k, levels)
    ensures forall f :: BitmapsOwn(k, f) ==> m.vm.mem[f] == k.mem[f]
  {
    hide KernelReady, HeapBitmapPage, Tree, Reaches, BitmapsOwn, AfterInit, FreePages;
    LiesWell(k, levels0, pages);
    forall f | BitmapsOwn(k, f) ensures m.vm.mem[f] == k.mem[f] {
      if f in FreePages(AfterInit(k).busy, AfterInit(k).window) {
        FreeAfterInitIsApart(k, levels0, pages, f);
      }
      InitKeepsFrame(k, f);
    }
  }

  lemma InitKeepsFrame(k: Start, f: nat)
    requires !InBitmap(HeapBitmapPage(k), f)
    ensures AfterInit(k).mem[f] == k.mem[f] && f !in BitmapFrames(HeapBitmapPage(k))
  {
    hide HeapBitmapPage, BusyAfterInit;
    ClearedFrames(k.mem, HeapBitmapPage(k), HEAP_BITMAP_FRAMES);
  }

  lemma ByteNotTheKernels(k: Start, levels0: map<nat, nat>, pages: set<nat>, m: Machine, levels: map<nat, nat>,
                          v: u64, w: u64)
    requires KernelReady(k, levels0, pages)
    requires SeparateBytes(m, levels, FreePages(AfterInit(k).busy, AfterInit(k).window), v, w)
    ensures Translate(m.vm.mem, m.vm.root, v).Page? && Translate(m.vm.mem, m.vm.root, w).Page?
    ensures PhysicalByte(m.vm, v) == PhysicalByte(m.vm, w) <==> v == w
    ensures NotTheKernels(k, levels, PhysicalByte(m.vm, v) / PAGE_SIZE)
  {
    hide KernelReady, AfterInit, FreePages, Translate, BitmapFrames, BitmapsOwn, HeapBitmapPage;
    FreeAfterInitIsApart(k, levels0, pages, PhysicalByte(m.vm, v) / PAGE_SIZE);
  }

  /** The memory safety of kmain and the heap it leaves. From a machine as `KernelReady` asks, the bring-up
      faults nowhere; neither does any run of the heap in the mapped window; afterwards payload bytes of live
      allocations at distinct addresses are distinct physical bytes, in usable memory, outside page 0, the page
      bitmap, all sixteen frames of the heap bitmap and all page tables; the tables are sound and outside both
      bitmaps; the direct map stands; and apart from the allocator's own bits nothing was stored in the page
      bitmap's pages. */
  lemma KernelHeapIsSeparate(k: Start, levels0: map<nat, nat>, pages: set<nat>,
                             beyond: seq<u64>, ops: seq<HeapRuns.Op>, live: map<nat, nat>,
                             a: nat, v: u64, b: nat, w: u64)
    returns (levels: map<nat, nat>, m': Machine)
    requires 64 * k.words <= FRAMES && KernelReady(k, levels0, pages)
    requires |beyond| == Heap.HEAP_WORDS - MAPPED_WORDS
    requires HeapRunLeaves(MachineAfterKmain(k), beyond, ops, live)
    requires PayloadByte(live, a, v) && PayloadByte(live, b, w)
    ensures var m := MachineAfterKmain(k);
            && KmainThrough(k) == Done(m.vm)
            && MachineRun(m, ops) == Ran(m')
    ensures Tree(m'.vm, levels) && Reaches(m'.vm, levels, k.hhdm, pages) && TablesApart(k, levels)
    ensures Translate(m'.vm.mem, m'.vm.root, v).Page? && Translate(m'.vm.mem, m'.vm.root, w).Page?
    ensures PhysicalByte(m'.vm, v) == PhysicalByte(m'.vm, w) <==> v == w
    ensures NotTheKernels(k, levels, PhysicalByte(m'.vm, v) / PAGE_SIZE)
    ensures forall f :: BitmapsOwn(k, f) ==> m'.vm.mem[f] == k.mem[f]
  {
    hide KernelReady, AfterInit, BootReady, BitmapReady, BootMemory, HeapBitmapPage, HeapRunLeaves, PayloadByte;
    hide KmainThrough, MachineRun, Translate, TablesApart, BitmapFrames, BitmapsOwn, SeparateBytes;
    InitLeavesReady(k, levels0, pages);
    InitLeavesBitmap(k, levels0, pages);
    KmainRunsThrough(k, levels0, pages);
    levels, m' := PayloadsArePhysicallySeparate(AfterInit(k), levels0, k.hhdm, k.ioapic, pages, HeapBitmapPage(k),
                                                beyond, ops, live, a, v, b, w);
    hide Tree, Reaches;
    AllTablesApart(k, levels0, pages, m', levels);
    PageBitmapKept(k, levels0, pages, m', levels);
    ByteNotTheKernels(k, levels0, pages, m', levels, v, w);
  }

  // ---- A memory map that works -----------------------------------------------------------------

  /** Page 3 alone, and 256 MiB from 1 MiB on. */
  ghost function ExampleMap(): seq<Entry> {
    [Entry(3 * PAGE_SIZE, PAGE_SIZE, USABLE), Entry(0x10_0000, 0x1000_0000, USABLE)]
  }

  /** The heap bitmap goes to page 3 and runs on into pages that are not usable; the page bitmap goes to the
      large entry; all conditions of `KernelReady` hold. */
  lemma KernelReadyExample(mem: Memory)
    requires MapsOneGigabyte(mem)
    ensures IsLength(ExampleMap(), 1028) && Home(ExampleMap(), 1028, 0) == 1
    ensures KernelReady(ExampleStart(mem), map[1 := 3, 2 := 2], ExamplePages())
  {
    hide ExampleMap, BootReady, MapsOneGigabyte, UsablePage, InitialBusy;
    ExampleLength();
    ExampleStartsFree();
    var s := BeforeHeapBitmap(ExampleStart(mem));
    ExampleFreePages(s.busy);
    BootReadyExample(mem);
    ExampleStaysReady(mem, s.busy);
    ExampleLiesWell(mem);
  }

  /** There the theorem applies to the two requests at the end of kmain: their first payload bytes are apart. */
  lemma KernelHeapExample(mem: Memory, beyond: seq<u64>) returns (levels: map<nat, nat>, m': Machine)
    requires MapsOneGigabyte(mem) && |beyond| == Heap.HEAP_WORDS - MAPPED_WORDS
    ensures var k := ExampleStart(mem);
            && KmainThrough(k) == Done(MachineAfterKmain(k).vm)
            && MachineRun(MachineAfterKmain(k), TWO_REQUESTS) == Ran(m')
            && Translate(m'.vm.mem, m'.vm.root, HEAP_VIRT_START + 16).Page?
            && Translate(m'.vm.mem, m'.vm.root, HEAP_VIRT_START + 48).Page?
            && PhysicalByte(m'.vm, HEAP_VIRT_START + 16) != PhysicalByte(m'.vm, HEAP_VIRT_START + 48)
            && NotTheKernels(k, levels, PhysicalByte(m'.vm, HEAP_VIRT_START + 16) / PAGE_SIZE)
  {
    hide KernelReady, MachineAfterKmain, KmainThrough, MachineRun, Translate, PhysicalByte, NotTheKernels;
    hide HeapRunLeaves, PayloadByte, Tree, Reaches, TablesApart, ExampleMap, MapsOneGigabyte, BitmapsOwn;
    var k := ExampleStart(mem);
    KernelReadyExample(mem);
    TwoRequestsExample(MachineAfterKmain(k), beyond);
    levels, m' := KernelHeapIsSeparate(k, map[1 := 3, 2 := 2], ExamplePages(), beyond, TWO_REQUESTS,
                                       map[0 := 2, 2 := 2], 0, HEAP_VIRT_START + 16, 2, HEAP_VIRT_START + 48);
  }

  ghost function ExampleStart(mem: Memory): Start {
    Start(ExampleMap(), 1028, 0x10_0000, mem, 1, LARGE_BASE, EXAMPLE_IOAPIC)
  }

  lemma ExampleStaysReady(mem: Memory, busy: set<nat>)
    requires BootReady(ExampleVm(mem), map[1 := 3, 2 := 2], LARGE_BASE, EXAMPLE_IOAPIC, ExamplePages())
    requires {0, 1, 2} <= busy && |FreePages(busy, 1024)| >= 3 + 3 + 3 + HEAP_PAGES
    ensures BootReady(Vm(mem, busy, 1024, 1), map[1 := 3, 2 := 2], LARGE_BASE, EXAMPLE_IOAPIC, ExamplePages())
  {
    var s, levels := ExampleVm(mem), map[1 := 3, 2 := 2];
    BootReadyFacts(s, levels, LARGE_BASE, EXAMPLE_IOAPIC, ExamplePages());
    BootNeedAtMost(s, LARGE_BASE, EXAMPLE_IOAPIC);
    hide BootNeed, BootReady, FreePages, Translate, ExamplePages, Reaches;
    MoreBusyKeepsTree(s, levels, busy);
    StaysReady(s, levels, LARGE_BASE, EXAMPLE_IOAPIC, ExamplePages(), s.(busy := busy));
  }

  lemma ExampleLiesWell(mem: Memory)
    requires Take(FirstBusy(ExampleStart(mem)), 1024).addr == 3 * PAGE_SIZE
    requires forall p: nat :: 3 < p < 19 ==> !UsablePage(ExampleMap(), p)
    ensures BitmapsLieWell(ExampleStart(mem), map[1 := 3, 2 := 2], ExamplePages())
  {
    hide FirstBusy, UsablePage, ExampleMap, Take;
  }

  lemma ExampleLength()
    ensures IsLength(ExampleMap(), 1028) && Home(ExampleMap(), 1028, 0) == 1
  {
    assert ExampleMap()[1].base + ExampleMap()[1].length > 1027 * 64 * PAGE_SIZE;
    assert Home(ExampleMap(), 1028, 0) == Home(ExampleMap(), 1028, 1) == 1;
  }

  lemma ExampleStartsFree()
    ensures forall p: nat :: p < 1024 ==>
              && (p !in InitialBusy(ExampleMap(), 1028, 0x100) <==> p == 3 || 259 <= p)
              && (UsablePage(ExampleMap(), p) <==> p == 3 || 256 <= p)
  {
    forall p: nat | p < 1024 ensures UsablePage(ExampleMap(), p) <==> p == 3 || 256 <= p {
      assert PageOfEntry(ExampleMap()[0], p) <==> p == 3;
      assert PageOfEntry(ExampleMap()[1], p) <==> 256 <= p < 65792;
    }
  }

  lemma ExampleFreePages(busy: set<nat>)
    requires forall p: nat :: p < 1024 ==> (p !in busy <==> p == 3 || 259 <= p)
    ensures |FreePages(busy, 1024)| >= 765 && Take(busy, 1024).addr == 3 * PAGE_SIZE
  {
    ThreeIsLowest(busy);
    hide Heap.Range, Take;
    assert FreePages(busy, 1024) == {3} + Heap.Range(259, 765);
    RangeAndOneMore(259, 765, 3);
  }

  lemma RangeAndOneMore(start: nat, n: nat, x: nat)
    requires x < start
    ensures |{x} + Heap.Range(start, n)| == n + 1
  {
    HeapRuns.RangeSize(start, n);
  }

  lemma ThreeIsLowest(busy: set<nat>)
    requires {0, 1, 2} <= busy && 3 !in busy
    ensures Take(busy, 1024).addr == 3 * PAGE_SIZE
  {
    assert LowestFree(busy, 0, 1024) == LowestFree(busy, 1, 1024) == LowestFree(busy, 2, 1024) == 3;
  }

  /** The machine that kmain leaves there: an empty heap, and no page mapped behind its window. */
  lemma ExampleMachine(mem: Memory) returns (levels: map<nat, nat>, frames: seq<Frame>)
    requires MapsOneGigabyte(mem)
    ensures var m := MachineAfterKmain(ExampleStart(mem));
            Laid(m, levels, frames) && UsedBits(m) == {} && OnlyWindowMapped(m)
  {
    var k := ExampleStart(mem);
    var beyond: seq<u64> := seq(Heap.HEAP_WORDS - MAPPED_WORDS, _ => 0);
    hide KernelReady, MapsOneGigabyte, ExampleMap, BootReady, BitmapReady, Laid, UsedBits, OnlyWindowMapped, AfterInit;
    KernelReadyExample(mem);
    InitLeavesReady(k, map[1 := 3, 2 := 2], ExamplePages());
    InitLeavesBitmap(k, map[1 := 3, 2 := 2], ExamplePages());
    hide BootMemory, HeapBitmapPage, GrewFrom, Reaches, BootThrough;
    levels, frames := BootedMachine(AfterInit(k), map[1 := 3, 2 := 2], LARGE_BASE, EXAMPLE_IOAPIC, ExamplePages(),
                                    HeapBitmapPage(k), beyond);
    InitialHeapIsEmpty(MachineAfterKmain(k), beyond);
    ExampleUnmapped(mem);
  }

  lemma ExampleUnmapped(mem: Memory)
    requires MapsOneGigabyte(mem)
    ensures OnlyWindowMapped(MachineAfterKmain(ExampleStart(mem)))
  {
    var k := ExampleStart(mem);
    hide KernelReady, MapsOneGigabyte, ExampleMap, BootReady, AfterInit, Translate, HeapBitmapPage;
    KernelReadyExample(mem);
    InitLeavesReady(k, map[1 := 3, 2 := 2], ExamplePages());
    InitTranslatesAlike(k, map[1 := 3, 2 := 2], ExamplePages());
    var s := AfterInit(k);
    hide BootMemory, GrewFrom, Reaches, BootThrough, WindowBacked, FreshFrames;
    var levels, frames := BootMapsEverything(s, map[1 := 3, 2 := 2], LARGE_BASE, EXAMPLE_IOAPIC, ExamplePages());
    var m := MachineAfterKmain(k);
    hide MachineAfterKmain, DevicesRead;
    forall w: nat | MAPPED_WORDS <= w < Heap.HEAP_WORDS ensures Resolve(m.vm.mem, m.vm.root, WordAddress(w)) == Fault {
      ExampleWordUnmapped(mem, s, m.vm, w);
    }
  }

  lemma ExampleWordUnmapped(mem: Memory, s: Vm, s': Vm, w: nat)
    requires MapsOneGigabyte(mem) && MAPPED_WORDS <= w < Heap.HEAP_WORDS
    requires DevicesRead(s, s', LARGE_BASE, EXAMPLE_IOAPIC)
    requires forall v: u64 :: Translate(s.mem, s.root, v) == Translate(mem, 1, v)
    ensures Resolve(s'.mem, s'.root, WordAddress(w)) == Fault
  {
    hide WordAddress, InHeapWindow, LapicPage, SamePage, Index, Translate, MapsOneGigabyte;
    BehindWindowAddress(w);
    OneGigabyteReads(mem, WordAddress(w));
  }

  lemma InitTranslatesAlike(k: Start, levels: map<nat, nat>, pages: set<nat>)
    requires KernelReady(k, levels, pages)
    ensures AfterInit(k).root == k.root
    ensures forall v: u64 :: Translate(AfterInit(k).mem, k.root, v) == Translate(k.mem, k.root, v)
  {
    hide KernelReady, BootReady, AfterInit, HeapBitmapPage, Cleared, Translate, FirstBusy;
    var s, h := InitAsSteps(k, levels, pages);
    BootReadyFacts(s, levels, k.hhdm, k.ioapic, pages);
    hide Tree;
    ClearingKeepsTranslations(s, levels, h, HEAP_BITMAP_FRAMES);
  }

  lemma BehindWindowAddress(w: nat)
    requires MAPPED_WORDS <= w < Heap.HEAP_WORDS
    ensures !InHeapWindow(WordAddress(w)) && Index(WordAddress(w), 3) == 256
    ensures !SamePage(WordAddress(w), LapicPage(LARGE_BASE)) && !SamePage(WordAddress(w), EXAMPLE_IOAPIC)
  {
    WordPageNumber(w);
    assert PageNumber(LapicPage(LARGE_BASE)) == 0x9_000F_EE00;
    assert PageNumber(EXAMPLE_IOAPIC) == 0x9_000F_EC00;
    hide WordAddress, LapicPage, PageNumber;
  }

  lemma WordPageNumber(w: nat)
    requires w < Heap.HEAP_WORDS
    ensures PageNumber(WordAddress(w)) == HEAP_PAGE_NUMBER + w / 512 && Index(WordAddress(w), 3) == 256
  {
    var q, offset := 0xF_FFF8_0000_0000 + w / 512, w % 512;
    assert WordAddress(w) == q * PAGE_SIZE + 8 * offset;
    assert WordAddress(w) / PAGE_SIZE == q;
    ShiftsNest(WordAddress(w));
    assert q / 512 / 512 == 0x3_FFFE_0000;
  }

  /** There kmain's heap would fault on the second of these two requests. */
  lemma KernelHeaderFaultExample(mem: Memory)
    requires MapsOneGigabyte(mem)
    ensures MachineRun(MachineAfterKmain(ExampleStart(mem)), [HeapRuns.Alloc(FILLING), HeapRuns.Alloc(1)]) == Crashed
  {
    hide MapsOneGigabyte, MachineAfterKmain, Laid, UsedBits, OnlyWindowMapped, MachineRun, ExampleMap;
    var levels, frames := ExampleMachine(mem);
    HeaderFaultExample(MachineAfterKmain(ExampleStart(mem)), levels, frames);
  }

  // ---- A memory map that loses the heap bitmap -------------------------------------------------

  /** Page 5 alone, and 512 MiB from 4 MiB on, with the direct map at HEAP_VIRT_START. */
  ghost function OverlapMap(): seq<Entry> {
    [Entry(5 * PAGE_SIZE, PAGE_SIZE, USABLE), Entry(0x40_0000, 0x2000_0000, USABLE)]
  }

  ghost function OverlapStart(mem: Memory): Start {
    Start(OverlapMap(), 2064, 0x40_0000, mem, 600, HEAP_VIRT_START, OVERLAP_IOAPIC)
  }

  lemma OverlapLength()
    ensures IsLength(OverlapMap(), 2064) && Home(OverlapMap(), 2064, 0) == 1
  {
    assert OverlapMap()[1].base + OverlapMap()[1].length > 2063 * 64 * PAGE_SIZE;
    assert Home(OverlapMap(), 2064, 0) == Home(OverlapMap(), 2064, 1) == 1;
  }

  lemma OverlapStartsFree(mem: Memory)
    ensures forall p: nat :: p < 2048 ==> (p !in FirstBusy(OverlapStart(mem)) <==> p == 5 || 1029 <= p)
  {
    forall p: nat | p < 2048 ensures UsablePage(OverlapMap(), p) <==> p == 5 || 1024 <= p {
      assert PageOfEntry(OverlapMap()[0], p) <==> p == 5;
      assert PageOfEntry(OverlapMap()[1], p) <==> 1024 <= p < 132096;
    }
  }

  /** Initialisation puts the heap bitmap in page 5 and leaves a state that the bring-up can start from. */
  lemma OverlapInit(mem: Memory)
    requires MapsAtHeapStart(mem)
    ensures var k := OverlapStart(mem);
            && HeapBitmapPage(k) == 5 && InitThrough(k) == Done(AfterInit(k)) && AfterInit(k).window == 2048
            && 5 !in FreePages(AfterInit(k).busy, 2048)
            && BootReady(AfterInit(k), OverlapLevels(), HEAP_VIRT_START, OVERLAP_IOAPIC, OverlapPages())
  {
    var k := OverlapStart(mem);
    hide MapsAtHeapStart, FirstBusy, OverlapMap, BootReady, ClearedThrough, Cleared;
    OverlapStartsFree(mem);
    OverlapBusy(FirstBusy(k));
    OverlapClears(mem, FirstBusy(k));
    OverlapStaysReady(mem, FirstBusy(k) + {5});
  }

  lemma OverlapBusy(busy: set<nat>)
    requires forall p: nat :: p < 2048 ==> (p !in busy <==> p == 5 || 1029 <= p)
    ensures Take(busy, 2048) == Grant(5 * PAGE_SIZE, busy + {5})
    ensures AfterWipe(busy + {5}, 0x40_0000, 5) == busy + {5}
  {
  }

  lemma OverlapClears(mem: Memory, busy: set<nat>)
    requires MapsAtHeapStart(mem) && {0, 600, 601, 602, 603} <= busy
    ensures ClearedThrough(mem, 600, HEAP_VIRT_START, 5, HEAP_BITMAP_FRAMES) == Written(Cleared(mem, 5, HEAP_BITMAP_FRAMES))
  {
    var s := Vm(mem, busy, 2048, 600);
    hide MapsAtHeapStart, Tree, DirectMapped, ClearedThrough, Cleared;
    OverlapTree(mem, busy);
    OverlapDirectMapped(mem, busy);
    ClearedThroughIsPhysical(s, OverlapLevels(), HEAP_VIRT_START, FreePages({}, 2048), 5, HEAP_BITMAP_FRAMES);
  }

  lemma OverlapStaysReady(mem: Memory, busy: set<nat>)
    requires MapsAtHeapStart(mem) && forall p: nat :: p < 2048 ==> (p !in busy <==> 1029 <= p)
    ensures BootReady(Vm(Cleared(mem, 5, HEAP_BITMAP_FRAMES), busy, 2048, 600), OverlapLevels(),
                      HEAP_VIRT_START, OVERLAP_IOAPIC, OverlapPages())
  {
    hide MapsAtHeapStart, Tree, BootReady, Cleared, OverlapPages, OverlapLevels, FreePages;
    hide BootNeed;
    OverlapFreePages(busy);
    BootNeedAtMost(OverlapVm(mem), HEAP_VIRT_START, OVERLAP_IOAPIC);
    OverlapReady(mem);
    OverlapTree(mem, busy);
    OverlapTablesApart();
    ClearingStaysReady(OverlapVm(mem), OverlapLevels(), HEAP_VIRT_START, OVERLAP_IOAPIC, OverlapPages(),
                       Vm(mem, busy, 2048, 600), 5);
  }

  lemma OverlapTablesApart()
    ensures forall k :: 5 <= k < 5 + HEAP_BITMAP_FRAMES ==> k !in OverlapLevels()
  {
  }

  lemma OverlapFreePages(busy: set<nat>)
    requires forall p: nat :: p < 2048 ==> (p !in busy <==> 1029 <= p)
    ensures |FreePages(busy, 2048)| == 1019 && FreePages({}, 1024) <= busy
  {
    assert FreePages(busy, 2048) == FreePages(FreePages({}, 1029), 2048);
    FreePagesFrom(1029, 2048);
  }

  /** The heap bitmap's first 512 words are read from frame g, at addresses of page 5 of the heap window. */
  ghost predicate BitmapReadFrom(m: Machine, g: Frame) {
    forall i: nat :: i < 512 ==>
      LoadBitmap(m, i) == Word(m.vm.mem[g][i]) && Direct(m.hhdm, m.at, i) == WordAddress(512 * 5 + i)
  }

  /** On this machine kmain runs through, and afterwards kmalloc and kfree read the heap bitmap's first 512
      words from a frame of the pool that is mapped into the heap, instead of frame 5. */
  lemma HeapBitmapLostExample(mem: Memory) returns (g: Frame)
    requires MapsAtHeapStart(mem)
    ensures IsLength(OverlapMap(), 2064) && Home(OverlapMap(), 2064, 0) == 1
    ensures var k := OverlapStart(mem);
            var m := MachineAfterKmain(k);
            && KmainThrough(k) == Done(m.vm) && m.at == 5 && g != 5
            && g in FreePages(AfterInit(k).busy, 2048)
            && BitmapReadFrom(m, g)
  {
    var k := OverlapStart(mem);
    hide MapsAtHeapStart, AfterInit, BootReady, HeapBitmapPage, InitThrough, BootThrough, BootMemory, Resolve, FreePages;
    OverlapLength();
    OverlapInit(mem);
    var frames := FirstFramesLost(AfterInit(k), OverlapLevels(), OVERLAP_IOAPIC, OverlapPages());
    var m := MachineAfterKmain(k);
    g := frames[5];
    forall i: nat | i < 512
      ensures LoadBitmap(m, i) == Word(m.vm.mem[g][i]) && Direct(m.hhdm, m.at, i) == WordAddress(512 * 5 + i)
    {
      DirectWord(m.vm.mem, m.vm.root, HEAP_VIRT_START, 5, i);
    }
  }
}
