/** The memory bring-up of kmain: two device pages, then 512 heap pages, each backed by a page from
    the pool; first on physical frames, then with every access through the direct map. */
module Boot {
  import opened Words
  import opened PagePool
  import opened PageTables
  import opened MappingRuns
  import opened DirectMap
  import opened TableNeed
  import Heap

  const HEAP_VIRT_START := Heap.HEAP_VIRT_START
  const HEAP_PAGES := 512
  const LAPIC_PHYS: u64 := 0xFEE0_0000
  const DEVICE_FLAGS: u8 := 0x13
  const HEAP_FLAGS: u8 := 0x03

  function HeapPage(i: nat): u64
    requires i < HEAP_PAGES
  {
    HEAP_VIRT_START + i * PAGE_SIZE
  }

  /** The page number of HEAP_VIRT_START. */
  const HEAP_PAGE_NUMBER := 0x8_0000_0000

  predicate InHeapWindow(v: u64) {
    HEAP_PAGE_NUMBER <= PageNumber(v) < HEAP_PAGE_NUMBER + HEAP_PAGES
  }

  lemma HeapPageNumber(i: nat)
    requires i < HEAP_PAGES
    ensures PageNumber(HeapPage(i)) == HEAP_PAGE_NUMBER + i
  {
  }

  /** One round of the loop: take a page, map the next heap page to it. */
  ghost function BackHeapPage(s: Vm, i: nat): (r: Vm)
    requires s.window <= FRAMES && i < HEAP_PAGES
    ensures r.window == s.window && r.root == s.root
  {
    var g := Take(s.busy, s.window);
    MapPage(s.(busy := g.busy), HeapPage(i), g.addr, HEAP_FLAGS)
  }

  /** The first n rounds. */
  ghost function BackHeapPages(s: Vm, n: nat): (r: Vm)
    requires s.window <= FRAMES && n <= HEAP_PAGES
    ensures r.window == s.window && r.root == s.root
    decreases n
  {
    if n == 0 then s else BackHeapPage(BackHeapPages(s, n - 1), n - 1)
  }

  /** The LAPIC page, the I/O APIC page, and the heap. Sums wrap at 64 bits. */
  ghost function MapDevices(s: Vm, hhdm: u64, ioapic: u64): (r: Vm)
    requires s.window <= FRAMES
    ensures r.window == s.window && r.root == s.root
  {
    var s1 := MapPage(s, LapicPage(hhdm), LAPIC_PHYS, DEVICE_FLAGS);
    MapPage(s1, ioapic, IoapicPhys(hhdm, ioapic), DEVICE_FLAGS)
  }

  ghost function BootMemory(s: Vm, hhdm: u64, ioapic: u64): Vm
    requires s.window <= FRAMES
  {
    BackHeapPages(MapDevices(s, hhdm, ioapic), HEAP_PAGES)
  }

  // ---- What the heap loop leaves ---------------------------------------------------------------

  /** s has a sound tree and grew out of base: the tables that were added were free pages, and no frame
      but tables was written. */
  ghost predicate GrewFrom(base: Vm, levels0: map<nat, nat>, s: Vm, levels: map<nat, nat>) {
    && Tree(s, levels) && s.window == base.window && s.root == base.root
    && (forall f :: f in base.busy ==> f in s.busy)
    && (forall f :: f in levels0 ==> f in levels)
    && (forall f :: f in levels && f !in levels0 ==> f in FreePages(base.busy, base.window))
    && (forall f: nat :: f !in levels ==> s.mem[f] == base.mem[f])
  }

  lemma GrewByMapping(s: Vm, levels: map<nat, nat>, s': Vm, levels': map<nat, nat>)
    requires Grows(s, levels, s', levels', 3)
    ensures GrewFrom(s, levels, s', levels')
  {
    hide Tree, FreePages;
  }

  lemma GrewFurther(base: Vm, levels0: map<nat, nat>, s: Vm, levels: map<nat, nat>, s': Vm, levels': map<nat, nat>)
    requires GrewFrom(base, levels0, s, levels) && GrewFrom(s, levels, s', levels')
    ensures GrewFrom(base, levels0, s', levels')
  {
    assert forall f :: f in FreePages(s.busy, s.window) ==> f in FreePages(base.busy, base.window);
    hide Tree, FreePages;
  }

  /** `frames` are distinct frames that were free in `base`, are busy now and are not tables. */
  ghost predicate FreshFrames(base: Vm, s: Vm, levels: map<nat, nat>, frames: seq<Frame>) {
    && (forall i :: 0 <= i < |frames| ==>
          frames[i] in s.busy && frames[i] in FreePages(base.busy, base.window) && frames[i] !in levels)
    && (forall i, j :: 0 <= i < j < |frames| ==> frames[i] != frames[j])
  }

  /** The heap pages before |frames| are mapped, writable, to `frames`; every other page translates as
      in `base`. */
  ghost predicate WindowBacked(base: Vm, s: Vm, frames: seq<Frame>)
    requires |frames| <= HEAP_PAGES
  {
    && (forall i :: 0 <= i < |frames| ==> Translate(s.mem, s.root, HeapPage(i)) == Page(TableEntry(frames[i])))
    && (forall v: u64 :: !InHeapWindow(v) || PageNumber(v) >= HEAP_PAGE_NUMBER + |frames| ==>
          Translate(s.mem, s.root, v) == Translate(base.mem, base.root, v))
  }

  /** A sound tree that grew out of the one before, with the heap backed by fresh frames. */
  ghost predicate HeapBacked(base: Vm, levels0: map<nat, nat>, s: Vm, levels: map<nat, nat>, frames: seq<Frame>) {
    && |frames| <= HEAP_PAGES
    && GrewFrom(base, levels0, s, levels) && FreshFrames(base, s, levels, frames) && WindowBacked(base, s, frames)
  }

  /** The frame one round takes, before it is mapped. */
  lemma HeapFrame(s: Vm, levels: map<nat, nat>) returns (p: Frame, taken: Vm)
    requires Tree(s, levels) && FreePages(s.busy, s.window) != {}
    ensures p in FreePages(s.busy, s.window) && Take(s.busy, s.window) == Grant(p * PAGE_SIZE, s.busy + {p})
    ensures taken == s.(busy := s.busy + {p}) && GrewFrom(s, levels, taken, levels)
    ensures p !in levels && p !in FreePages(taken.busy, s.window)
    ensures |FreePages(taken.busy, s.window)| == |FreePages(s.busy, s.window)| - 1
    ensures LeafEntry(p * PAGE_SIZE, HEAP_FLAGS) == TableEntry(p)
  {
    hide Tree, Take, LeafEntry, TableEntry;
    TreeFacts(s, levels);
    TakeMeaning(s.busy, s.window);
    p := Take(s.busy, s.window).addr / PAGE_SIZE;
    taken := s.(busy := s.busy + {p});
    MoreBusyKeepsTree(s, levels, taken.busy);
    HeapLeaf(p);
  }

  lemma HeapLeaf(p: Frame)
    ensures LeafEntry(p * PAGE_SIZE, HEAP_FLAGS) == TableEntry(p)
  {
  }

  /** One round takes a fresh frame that is not and does not become a table, and maps only the
      asked-for page to it. */
  lemma BackHeapPageIsExact(s: Vm, levels: map<nat, nat>, n: nat) returns (levels': map<nat, nat>, p: Frame)
    requires Tree(s, levels) && n < HEAP_PAGES
    requires !Translate(s.mem, s.root, HeapPage(n)).LargePage?
    requires 1 + Missing(s.mem, s.root, 3, HeapPage(n)) <= |FreePages(s.busy, s.window)|
    ensures var s' := BackHeapPage(s, n);
            && GrewFrom(s, levels, s', levels')
            && p in FreePages(s.busy, s.window) && p in s'.busy && p !in levels'
            && MapsPage(s.mem, s'.mem, s.root, HeapPage(n), TableEntry(p))
            && |FreePages(s'.busy, s.window)|
               == |FreePages(s.busy, s.window)| - 1 - Missing(s.mem, s.root, 3, HeapPage(n))
  {
    var taken: Vm;
    p, taken := HeapFrame(s, levels);
    levels' := MapPageIsExact(taken, levels, HeapPage(n), p * PAGE_SIZE, HEAP_FLAGS);
    var s' := BackHeapPage(s, n);
    assert s' == MapPage(taken, HeapPage(n), p * PAGE_SIZE, HEAP_FLAGS);
    hide Tree, MapPage, BackHeapPage, MapsPage, HeapPage, FreePages, LeafEntry, TableEntry;
    GrewByMapping(taken, levels, s', levels');
    GrewFurther(s, levels, taken, levels, s', levels');
    assert p in taken.busy;
  }

  lemma BackOnePage(base: Vm, levels0: map<nat, nat>, s: Vm, levels: map<nat, nat>, frames: seq<Frame>)
    returns (levels': map<nat, nat>, p: Frame)
    requires HeapBacked(base, levels0, s, levels, frames) && |frames| < HEAP_PAGES
    requires !Translate(base.mem, base.root, HeapPage(|frames|)).LargePage?
    requires 1 + Missing(s.mem, s.root, 3, HeapPage(|frames|)) <= |FreePages(s.busy, s.window)|
    ensures HeapBacked(base, levels0, BackHeapPage(s, |frames|), levels', frames + [p])
    ensures |FreePages(BackHeapPage(s, |frames|).busy, s.window)|
            == |FreePages(s.busy, s.window)| - 1 - Missing(s.mem, s.root, 3, HeapPage(|frames|))
  {
    HeapPageNumber(|frames|);
    levels', p := BackHeapPageIsExact(s, levels, |frames|);
    var s' := BackHeapPage(s, |frames|);
    hide Tree, BackHeapPage, Walk, Missing, HeapPage, MapsPage, FreshFrames, WindowBacked;
    GrewFurther(base, levels0, s, levels, s', levels');
    FreshOnceMore(base, levels0, s, s', levels, levels', frames, p);
    BackedOnceMore(base, s, s', frames, p);
  }

  lemma FreshOnceMore(base: Vm, levels0: map<nat, nat>, s: Vm, s': Vm, levels: map<nat, nat>, levels': map<nat, nat>,
                      frames: seq<Frame>, p: Frame)
    requires FreshFrames(base, s, levels, frames)
    requires GrewFrom(base, levels0, s, levels) && GrewFrom(s, levels, s', levels')
    requires p in FreePages(s.busy, s.window) && p in s'.busy && p !in levels'
    ensures FreshFrames(base, s', levels', frames + [p])
  {
    hide Tree;
  }

  lemma BackedOnceMore(base: Vm, s: Vm, s': Vm, frames: seq<Frame>, p: Frame)
    requires |frames| < HEAP_PAGES && s'.root == s.root
    requires WindowBacked(base, s, frames)
    requires MapsPage(s.mem, s'.mem, s.root, HeapPage(|frames|), TableEntry(p))
    ensures WindowBacked(base, s', frames + [p])
  {
    hide Translate, TableEntry;
    var n, frames' := |frames|, frames + [p];
    HeapPageNumber(n);
    forall i | 0 <= i < |frames'| ensures Translate(s'.mem, s.root, HeapPage(i)) == Page(TableEntry(frames'[i])) {
      HeapPageNumber(i);
    }
    forall v: u64 | !InHeapWindow(v) || PageNumber(v) >= HEAP_PAGE_NUMBER + n + 1
      ensures Translate(s'.mem, s'.root, v) == Translate(base.mem, base.root, v)
    {
      assert !SamePage(v, HeapPage(n));
    }
  }

  lemma PageMeansNothingMissing(mem: Memory, t: nat, level: nat, virt: u64)
    requires level < 4 && Walk(mem, t, level, virt).Page?
    ensures Missing(mem, t, level, virt) == 0
    decreases level
  {
  }

  /** Pages of one 2 MiB region share all three tables above them. */
  lemma HeapPagesShareTables(mem: Memory, root: nat, i: nat, j: nat)
    requires i < HEAP_PAGES && j < HEAP_PAGES
    ensures Missing(mem, root, 3, HeapPage(i)) == Missing(mem, root, 3, HeapPage(j))
  {
    forall level: nat | 1 <= level < 4 ensures Index(HeapPage(i), level) == Index(HeapPage(j), level) {
    }
    MissingDependsOnUpperIndices(mem, root, 3, HeapPage(i), HeapPage(j));
  }

  lemma {:induction false} MissingDependsOnUpperIndices(mem: Memory, t: nat, level: nat, v: u64, w: u64)
    requires level < 4 && forall l: nat :: 1 <= l <= level ==> Index(v, l) == Index(w, l)
    ensures Missing(mem, t, level, v) == Missing(mem, t, level, w)
    decreases level
  {
    if level > 0 {
      MissingDependsOnUpperIndices(mem, FrameOf(mem[t][Index(v, level)]), level - 1, v, w);
    }
  }

  /** The first round needs whatever tables are missing; later rounds find them all in place. */
  lemma TablesForRound(base: Vm, s: Vm, frames: seq<Frame>, n: nat)
    requires |frames| <= HEAP_PAGES && WindowBacked(base, s, frames) && n < HEAP_PAGES
    requires frames == [] ==> s == base
    ensures Missing(s.mem, s.root, 3, HeapPage(n))
            == if frames == [] then Missing(base.mem, base.root, 3, HeapPage(0)) else 0
  {
    HeapPagesShareTables(s.mem, s.root, 0, n);
    if frames != [] {
      PageMeansNothingMissing(s.mem, s.root, 3, HeapPage(0));
    }
  }

  ghost predicate NoLargeHeapPages(s: Vm) {
    forall i: nat :: i < HEAP_PAGES ==> !Translate(s.mem, s.root, HeapPage(i)).LargePage?
  }

  /** The pages n rounds take: the tables that are missing, once, and n frames. */
  ghost function HeapNeed(base: Vm, n: nat): nat {
    if n == 0 then 0 else n + Missing(base.mem, base.root, 3, HeapPage(0))
  }

  /** n rounds of the loop: n distinct fresh frames behind the first n heap pages. */
  lemma {:induction false} HeapLoop(base: Vm, levels: map<nat, nat>, n: nat)
    returns (levels': map<nat, nat>, frames: seq<Frame>)
    requires Tree(base, levels) && n <= HEAP_PAGES && NoLargeHeapPages(base)
    requires HeapNeed(base, n) <= |FreePages(base.busy, base.window)|
    ensures |frames| == n && HeapBacked(base, levels, BackHeapPages(base, n), levels', frames)
    ensures |FreePages(BackHeapPages(base, n).busy, base.window)|
            == |FreePages(base.busy, base.window)| - HeapNeed(base, n)
  {
    assert base.window <= FRAMES;
    hide BackHeapPage, HeapNeed, HeapBacked, NoLargeHeapPages, Tree, FreePages;
    if n == 0 {
      levels', frames := levels, [];
      NothingBackedYet(base, levels);
    } else {
      NeedGrows(base, n);
      var levels1, frames1 := HeapLoop(base, levels, n - 1);
      var s := BackHeapPages(base, n - 1);
      assert n == 1 ==> s == base;
      assert BackHeapPages(base, n) == BackHeapPage(s, n - 1);
      hide BackHeapPages;
      var p;
      levels', p := NextRound(base, levels, s, levels1, frames1);
      frames := frames1 + [p];
    }
  }

  lemma NothingBackedYet(base: Vm, levels: map<nat, nat>)
    requires Tree(base, levels)
    ensures HeapBacked(base, levels, base, levels, []) && HeapNeed(base, 0) == 0
  {
    hide Tree;
  }

  lemma NeedGrows(base: Vm, n: nat)
    requires n > 0
    ensures HeapNeed(base, n - 1) < HeapNeed(base, n)
  {
  }

  /** What the next round needs is there. */
  lemma RoundHasRoom(base: Vm, levels0: map<nat, nat>, s: Vm, levels: map<nat, nat>, frames: seq<Frame>)
    requires HeapBacked(base, levels0, s, levels, frames) && |frames| < HEAP_PAGES && NoLargeHeapPages(base)
    requires frames == [] ==> s == base
    requires |FreePages(s.busy, base.window)| == |FreePages(base.busy, base.window)| - HeapNeed(base, |frames|)
    requires HeapNeed(base, |frames| + 1) <= |FreePages(base.busy, base.window)|
    ensures Tree(s, levels) && s.window == base.window
    ensures !Translate(base.mem, base.root, HeapPage(|frames|)).LargePage?
    ensures !Translate(s.mem, s.root, HeapPage(|frames|)).LargePage?
    ensures 1 + Missing(s.mem, s.root, 3, HeapPage(|frames|)) <= |FreePages(s.busy, s.window)|
  {
    hide Tree, FreePages, Translate, HeapPage, Missing, FreshFrames;
    TablesForRound(base, s, frames, |frames|);
    HeapPageNumber(|frames|);
    assert !Translate(base.mem, base.root, HeapPage(|frames|)).LargePage?;
  }

  /** Round number |frames|, when pages for it are left. */
  lemma NextRound(base: Vm, levels0: map<nat, nat>, s: Vm, levels: map<nat, nat>, frames: seq<Frame>)
    returns (levels': map<nat, nat>, p: Frame)
    requires HeapBacked(base, levels0, s, levels, frames) && |frames| < HEAP_PAGES && NoLargeHeapPages(base)
    requires frames == [] ==> s == base
    requires |FreePages(s.busy, base.window)| == |FreePages(base.busy, base.window)| - HeapNeed(base, |frames|)
    requires HeapNeed(base, |frames| + 1) <= |FreePages(base.busy, base.window)|
    ensures HeapBacked(base, levels0, BackHeapPage(s, |frames|), levels', frames + [p])
    ensures |FreePages(BackHeapPage(s, |frames|).busy, base.window)|
            == |FreePages(base.busy, base.window)| - HeapNeed(base, |frames| + 1)
  {
    TablesForRound(base, s, frames, |frames|) by {
      hide Tree;
    }
    hide HeapBacked, NoLargeHeapPages, FreePages, BackHeapPage, HeapPage, Translate, Tree;
    RoundHasRoom(base, levels0, s, levels, frames);
    levels', p := BackOnePage(base, levels0, s, levels, frames);
  }

  // ---- The whole bring-up ----------------------------------------------------------------------

  function LapicPage(hhdm: u64): u64 {
    (hhdm + LAPIC_PHYS) % TWO_64
  }

  function IoapicPhys(hhdm: u64, ioapic: u64): u64 {
    (ioapic - hhdm) % TWO_64
  }

  /** The pages the bring-up takes: the tables missing for the two device pages and for the heap window, each
      counted once where their paths run together, and the heap pages themselves. */
  ghost function BootNeed(s: Vm, hhdm: u64, ioapic: u64): nat {
    Missing(s.mem, s.root, 3, LapicPage(hhdm))
    + Min(Missing(s.mem, s.root, 3, ioapic), Part(LapicPage(hhdm), ioapic))
    + Min(Min(Missing(s.mem, s.root, 3, HeapPage(0)), Part(LapicPage(hhdm), HeapPage(0))), Part(ioapic, HeapPage(0)))
    + HEAP_PAGES
  }

  /** Never more than three tables for each. */
  lemma BootNeedAtMost(s: Vm, hhdm: u64, ioapic: u64)
    ensures BootNeed(s, hhdm, ioapic) <= 3 + 3 + 3 + HEAP_PAGES
  {
  }

  /** None of these pages is reached through an address of the heap window. */
  ghost predicate OffHeapWindow(hhdm: u64, pages: set<nat>) {
    forall f :: f in pages ==> !InHeapWindow(Direct(hhdm, f, 0))
  }

  /** What kmain needs of the state it starts from: a sound tree; a direct map that reaches its tables,
      the free pages and whatever else is in `pages`; no large page where kmain maps; the two device
      pages and the heap window apart from each other and from the direct map of `pages`; and a free page
      for each that the bring-up takes. */
  ghost predicate BootReady(s: Vm, levels: map<nat, nat>, hhdm: u64, ioapic: u64, pages: set<nat>) {
    && Tree(s, levels) && Reaches(s, levels, hhdm, pages)
    && BootNeed(s, hhdm, ioapic) <= |FreePages(s.busy, s.window)|
    && ApartForBoot(hhdm, ioapic, pages)
    && !Translate(s.mem, s.root, LapicPage(hhdm)).LargePage?
    && !Translate(s.mem, s.root, ioapic).LargePage?
    && NoLargeHeapPages(s)
  }

  ghost predicate ApartForBoot(hhdm: u64, ioapic: u64, pages: set<nat>) {
    && !SamePage(LapicPage(hhdm), ioapic) && !InHeapWindow(LapicPage(hhdm)) && !InHeapWindow(ioapic)
    && OffDirectMap(hhdm, pages, LapicPage(hhdm)) && OffDirectMap(hhdm, pages, ioapic)
    && OffHeapWindow(hhdm, pages)
  }

  /** The two device pages read as set, and pages outside the two (and outside the heap window, if it
      has been mapped as well) as before. */
  ghost predicate DevicesRead(s: Vm, s': Vm, hhdm: u64, ioapic: u64) {
    && Translate(s'.mem, s'.root, LapicPage(hhdm)) == Page(LeafEntry(LAPIC_PHYS, DEVICE_FLAGS))
    && Translate(s'.mem, s'.root, ioapic) == Page(LeafEntry(IoapicPhys(hhdm, ioapic), DEVICE_FLAGS))
    && (forall v: u64 :: !SamePage(v, LapicPage(hhdm)) && !SamePage(v, ioapic) && !InHeapWindow(v) ==>
          Translate(s'.mem, s'.root, v) == Translate(s.mem, s.root, v))
  }

  // ---- The bring-up through the direct map -----------------------------------------------------

  ghost function DevicesThrough(s: Vm, hhdm: u64, ioapic: u64): (r: Outcome)
    requires s.window <= FRAMES
    ensures r.Done? ==> r.s.window == s.window && r.s.root == s.root
  {
    match MapPageThrough(s, hhdm, LapicPage(hhdm), LAPIC_PHYS, DEVICE_FLAGS)
    case Halted => Halted
    case Done(s1) => MapPageThrough(s1, hhdm, ioapic, IoapicPhys(hhdm, ioapic), DEVICE_FLAGS)
  }

  ghost function BackThrough(s: Vm, hhdm: u64, i: nat): (r: Outcome)
    requires s.window <= FRAMES && i < HEAP_PAGES
    ensures r.Done? ==> r.s.window == s.window && r.s.root == s.root
  {
    var g := Take(s.busy, s.window);
    MapPageThrough(s.(busy := g.busy), hhdm, HeapPage(i), g.addr, HEAP_FLAGS)
  }

  ghost function BackAllThrough(s: Vm, hhdm: u64, n: nat): (r: Outcome)
    requires s.window <= FRAMES && n <= HEAP_PAGES
    ensures r.Done? ==> r.s.window == s.window && r.s.root == s.root
    decreases n
  {
    if n == 0 then Done(s)
    else
      match BackAllThrough(s, hhdm, n - 1)
      case Halted => Halted
      case Done(s1) => BackThrough(s1, hhdm, n - 1)
  }

  ghost function BootThrough(s: Vm, hhdm: u64, ioapic: u64): Outcome
    requires s.window <= FRAMES
  {
    match DevicesThrough(s, hhdm, ioapic)
    case Halted => Halted
    case Done(s1) => BackAllThrough(s1, hhdm, HEAP_PAGES)
  }

  /** Two pages, one after the other, and what a third then lacks. */
  lemma MapTwoPages(s: Vm, levels: map<nat, nat>, hhdm: u64, pages: set<nat>,
                    v1: u64, phys1: u64, v2: u64, phys2: u64, flags: u8, w: u64)
    returns (levels': map<nat, nat>)
    requires Tree(s, levels) && Reaches(s, levels, hhdm, pages) && !SamePage(v1, v2)
    requires Missing(s.mem, s.root, 3, v1) + Min(Missing(s.mem, s.root, 3, v2), Part(v1, v2))
             <= |FreePages(s.busy, s.window)|
    requires OffDirectMap(hhdm, pages, v1) && OffDirectMap(hhdm, pages, v2)
    requires !Translate(s.mem, s.root, v1).LargePage? && !Translate(s.mem, s.root, v2).LargePage?
    requires !Translate(s.mem, s.root, w).LargePage?
    ensures var s1 := MapPage(s, v1, phys1, flags);
            var s2 := MapPage(s1, v2, phys2, flags);
            && MapPageThrough(s, hhdm, v1, phys1, flags) == Done(s1)
            && MapPageThrough(s1, hhdm, v2, phys2, flags) == Done(s2)
            && GrewFrom(s, levels, s2, levels') && Reaches(s2, levels', hhdm, pages)
            && |FreePages(s2.busy, s.window)|
               == |FreePages(s.busy, s.window)| - Missing(s.mem, s.root, 3, v1)
                  - Min(Missing(s.mem, s.root, 3, v2), Part(v1, v2))
            && MapsPage(s.mem, s1.mem, s.root, v1, LeafEntry(phys1, flags))
            && MapsPage(s1.mem, s2.mem, s.root, v2, LeafEntry(phys2, flags))
            && Missing(s2.mem, s.root, 3, w) == Min(Min(Missing(s.mem, s.root, 3, w), Part(v1, w)), Part(v2, w))
  {
    hide Tree, Reaches, OffDirectMap, FreePages, Translate, MapPage, MapPageThrough, MapsPage, LeafEntry, SamePage, Part;
    TreeFacts(s, levels);
    var levels1 := MapPageThroughIsExact(s, levels, hhdm, pages, v1, phys1, flags);
    var s1 := MapPage(s, v1, phys1, flags);
    MappedPageReads(s.mem, s1.mem, s.root, v1, LeafEntry(phys1, flags), v2);
    MappedPageReads(s.mem, s1.mem, s.root, v1, LeafEntry(phys1, flags), w);
    MissingAfterMapping(s, levels, v1, phys1, flags, v2);
    MissingAfterMapping(s, levels, v1, phys1, flags, w);
    levels' := MapPageThroughIsExact(s1, levels1, hhdm, pages, v2, phys2, flags);
    MissingAfterMapping(s1, levels1, v2, phys2, flags, w);
    GrewByMapping(s, levels, s1, levels1);
    GrewByMapping(s1, levels1, MapPage(s1, v2, phys2, flags), levels');
    GrewFurther(s, levels, s1, levels1, MapPage(s1, v2, phys2, flags), levels');
  }

  lemma MappedPageReads(mem: Memory, mem': Memory, root: nat, virt: u64, leaf: u64, v: u64)
    requires MapsPage(mem, mem', root, virt, leaf)
    ensures Translate(mem', root, v) == if SamePage(v, virt) then Page(leaf) else Translate(mem, root, v)
  {
  }

  lemma TwoPagesRead(mem: Memory, mem1: Memory, mem2: Memory, root: nat, v1: u64, leaf1: u64, v2: u64, leaf2: u64)
    requires MapsPage(mem, mem1, root, v1, leaf1) && MapsPage(mem1, mem2, root, v2, leaf2) && !SamePage(v1, v2)
    ensures Translate(mem2, root, v1) == Page(leaf1) && Translate(mem2, root, v2) == Page(leaf2)
    ensures forall v: u64 :: !SamePage(v, v1) && !SamePage(v, v2) ==> Translate(mem2, root, v) == Translate(mem, root, v)
  {
    hide Translate;
    assert SamePage(v1, v1) && SamePage(v2, v2);
  }

  /** Both device pages are mapped through the direct map, which stays in place. */
  lemma DevicesMapped(s: Vm, levels: map<nat, nat>, hhdm: u64, ioapic: u64, pages: set<nat>)
    returns (levels': map<nat, nat>)
    requires BootReady(s, levels, hhdm, ioapic, pages)
    ensures DevicesThrough(s, hhdm, ioapic) == Done(MapDevices(s, hhdm, ioapic))
    ensures GrewFrom(s, levels, MapDevices(s, hhdm, ioapic), levels')
    ensures Reaches(MapDevices(s, hhdm, ioapic), levels', hhdm, pages)
    ensures |FreePages(MapDevices(s, hhdm, ioapic).busy, s.window)| - HeapNeed(MapDevices(s, hhdm, ioapic), HEAP_PAGES)
            == |FreePages(s.busy, s.window)| - BootNeed(s, hhdm, ioapic)
    ensures DevicesRead(s, MapDevices(s, hhdm, ioapic), hhdm, ioapic)
    ensures NoLargeHeapPages(MapDevices(s, hhdm, ioapic))
  {
    BootReadyFacts(s, levels, hhdm, ioapic, pages);
    hide BootReady, Tree, Reaches, OffDirectMap, Translate, HeapPage, Part, Missing;
    levels' := MapTwoPages(s, levels, hhdm, pages, LapicPage(hhdm), LAPIC_PHYS,
                           ioapic, IoapicPhys(hhdm, ioapic), DEVICE_FLAGS, HeapPage(0));
    hide NoLargeHeapPages;
    hide LapicPage, IoapicPhys, LeafEntry, MapPage, MapPageThrough, MapsPage, FreePages, SamePage, GrewFrom;
    var s1 := MapPage(s, LapicPage(hhdm), LAPIC_PHYS, DEVICE_FLAGS);
    TwoPagesRead(s.mem, s1.mem, MapDevices(s, hhdm, ioapic).mem, s.root,
                 LapicPage(hhdm), LeafEntry(LAPIC_PHYS, DEVICE_FLAGS),
                 ioapic, LeafEntry(IoapicPhys(hhdm, ioapic), DEVICE_FLAGS));
    HeapPagesUntouched(s, MapDevices(s, hhdm, ioapic), LapicPage(hhdm), ioapic);
  }

  lemma BootReadyFacts(s: Vm, levels: map<nat, nat>, hhdm: u64, ioapic: u64, pages: set<nat>)
    requires BootReady(s, levels, hhdm, ioapic, pages)
    ensures Tree(s, levels) && Reaches(s, levels, hhdm, pages) && DirectMapped(s, hhdm, pages) && s.window <= FRAMES
    ensures BootNeed(s, hhdm, ioapic) <= |FreePages(s.busy, s.window)|
    ensures !SamePage(LapicPage(hhdm), ioapic) && !InHeapWindow(LapicPage(hhdm)) && !InHeapWindow(ioapic)
    ensures OffDirectMap(hhdm, pages, LapicPage(hhdm)) && OffDirectMap(hhdm, pages, ioapic)
    ensures OffHeapWindow(hhdm, pages)
    ensures !Translate(s.mem, s.root, LapicPage(hhdm)).LargePage? && !Translate(s.mem, s.root, ioapic).LargePage?
    ensures NoLargeHeapPages(s)
  {
    hide DirectMapped, Translate, OffDirectMap, NoLargeHeapPages, OffHeapWindow;
  }

  lemma HeapPagesUntouched(s: Vm, s': Vm, v1: u64, v2: u64)
    requires NoLargeHeapPages(s) && !InHeapWindow(v1) && !InHeapWindow(v2) && s'.root == s.root
    requires forall v: u64 :: !SamePage(v, v1) && !SamePage(v, v2) ==>
               Translate(s'.mem, s.root, v) == Translate(s.mem, s.root, v)
    ensures NoLargeHeapPages(s')
  {
    hide Translate;
    forall i: nat | i < HEAP_PAGES ensures !Translate(s'.mem, s'.root, HeapPage(i)).LargePage? {
      HeapPageNumber(i);
      assert !SamePage(HeapPage(i), v1) && !SamePage(HeapPage(i), v2);
    }
  }

  /** The direct map survives the heap loop. */
  lemma ReachesBacked(base: Vm, levels0: map<nat, nat>, s: Vm, levels: map<nat, nat>, frames: seq<Frame>,
                      hhdm: u64, pages: set<nat>)
    requires Reaches(base, levels0, hhdm, pages) && OffHeapWindow(hhdm, pages)
    requires HeapBacked(base, levels0, s, levels, frames)
    ensures Reaches(s, levels, hhdm, pages)
  {
    assert forall f :: f in pages ==>
             Translate(s.mem, base.root, Direct(hhdm, f, 0)) == Translate(base.mem, base.root, Direct(hhdm, f, 0));
    hide Tree, Translate, Direct, FreshFrames, WindowBacked, OffHeapWindow, Reaches;
    ReachesAfter(base, levels0, hhdm, pages, s, levels);
  }

  /** One round through the direct map. */
  lemma BackThroughIsPhysical(s: Vm, levels: map<nat, nat>, hhdm: u64, pages: set<nat>, n: nat)
    requires Tree(s, levels) && Reaches(s, levels, hhdm, pages) && n < HEAP_PAGES
    requires !Translate(s.mem, s.root, HeapPage(n)).LargePage?
    requires 1 + Missing(s.mem, s.root, 3, HeapPage(n)) <= |FreePages(s.busy, s.window)|
    ensures BackThrough(s, hhdm, n) == Done(BackHeapPage(s, n))
  {
    var p, taken := HeapFrame(s, levels);
    assert BackHeapPage(s, n) == MapPage(taken, HeapPage(n), p * PAGE_SIZE, HEAP_FLAGS);
    assert BackThrough(s, hhdm, n) == MapPageThrough(taken, hhdm, HeapPage(n), p * PAGE_SIZE, HEAP_FLAGS);
    hide Tree, DirectMapped, Translate, MapPage, MapPageThrough, BackThrough, BackHeapPage, HeapPage, LeafEntry;
    assert Reaches(taken, levels, hhdm, pages) by {
      ReachesAfter(s, levels, hhdm, pages, taken, levels);
    }
    hide Reaches, FreePages;
    MapPageThroughIsPhysical(taken, levels, hhdm, pages, HeapPage(n), p * PAGE_SIZE, HEAP_FLAGS);
  }

  /** The loop through the direct map. */
  lemma {:induction false} HeapLoopThrough(base: Vm, levels: map<nat, nat>, hhdm: u64, pages: set<nat>, n: nat)
    requires Tree(base, levels) && n <= HEAP_PAGES && NoLargeHeapPages(base)
    requires Reaches(base, levels, hhdm, pages) && OffHeapWindow(hhdm, pages)
    requires HeapNeed(base, n) <= |FreePages(base.busy, base.window)|
    ensures BackAllThrough(base, hhdm, n) == Done(BackHeapPages(base, n))
  {
    hide Reaches, OffHeapWindow, BackHeapPage, BackThrough, Translate, HeapNeed, HeapBacked, NoLargeHeapPages, FreePages;
    if n > 0 {
      NeedGrows(base, n);
      HeapLoopThrough(base, levels, hhdm, pages, n - 1);
      var levels1, frames := HeapLoop(base, levels, n - 1);
      var s := BackHeapPages(base, n - 1);
      ReachesBacked(base, levels, s, levels1, frames, hhdm, pages);
      RoundHasRoom(base, levels, s, levels1, frames);
      BackThroughIsPhysical(s, levels1, hhdm, pages, n - 1);
    }
  }

  /** After the bring-up the 512 heap pages are backed by distinct frames that were free before and are
      not tables, the two device pages read back as set, and no other page has changed; no access through
      the direct map faults or goes astray on the way, and the direct map still stands. */
  lemma BootMapsEverything(s: Vm, levels: map<nat, nat>, hhdm: u64, ioapic: u64, pages: set<nat>)
    returns (levels': map<nat, nat>, frames: seq<Frame>)
    requires BootReady(s, levels, hhdm, ioapic, pages)
    ensures BootThrough(s, hhdm, ioapic) == Done(BootMemory(s, hhdm, ioapic))
    ensures Reaches(BootMemory(s, hhdm, ioapic), levels', hhdm, pages)
    ensures |frames| == HEAP_PAGES
    ensures GrewFrom(s, levels, BootMemory(s, hhdm, ioapic), levels')
    ensures FreshFrames(s, BootMemory(s, hhdm, ioapic), levels', frames)
    ensures WindowBacked(MapDevices(s, hhdm, ioapic), BootMemory(s, hhdm, ioapic), frames)
    ensures DevicesRead(s, BootMemory(s, hhdm, ioapic), hhdm, ioapic)
    ensures |FreePages(BootMemory(s, hhdm, ioapic).busy, s.window)|
            == |FreePages(s.busy, s.window)| - BootNeed(s, hhdm, ioapic)
  {
    BootReadyFacts(s, levels, hhdm, ioapic, pages);
    hide MapPage, MapDevices, DevicesThrough, BackHeapPages, BackAllThrough, Tree, Reaches, Translate, FreePages;
    hide BootReady, OffDirectMap, OffHeapWindow, WindowBacked, FreshFrames, NoLargeHeapPages, BootNeed, HeapNeed;
    var levels1 := DevicesMapped(s, levels, hhdm, ioapic, pages);
    var base, s' := MapDevices(s, hhdm, ioapic), BootMemory(s, hhdm, ioapic);
    levels', frames := HeapLoop(base, levels1, HEAP_PAGES);
    HeapLoopThrough(base, levels1, hhdm, pages, HEAP_PAGES);
    ReachesBacked(base, levels1, s', levels', frames, hhdm, pages);
    GrewFurther(s, levels, base, levels1, s', levels');
    FreshSince(s, levels, base, levels1, s', levels', frames);
    DevicesStillRead(s, base, s', frames, hhdm, ioapic);
  }

  lemma FreshSince(s: Vm, levels: map<nat, nat>, base: Vm, levels1: map<nat, nat>, s': Vm, levels': map<nat, nat>,
                   frames: seq<Frame>)
    requires GrewFrom(s, levels, base, levels1) && FreshFrames(base, s', levels', frames)
    ensures FreshFrames(s, s', levels', frames)
  {
    hide Tree;
  }

  lemma DevicesStillRead(s: Vm, base: Vm, s': Vm, frames: seq<Frame>, hhdm: u64, ioapic: u64)
    requires |frames| <= HEAP_PAGES && WindowBacked(base, s', frames) && DevicesRead(s, base, hhdm, ioapic)
    requires !InHeapWindow(LapicPage(hhdm)) && !InHeapWindow(ioapic)
    ensures DevicesRead(s, s', hhdm, ioapic)
  {
    hide Translate, LapicPage, IoapicPhys, LeafEntry, InHeapWindow;
  }

  // ---- The bring-up in numbers -----------------------------------------------------------------

  /** The local APIC's registers, and the I/O APIC's at physical address a, are mapped at their addresses in the
      direct map: present, writable and uncached, each to the frame it lies in. */
  ghost predicate DevicesMappedAt(s: Vm, hhdm: u64, a: nat) {
    && Translate(s.mem, s.root, (hhdm + 0xFEE0_0000) % 0x1_0000_0000_0000_0000) == Page(0xFEE0_0013)
    && Translate(s.mem, s.root, (a + hhdm) % 0x1_0000_0000_0000_0000).Page?
    && Translate(s.mem, s.root, (a + hhdm) % 0x1_0000_0000_0000_0000).entry == a / 4096 * 4096 + 0x13
  }

  /** What the walk of the MADT leaves: the address in the direct map of physical address a. */
  ghost predicate IoapicAt(ioapic: u64, hhdm: u64, a: nat) {
    a < 0x10_0000_0000_0000 && ioapic == (a + hhdm) % 0x1_0000_0000_0000_0000
  }

  /** So accesses there reach those frames. */
  ghost predicate DevicesReached(s: Vm, hhdm: u64, a: nat) {
    && Resolve(s.mem, s.root, (hhdm + 0xFEE0_0000) % 0x1_0000_0000_0000_0000) == Frame(0xFEE00)
    && Resolve(s.mem, s.root, (a + hhdm) % 0x1_0000_0000_0000_0000) == Frame(a / 4096)
  }

  /** The 2 MiB from 0xFFFF_8000_0000_0000 on are present and writable, page by page, in these frames, which are
      distinct and were free. */
  ghost predicate HeapMappedTo(s: Vm, s': Vm, frames: seq<nat>) {
    && |frames| == 512
    && (forall i :: 0 <= i < 512 ==>
          && frames[i] in FreePages(s.busy, s.window)
          && Translate(s'.mem, s'.root, 0xFFFF_8000_0000_0000 + 4096 * i).Page?
          && Translate(s'.mem, s'.root, 0xFFFF_8000_0000_0000 + 4096 * i).entry == 4096 * frames[i] + 3)
    && (forall i, j :: 0 <= i < j < 512 ==> frames[i] != frames[j])
  }

  /** Addresses in none of these pages, told apart by bits 47-12, translate as before. */
  ghost predicate OthersAsBefore(s: Vm, s': Vm, hhdm: u64, a: nat) {
    forall v: u64 ::
      && v / 4096 % 0x10_0000_0000 != (hhdm + 0xFEE0_0000) % 0x1_0000_0000_0000_0000 / 4096 % 0x10_0000_0000
      && v / 4096 % 0x10_0000_0000 != (a + hhdm) % 0x1_0000_0000_0000_0000 / 4096 % 0x10_0000_0000
      && !(0x8_0000_0000 <= v / 4096 % 0x10_0000_0000 < 0x8_0000_0200) ==>
        Translate(s'.mem, s'.root, v) == Translate(s.mem, s.root, v)
  }

  /** What the bring-up is for. */
  ghost predicate BroughtUp(s: Vm, s': Vm, hhdm: u64, a: nat) {
    && DevicesMappedAt(s', hhdm, a) && DevicesReached(s', hhdm, a) && OthersAsBefore(s, s', hhdm, a)
    && exists frames :: HeapMappedTo(s, s', frames)
  }

  lemma DeviceEntries(s: Vm, s': Vm, hhdm: u64, ioapic: u64, a: nat)
    requires DevicesRead(s, s', hhdm, ioapic)
    requires IoapicAt(ioapic, hhdm, a)
    ensures DevicesMappedAt(s', hhdm, a) && DevicesReached(s', hhdm, a) && OthersAsBefore(s, s', hhdm, a)
  {
    DeviceNumbers(hhdm, ioapic, a);
    hide Translate, LeafEntry, IoapicPhys, InHeapWindow, SamePage;
    OtherAddresses(s, s', hhdm, ioapic, a);
    hide OthersAsBefore, LapicPage;
    assert Translate(s'.mem, s'.root, ioapic) == Page(a / 4096 * 4096 + 0x13);
    assert Translate(s'.mem, s'.root, (hhdm + 0xFEE0_0000) % 0x1_0000_0000_0000_0000) == Page(0xFEE0_0013);
  }

  lemma DeviceNumbers(hhdm: u64, ioapic: u64, a: nat)
    requires IoapicAt(ioapic, hhdm, a)
    ensures LapicPage(hhdm) == (hhdm + 0xFEE0_0000) % 0x1_0000_0000_0000_0000
    ensures LeafEntry(LAPIC_PHYS, DEVICE_FLAGS) == 0xFEE0_0013
    ensures LeafEntry(IoapicPhys(hhdm, ioapic), DEVICE_FLAGS) == a / 4096 * 4096 + 0x13
    ensures FrameOf(0xFEE0_0013) == 0xFEE00 && FrameOf(a / 4096 * 4096 + 0x13) == a / 4096
  {
    assert IoapicPhys(hhdm, ioapic) == a;
  }

  lemma OtherAddresses(s: Vm, s': Vm, hhdm: u64, ioapic: u64, a: nat)
    requires DevicesRead(s, s', hhdm, ioapic) && IoapicAt(ioapic, hhdm, a)
    ensures OthersAsBefore(s, s', hhdm, a)
  {
    hide Translate, LeafEntry, IoapicPhys;
  }

  lemma HeapEntries(s: Vm, base: Vm, s': Vm, levels': map<nat, nat>, frames: seq<Frame>)
    requires |frames| == HEAP_PAGES && FreshFrames(s, s', levels', frames) && WindowBacked(base, s', frames)
    ensures HeapMappedTo(s, s', frames)
  {
    hide Translate, FreePages;
    var numbers: seq<nat> := frames;
    forall i | 0 <= i < 512
      ensures Translate(s'.mem, s'.root, 0xFFFF_8000_0000_0000 + 4096 * i).Page?
      ensures Translate(s'.mem, s'.root, 0xFFFF_8000_0000_0000 + 4096 * i).entry == 4096 * numbers[i] + 3
    {
      assert HeapPage(i) == 0xFFFF_8000_0000_0000 + 4096 * i;
      assert Translate(s'.mem, s'.root, HeapPage(i)) == Page(TableEntry(frames[i]));
    }
    assert forall i :: 0 <= i < 512 ==> numbers[i] in FreePages(s.busy, s.window);
    assert forall i, j :: 0 <= i < j < 512 ==> numbers[i] != numbers[j];
  }

  /** The bring-up does that. */
  lemma BootBringsUp(s: Vm, levels: map<nat, nat>, hhdm: u64, ioapic: u64, pages: set<nat>, a: nat)
    requires BootReady(s, levels, hhdm, ioapic, pages) && IoapicAt(ioapic, hhdm, a)
    ensures BootThrough(s, hhdm, ioapic) == Done(BootMemory(s, hhdm, ioapic))
    ensures BroughtUp(s, BootMemory(s, hhdm, ioapic), hhdm, a)
  {
    BootReadyFacts(s, levels, hhdm, ioapic, pages);
    hide BootReady, BootMemory, BootThrough, Translate, FreePages, InHeapWindow, GrewFrom, Reaches;
    var levels', frames := BootMapsEverything(s, levels, hhdm, ioapic, pages);
    var base, s' := MapDevices(s, hhdm, ioapic), BootMemory(s, hhdm, ioapic);
    hide MapDevices;
    DeviceEntries(s, s', hhdm, ioapic, a);
    HeapEntries(s, base, s', levels', frames);
    hide DevicesMappedAt, DevicesReached, OthersAsBefore, HeapMappedTo, DevicesRead, WindowBacked, FreshFrames;
  }
}
