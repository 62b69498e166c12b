/** What the bring-up needs, exactly: the pages without which the heap loop fails, where its window must
    not lie, and a machine that has all of it. */
module BootLimits {
  import opened Words
  import opened PagePool
  import opened PageTables
  import opened MappingRuns
  import opened DirectMap
  import opened TableNeed
  import opened Boot
  import opened HeapWindow

  // ---- Too few pages ---------------------------------------------------------------------------

  /** Nothing is free any more, and heap page k is mapped to frame 0. */
  ghost predicate Starved(s: Vm, levels: map<nat, nat>, k: nat)
    requires k < HEAP_PAGES
  {
    && Tree(s, levels) && FreePages(s.busy, s.window) == {} && NoLargeHeapPages(s)
    && Translate(s.mem, s.root, HeapPage(k)) == Page(TableEntry(0))
  }

  /** kmain does not look at the 0 it gets and maps the next heap page to frame 0. */
  lemma RoundWithoutPages(s: Vm, levels: map<nat, nat>, n: nat) returns (levels': map<nat, nat>)
    requires Tree(s, levels) && FreePages(s.busy, s.window) == {} && n < HEAP_PAGES && NoLargeHeapPages(s)
    requires Missing(s.mem, s.root, 3, HeapPage(n)) == 0
    ensures Starved(BackHeapPage(s, n), levels', n)
    ensures MapsPage(s.mem, BackHeapPage(s, n).mem, s.root, HeapPage(n), TableEntry(0))
  {
    assert !Translate(s.mem, s.root, HeapPage(n)).LargePage?;
    FrameZeroTaken(s, n) by {
      hide Missing, Translate;
    }
    hide NoLargeHeapPages, BackHeapPage, HeapPage, MapPage, MapsPage, LeafEntry, TableEntry;
    levels' := MapPageIsExact(s, levels, HeapPage(n), 0, HEAP_FLAGS);
    StillNoLargePages(s, BackHeapPage(s, n), HeapPage(n), TableEntry(0));
  }

  lemma FrameZeroTaken(s: Vm, n: nat)
    requires s.window <= FRAMES && 0 in s.busy && FreePages(s.busy, s.window) == {} && n < HEAP_PAGES
    ensures BackHeapPage(s, n) == MapPage(s, HeapPage(n), 0, HEAP_FLAGS)
    ensures LeafEntry(0, HEAP_FLAGS) == TableEntry(0)
  {
    TakeMeaning(s.busy, s.window);
    hide MapPage;
  }

  lemma StillNoLargePages(s: Vm, s': Vm, virt: u64, leaf: u64)
    requires NoLargeHeapPages(s) && s'.root == s.root && MapsPage(s.mem, s'.mem, s.root, virt, leaf)
    ensures NoLargeHeapPages(s') && Translate(s'.mem, s.root, virt) == Page(leaf)
  {
    hide Translate;
    assert SamePage(virt, virt);
  }

  /** Once starved the loop stays so, and the page mapped to frame 0 keeps it. */
  lemma {:induction false} StarvedStays(base: Vm, s: Vm, levels: map<nat, nat>, k: nat, m: nat, n: nat)
    returns (levels': map<nat, nat>)
    requires base.window <= FRAMES && k < m <= n <= HEAP_PAGES
    requires s == BackHeapPages(base, m) && Starved(s, levels, k)
    ensures Starved(BackHeapPages(base, n), levels', k)
    decreases n
  {
    hide Starved, BackHeapPage;
    if m == n {
      levels' := levels;
    } else {
      var levels1 := StarvedStays(base, s, levels, k, m, n - 1);
      var s1 := BackHeapPages(base, n - 1);
      assert BackHeapPages(base, n) == BackHeapPage(s1, n - 1);
      hide BackHeapPages;
      levels' := StarvedRound(s1, levels1, k, n - 1);
    }
  }

  lemma StarvedRound(s: Vm, levels: map<nat, nat>, k: nat, n: nat) returns (levels': map<nat, nat>)
    requires k < n < HEAP_PAGES && Starved(s, levels, k)
    ensures s.window <= FRAMES && Starved(BackHeapPage(s, n), levels', k)
  {
    HeapPagesShareTables(s.mem, s.root, k, n);
    PageMeansNothingMissing(s.mem, s.root, 3, HeapPage(k));
    HeapPageNumber(k);
    HeapPageNumber(n);
    hide HeapPage, Walk, Missing, BackHeapPage, NoLargeHeapPages, Tree, FreePages;
    levels' := RoundWithoutPages(s, levels, n);
  }

  /** If the pool runs dry between two rounds, the next round takes frame 0. */
  lemma DryBetweenRounds(base: Vm, levels: map<nat, nat>, k: nat, n: nat) returns (levels': map<nat, nat>)
    requires Tree(base, levels) && k < n <= HEAP_PAGES && NoLargeHeapPages(base)
    requires |FreePages(base.busy, base.window)| == HeapNeed(base, k)
    requires k == 0 ==> Missing(base.mem, base.root, 3, HeapPage(0)) == 0
    ensures Starved(BackHeapPages(base, n), levels', k)
  {
    hide BackHeapPage, HeapNeed, Missing, Starved, NoLargeHeapPages, Tree, FreePages, MapsPage;
    var levels1 := DryState(base, levels, k);
    var s := BackHeapPages(base, k);
    var levels2 := RoundWithoutPages(s, levels1, k);
    var s1 := BackHeapPages(base, k + 1);
    assert s1 == BackHeapPage(s, k);
    levels' := StarvedStays(base, s1, levels2, k, k + 1, n);
  }

  /** k rounds later the tables are in place and nothing is free. */
  lemma DryState(base: Vm, levels: map<nat, nat>, k: nat) returns (levels1: map<nat, nat>)
    requires Tree(base, levels) && k < HEAP_PAGES && NoLargeHeapPages(base)
    requires |FreePages(base.busy, base.window)| == HeapNeed(base, k)
    requires k == 0 ==> Missing(base.mem, base.root, 3, HeapPage(0)) == 0
    ensures base.window <= FRAMES
    ensures var s := BackHeapPages(base, k);
            && Tree(s, levels1) && FreePages(s.busy, s.window) == {} && NoLargeHeapPages(s)
            && Missing(s.mem, s.root, 3, HeapPage(k)) == 0
  {
    assert base.window <= FRAMES;
    var frames;
    levels1, frames := HeapLoop(base, levels, k);
    var s := BackHeapPages(base, k);
    assert k == 0 ==> s == base;
    hide BackHeapPages, HeapNeed, Missing, HeapPage, Tree, FreePages, FreshFrames, WindowBacked, NoLargeHeapPages;
    TablesForRound(base, s, frames, k);
    NoLargePagesBacked(base, levels, s, levels1, frames);
  }

  lemma NoLargePagesBacked(base: Vm, levels0: map<nat, nat>, s: Vm, levels: map<nat, nat>, frames: seq<Frame>)
    requires HeapBacked(base, levels0, s, levels, frames) && NoLargeHeapPages(base)
    ensures NoLargeHeapPages(s)
  {
    hide Translate, Tree, FreshFrames, TableEntry;
    forall i: nat | i < HEAP_PAGES ensures !Translate(s.mem, s.root, HeapPage(i)).LargePage? {
      HeapPageNumber(i);
    }
  }

  /** The path to the heap window passes through frame 0. */
  ghost predicate Broken(s: Vm) {
    && 0 in s.busy && FreePages(s.busy, s.window) == {} && s.root != 0
    && HitsZero(s.mem, s.root, 3, HeapPage(0))
  }

  /** If the pool runs dry inside the first round, the window's tables are frame 0. */
  lemma DryInFirstRound(base: Vm, levels: map<nat, nat>)
    requires Tree(base, levels) && NoLargeHeapPages(base)
    requires Missing(base.mem, base.root, 3, HeapPage(0)) > 0
    requires |FreePages(base.busy, base.window)| <= Missing(base.mem, base.root, 3, HeapPage(0))
    ensures Broken(BackHeapPage(base, 0))
  {
    assert !Translate(base.mem, base.root, HeapPage(0)).LargePage?;
    var taken := base.(busy := Take(base.busy, base.window).busy);
    TakeMeaning(base.busy, base.window);
    assert Tree(taken, levels) && Missing(taken.mem, taken.root, 3, HeapPage(0)) > |FreePages(taken.busy, taken.window)|;
    var leaf := LeafEntry(Take(base.busy, base.window).addr, HEAP_FLAGS);
    assert BackHeapPage(base, 0) == MapFrom(taken, base.root, 3, HeapPage(0), leaf);
    hide HeapPage, FreePages, Missing, Walk, BackHeapPage;
    ExhaustionHitsZero(taken, levels, taken.root, 3, HeapPage(0), leaf);
    BusyStays(taken, base.root, 3, HeapPage(0), leaf);
  }

  lemma BrokenRound(s: Vm, n: nat)
    requires s.window <= FRAMES && n < HEAP_PAGES && Broken(s)
    ensures Broken(BackHeapPage(s, n))
  {
    FrameZeroTaken(s, n);
    ExhaustedWrites(s, s.root, 3, HeapPage(n));
    var s' := BackHeapPage(s, n);
    assert s' == MapFrom(s, s.root, 3, HeapPage(n), TableEntry(0));
    hide HeapPage, BackHeapPage, MapFrom, FreePages, OnlyZeroPointers, TableEntry;
    HitsZeroStays(s.mem, s'.mem, s.root, 3, HeapPage(0));
  }

  lemma {:induction false} BrokenStays(base: Vm, n: nat)
    requires base.window <= FRAMES && 0 < n <= HEAP_PAGES && Broken(BackHeapPage(base, 0))
    ensures Broken(BackHeapPages(base, n))
    decreases n
  {
    hide Broken, BackHeapPage;
    if n > 1 {
      BrokenStays(base, n - 1);
      BrokenRound(BackHeapPages(base, n - 1), n - 1);
    } else {
      assert BackHeapPages(base, 0) == base;
    }
  }

  /** s has n heap pages backed by fresh frames, under a sound tree that grew out of that of base. */
  ghost predicate Backs(base: Vm, levels: map<nat, nat>, s: Vm, n: nat) {
    exists levels', frames: seq<Frame> :: |frames| == n && HeapBacked(base, levels, s, levels', frames)
  }

  /** The loop of kmain backs n heap pages with fresh frames under a sound tree if and only if the window is
      not in a large page and the pool holds n pages and the tables missing on the way to the window. (Of a
      2 MiB page that is the whole window it is assumed not to begin with a table on its own path.) */
  lemma HeapLoopIff(base: Vm, levels: map<nat, nat>, n: nat)
    requires Tree(base, levels) && n <= HEAP_PAGES
    requires forall e :: n == HEAP_PAGES && Translate(base.mem, base.root, HeapPage(0)) == LargePage(1, e) ==>
               LargeOffPath(base, e)
    ensures base.window <= FRAMES
    ensures Backs(base, levels, BackHeapPages(base, n), n)
            <==> n == 0 || (!Translate(base.mem, base.root, HeapPage(0)).LargePage?
                            && HeapNeed(base, n) <= |FreePages(base.busy, base.window)|)
  {
    hide Tree, Translate, HeapNeed, FreePages, HeapBacked, HeapPage, BackHeapPage;
    TreeFacts(base, levels);
    NoLargeIff(base);
    if n == 0 {
      NothingBackedYet(base, levels);
      assert HeapBacked(base, levels, BackHeapPages(base, n), levels, []);
    } else if Translate(base.mem, base.root, HeapPage(0)).LargePage? {
      forall levels', frames: seq<Frame> | |frames| == n
        ensures !HeapBacked(base, levels, BackHeapPages(base, n), levels', frames)
      {
        LargeWindowNotBacked(base, levels, n, levels', frames);
      }
    } else {
      hide NoLargeHeapPages;
      SmallWindowBackedIff(base, levels, n);
    }
  }

  lemma SmallWindowBackedIff(base: Vm, levels: map<nat, nat>, n: nat)
    requires Tree(base, levels) && n <= HEAP_PAGES && NoLargeHeapPages(base)
    ensures Backs(base, levels, BackHeapPages(base, n), n)
            <==> HeapNeed(base, n) <= |FreePages(base.busy, base.window)|
  {
    if HeapNeed(base, n) <= |FreePages(base.busy, base.window)| {
      var levels', frames := HeapLoop(base, levels, n);
    } else {
      forall levels', frames: seq<Frame> | |frames| == n
        ensures !HeapBacked(base, levels, BackHeapPages(base, n), levels', frames)
      {
        TooFewPages(base, levels, n, levels', frames);
      }
    }
  }

  lemma TooFewPages(base: Vm, levels: map<nat, nat>, n: nat, levels': map<nat, nat>, frames: seq<Frame>)
    requires Tree(base, levels) && n <= HEAP_PAGES && NoLargeHeapPages(base) && |frames| == n
    requires |FreePages(base.busy, base.window)| < HeapNeed(base, n)
    ensures !HeapBacked(base, levels, BackHeapPages(base, n), levels', frames)
  {
    var free, missing := |FreePages(base.busy, base.window)|, Missing(base.mem, base.root, 3, HeapPage(0));
    assert base.window <= FRAMES && 0 in base.busy;
    if missing > 0 && free <= missing {
      DryInFirstRound(base, levels);
      BrokenStays(base, n);
      BrokenIsNotBacked(base, levels, BackHeapPages(base, n), levels', frames);
    } else {
      var k := free - missing;
      var levels1 := DryBetweenRounds(base, levels, k, n);
      StarvedIsNotBacked(base, levels, BackHeapPages(base, n), levels', frames, levels1, k);
    }
  }

  lemma BrokenIsNotBacked(base: Vm, levels: map<nat, nat>, s: Vm, levels': map<nat, nat>, frames: seq<Frame>)
    requires Broken(s)
    ensures !HeapBacked(base, levels, s, levels', frames)
  {
    if HeapBacked(base, levels, s, levels', frames) {
      HitsZeroBreaksTree(s, levels', s.root, 3, HeapPage(0));
    }
  }

  lemma StarvedIsNotBacked(base: Vm, levels: map<nat, nat>, s: Vm, levels': map<nat, nat>, frames: seq<Frame>,
                           levels1: map<nat, nat>, k: nat)
    requires k < |frames| <= HEAP_PAGES && 0 in base.busy && Starved(s, levels1, k)
    ensures !HeapBacked(base, levels, s, levels', frames)
  {
    hide Tree, Translate, HeapPage;
    if HeapBacked(base, levels, s, levels', frames) {
      BackedFrame(base, levels, s, levels', frames, k);
    }
  }

  lemma BackedFrame(base: Vm, levels: map<nat, nat>, s: Vm, levels': map<nat, nat>, frames: seq<Frame>, k: nat)
    requires k < |frames| && HeapBacked(base, levels, s, levels', frames)
    ensures Translate(s.mem, s.root, HeapPage(k)) == Page(TableEntry(frames[k])) && frames[k] !in base.busy
    ensures TableEntry(frames[k]) == TableEntry(0) ==> frames[k] == 0
  {
    hide Tree, Translate, HeapPage;
    assert frames[k] == FrameOf(TableEntry(frames[k]));
  }

  /** `BootNeed` is exact: if the pool covers the tables for the two device pages, the bring-up backs the whole
      heap if and only if it covers `BootNeed`. */
  lemma BootNeedIsExact(s: Vm, levels: map<nat, nat>, hhdm: u64, ioapic: u64) returns (levels1: map<nat, nat>)
    requires Tree(s, levels) && !SamePage(LapicPage(hhdm), ioapic)
    requires !InHeapWindow(LapicPage(hhdm)) && !InHeapWindow(ioapic)
    requires !Translate(s.mem, s.root, LapicPage(hhdm)).LargePage? && !Translate(s.mem, s.root, ioapic).LargePage?
    requires NoLargeHeapPages(s)
    requires Missing(s.mem, s.root, 3, LapicPage(hhdm))
             + Min(Missing(s.mem, s.root, 3, ioapic), Part(LapicPage(hhdm), ioapic)) <= |FreePages(s.busy, s.window)|
    ensures s.window <= FRAMES && Tree(MapDevices(s, hhdm, ioapic), levels1)
    ensures Backs(MapDevices(s, hhdm, ioapic), levels1, BootMemory(s, hhdm, ioapic), HEAP_PAGES)
            <==> BootNeed(s, hhdm, ioapic) <= |FreePages(s.busy, s.window)|
  {
    hide Tree, Translate, FreePages, Part, HeapPage, LapicPage, LeafEntry, HeapBacked, InHeapWindow, Missing, HeapNeed;
    hide MapDevices, SamePage, BackHeapPages, NoLargeHeapPages, BootNeed, Backs;
    TreeFacts(s, levels);
    NoLargeIff(s);
    OutsideWindow(LapicPage(hhdm));
    OutsideWindow(ioapic);
    levels1 := DevicesTakeTheirShare(s, levels, hhdm, ioapic);
    var base := MapDevices(s, hhdm, ioapic);
    NoLargeIff(base);
    SmallWindowBackedIff(base, levels1, HEAP_PAGES);
  }

  lemma OutsideWindow(v: u64)
    ensures !InHeapWindow(v) ==> !SamePage(HeapPage(0), v)
  {
    HeapPageNumber(0);
  }

  lemma DevicesTakeTheirShare(s: Vm, levels: map<nat, nat>, hhdm: u64, ioapic: u64) returns (levels1: map<nat, nat>)
    requires Tree(s, levels) && !SamePage(LapicPage(hhdm), ioapic)
    requires !SamePage(HeapPage(0), LapicPage(hhdm)) && !SamePage(HeapPage(0), ioapic)
    requires !Translate(s.mem, s.root, LapicPage(hhdm)).LargePage? && !Translate(s.mem, s.root, ioapic).LargePage?
    requires !Translate(s.mem, s.root, HeapPage(0)).LargePage?
    requires Missing(s.mem, s.root, 3, LapicPage(hhdm))
             + Min(Missing(s.mem, s.root, 3, ioapic), Part(LapicPage(hhdm), ioapic)) <= |FreePages(s.busy, s.window)|
    ensures s.window <= FRAMES
    ensures var base := MapDevices(s, hhdm, ioapic);
            && Tree(base, levels1) && !Translate(base.mem, base.root, HeapPage(0)).LargePage?
            && |FreePages(base.busy, base.window)| - HeapNeed(base, HEAP_PAGES)
               == |FreePages(s.busy, s.window)| - BootNeed(s, hhdm, ioapic)
  {
    hide Tree, Translate, FreePages, MapPage, Part, HeapPage, LapicPage, IoapicPhys, LeafEntry, SamePage, Missing;
    TreeFacts(s, levels);
    var l, h := LapicPage(hhdm), HeapPage(0);
    var s1 := MapPage(s, l, LAPIC_PHYS, DEVICE_FLAGS);
    var levels2 := MapPageIsExact(s, levels, l, LAPIC_PHYS, DEVICE_FLAGS);
    MappedPageReads(s.mem, s1.mem, s.root, l, LeafEntry(LAPIC_PHYS, DEVICE_FLAGS), ioapic);
    MappedPageReads(s.mem, s1.mem, s.root, l, LeafEntry(LAPIC_PHYS, DEVICE_FLAGS), h);
    MissingAfterMapping(s, levels, l, LAPIC_PHYS, DEVICE_FLAGS, ioapic);
    MissingAfterMapping(s, levels, l, LAPIC_PHYS, DEVICE_FLAGS, h);
    hide MapsPage;
    levels1 := MapPageIsExact(s1, levels2, ioapic, IoapicPhys(hhdm, ioapic), DEVICE_FLAGS);
    var base := MapDevices(s, hhdm, ioapic);
    MappedPageReads(s1.mem, base.mem, s.root, ioapic, LeafEntry(IoapicPhys(hhdm, ioapic), DEVICE_FLAGS), h);
    MissingAfterMapping(s1, levels2, ioapic, IoapicPhys(hhdm, ioapic), DEVICE_FLAGS, h);
  }

  // ---- A machine that is ready -----------------------------------------------------------------

  const EXAMPLE_IOAPIC: u64 := LARGE_BASE + 0xFEC0_0000

  ghost function ExampleVm(mem: Memory): Vm {
    Vm(mem, {0, 1, 2}, 1024, 1)
  }

  ghost function ExamplePages(): set<nat> {
    FreePages({}, 1024)
  }

  /** Two tables, the first gigabyte of memory mapped at LARGE_BASE by one large page, 1021 free pages. */
  lemma BootReadyExample(mem: Memory)
    requires MapsOneGigabyte(mem)
    ensures BootReady(ExampleVm(mem), map[1 := 3, 2 := 2], LARGE_BASE, EXAMPLE_IOAPIC, ExamplePages())
  {
    OneGigabyteTree(mem, 1024);
    ExampleReaches(mem);
    FreePagesAboveThree(1024);
    BootNeedAtMost(ExampleVm(mem), LARGE_BASE, EXAMPLE_IOAPIC);
    hide BootNeed, Tree, Reaches, NoLargeHeapPages, ApartForBoot, Translate, LapicPage, MapsOneGigabyte;
    ExampleApart();
    ExampleNotLarge(mem);
  }

  lemma ExampleReaches(mem: Memory)
    requires MapsOneGigabyte(mem)
    ensures Reaches(ExampleVm(mem), map[1 := 3, 2 := 2], LARGE_BASE, ExamplePages())
  {
    forall f | f in ExamplePages() ensures Resolve(mem, 1, Direct(LARGE_BASE, f, 0)) == Frame(f) {
      ExampleResolves(mem, f);
    }
  }

  lemma ExampleResolves(mem: Memory, f: nat)
    requires MapsOneGigabyte(mem) && f < 1024
    ensures Resolve(mem, 1, Direct(LARGE_BASE, f, 0)) == Frame(f)
  {
    ExampleAddress(f);
    assert FrameOf(0x83) == 0;
    hide Translate, Direct, Index, MapsOneGigabyte, FrameOf, PageNumber;
    OneGigabyteReads(mem, Direct(LARGE_BASE, f, 0));
  }

  lemma ExampleAddress(f: nat)
    requires f < 1024
    ensures var v := Direct(LARGE_BASE, f, 0);
            && Index(v, 3) == 288 && Index(v, 2) == 0
            && v / PAGE_SIZE % 0x4_0000 == f && PageNumber(v) == 0x9_0000_0000 + f
  {
    DirectPage(LARGE_BASE, 0xF_FFF9_0000_0000, f);
    var v := Direct(LARGE_BASE, f, 0);
    hide Direct;
    ShiftsNest(v);
    assert v / PAGE_SIZE == 0xF_FFF9_0000_0000 + f;
    assert v / PAGE_SIZE / 512 / 512 == 0x3_FFFE_4000;
  }

  lemma ExampleApart()
    ensures ApartForBoot(LARGE_BASE, EXAMPLE_IOAPIC, ExamplePages())
  {
    forall f | f in ExamplePages() ensures PageNumber(Direct(LARGE_BASE, f, 0)) == 0x9_0000_0000 + f {
      ExampleAddress(f);
    }
    assert PageNumber(LapicPage(LARGE_BASE)) == 0x9_000F_EE00;
    assert PageNumber(EXAMPLE_IOAPIC) == 0x9_000F_EC00;
    hide Direct, LapicPage, PageNumber;
  }

  lemma ExampleNotLarge(mem: Memory)
    requires MapsOneGigabyte(mem)
    ensures !Translate(mem, 1, LapicPage(LARGE_BASE)).LargePage? && !Translate(mem, 1, EXAMPLE_IOAPIC).LargePage?
    ensures NoLargeHeapPages(ExampleVm(mem))
  {
    ExampleIndices();
    hide Translate, MapsOneGigabyte, Index, LapicPage;
    OneGigabyteReads(mem, LapicPage(LARGE_BASE));
    OneGigabyteReads(mem, EXAMPLE_IOAPIC);
    hide EXAMPLE_IOAPIC, HeapPage;
    forall i: nat | i < HEAP_PAGES ensures !Translate(mem, 1, HeapPage(i)).LargePage? {
      OneGigabyteReads(mem, HeapPage(i));
      HeapIndex(i);
    }
  }

  lemma ExampleIndices()
    ensures Index(LapicPage(LARGE_BASE), 2) == 3 && Index(EXAMPLE_IOAPIC, 2) == 3
  {
  }

  lemma HeapIndex(i: nat)
    requires i < HEAP_PAGES
    ensures Index(HeapPage(i), 3) == 256
  {
  }

  lemma {:induction false} FreePagesAboveThree(window: nat)
    requires window >= 3
    ensures |FreePages({0, 1, 2}, window)| == window - 3
  {
    if window == 3 {
      assert FreePages({0, 1, 2}, 3) == {};
    } else {
      FreePagesAboveThree(window - 1);
      assert FreePages({0, 1, 2}, window) == FreePages({0, 1, 2}, window - 1) + {window - 1};
    }
  }
}
