/** Where the heap window must not lie. HEAP_VIRT_START is a constant and the bootloader chooses the place of
    the direct map: what kmain's loop does to a direct map that overlaps the window, page by page where it
    uses 4 KiB pages, and to the window where it uses large ones. */
module HeapWindow {
  import opened Words
  import opened PagePool
  import opened PageTables
  import opened MappingRuns
  import opened DirectMap
  import opened Boot

  // ---- The direct map under the window ---------------------------------------------------------

  /** An address in the first n pages of the window. */
  predicate InFirstPages(v: u64, n: nat) {
    HEAP_PAGE_NUMBER <= PageNumber(v) < HEAP_PAGE_NUMBER + n
  }

  lemma BackedAddress(base: Vm, s: Vm, frames: seq<Frame>, v: u64)
    requires |frames| <= HEAP_PAGES && WindowBacked(base, s, frames)
    ensures if InFirstPages(v, |frames|)
            then Translate(s.mem, s.root, v) == Page(TableEntry(frames[PageNumber(v) - HEAP_PAGE_NUMBER]))
            else Translate(s.mem, s.root, v) == Translate(base.mem, base.root, v)
  {
    hide Translate, TableEntry;
    if InFirstPages(v, |frames|) {
      var i := PageNumber(v) - HEAP_PAGE_NUMBER;
      HeapPageNumber(i);
      hide HeapPage;
      SamePageTranslates(s.mem, s.root, v, HeapPage(i));
    }
  }

  /** n rounds of the loop leave the direct map of these busy pages in place if and only if none of them is
      reached through one of the first n heap pages: those now hold frames from the pool. */
  lemma LoopKeepsDirectMapIff(base: Vm, levels: map<nat, nat>, hhdm: u64, pages: set<nat>, n: nat)
    requires Tree(base, levels) && n <= HEAP_PAGES && NoLargeHeapPages(base)
    requires HeapNeed(base, n) <= |FreePages(base.busy, base.window)|
    requires DirectMapped(base, hhdm, pages) && forall f :: f in pages ==> f in base.busy
    ensures base.window <= FRAMES
    ensures DirectMapped(BackHeapPages(base, n), hhdm, pages)
            <==> forall f :: f in pages ==> !InFirstPages(Direct(hhdm, f, 0), n)
  {
    hide Tree, HeapNeed, NoLargeHeapPages, BackHeapPages, WindowBacked, DirectMapped;
    TreeFacts(base, levels);
    var levels', frames := HeapLoop(base, levels, n);
    BackedDirectMapIff(base, BackHeapPages(base, n), levels', frames, hhdm, pages) by {
      hide FreePages;
    }
  }

  lemma BackedDirectMapIff(base: Vm, s: Vm, levels: map<nat, nat>, frames: seq<Frame>, hhdm: u64, pages: set<nat>)
    requires |frames| <= HEAP_PAGES && WindowBacked(base, s, frames) && FreshFrames(base, s, levels, frames)
    requires DirectMapped(base, hhdm, pages) && forall f :: f in pages ==> f in base.busy
    ensures DirectMapped(s, hhdm, pages) <==> forall f :: f in pages ==> !InFirstPages(Direct(hhdm, f, 0), |frames|)
  {
    hide Direct, Translate, WindowBacked, InFirstPages;
    forall f | f in pages
      ensures Resolve(s.mem, s.root, Direct(hhdm, f, 0)) == Frame(f) <==> !InFirstPages(Direct(hhdm, f, 0), |frames|)
    {
      assert Resolve(base.mem, base.root, Direct(hhdm, f, 0)) == Frame(f);
      BackedAddress(base, s, frames, Direct(hhdm, f, 0));
      InWindowIndex(Direct(hhdm, f, 0), |frames|);
    }
  }

  lemma InWindowIndex(v: u64, n: nat)
    ensures InFirstPages(v, n) ==> 0 <= PageNumber(v) - HEAP_PAGE_NUMBER < n
  {
  }

  /** HEAP_VIRT_START is a constant, the direct map's place is the bootloader's choice. Where the two
      start together, frame n is reached at heap page n. */
  lemma SamePlace(f: nat, n: nat)
    requires n < HEAP_PAGES
    ensures SamePage(Direct(HEAP_VIRT_START, f, 0), HeapPage(n)) <==> f % 0x10_0000_0000 == n
    ensures PageNumber(Direct(HEAP_VIRT_START, f, 0)) == (HEAP_PAGE_NUMBER + f) % 0x10_0000_0000
  {
    HeapPageNumber(n);
    DirectPageNumber(f);
  }

  lemma DirectPageNumber(f: nat)
    ensures PageNumber(Direct(HEAP_VIRT_START, f, 0)) == (HEAP_PAGE_NUMBER + f) % 0x10_0000_0000
  {
    hide Direct, PageNumber;
    DirectPage(HEAP_VIRT_START, 0xF_FFF8_0000_0000, f);
    HeapStartPage(f);
  }

  lemma HeapStartPage(f: nat)
    ensures (0xF_FFF8_0000_0000 + f) % 0x10_0000_0000 == (HEAP_PAGE_NUMBER + f) % 0x10_0000_0000
  {
    assert 0xF_FFF8_0000_0000 == 0xFFFF * 0x10_0000_0000 + HEAP_PAGE_NUMBER;
  }

  lemma DirectPage(hhdm: u64, first: nat, f: nat)
    requires hhdm == first * PAGE_SIZE
    ensures Direct(hhdm, f, 0) / PAGE_SIZE == (first + f) % 0x10_0000_0000_0000
    ensures PageNumber(Direct(hhdm, f, 0)) == (first + f) % 0x10_0000_0000
  {
    PagesWrap(first + f);
    assert Direct(hhdm, f, 0) / PAGE_SIZE == (first + f) % 0x10_0000_0000_0000;
    LowDigits(first + f);
    hide Direct;
  }

  lemma PagesWrap(q: nat)
    ensures q * PAGE_SIZE % TWO_64 == q % 0x10_0000_0000_0000 * PAGE_SIZE
  {
  }

  lemma LowDigits(q: nat)
    ensures q % 0x10_0000_0000_0000 % 0x10_0000_0000 == q % 0x10_0000_0000
  {
  }

  /** `BootReady` then asks that no page in use lies among the first 512 frames. */
  lemma OffHeapWindowIff(pages: set<nat>)
    ensures OffHeapWindow(HEAP_VIRT_START, pages) <==> forall f :: f in pages ==> f % 0x10_0000_0000 >= HEAP_PAGES
  {
    hide Direct, InHeapWindow;
    forall f: nat ensures InHeapWindow(Direct(HEAP_VIRT_START, f, 0)) <==> f % 0x10_0000_0000 < HEAP_PAGES {
      InWindowIff(f);
    }
  }

  lemma InWindowIff(f: nat)
    ensures InHeapWindow(Direct(HEAP_VIRT_START, f, 0)) <==> f % 0x10_0000_0000 < HEAP_PAGES
  {
    DirectPageNumber(f);
    hide Direct, PageNumber;
    var r := f % 0x10_0000_0000;
    assert (HEAP_PAGE_NUMBER + f) % 0x10_0000_0000 == (HEAP_PAGE_NUMBER + r) % 0x10_0000_0000;
  }

  /** Otherwise the round for that heap page cuts the kernel off from the page, unless the frame it takes
      happens to be the same one. */
  lemma HeapOverDirectMapIff(s: Vm, levels: map<nat, nat>, pages: set<nat>, n: nat)
    requires Tree(s, levels) && n < HEAP_PAGES && !Translate(s.mem, s.root, HeapPage(n)).LargePage?
    requires 1 + Missing(s.mem, s.root, 3, HeapPage(n)) <= |FreePages(s.busy, s.window)|
    requires DirectMapped(s, HEAP_VIRT_START, pages) && n in pages && forall f :: f in pages ==> f < 0x10_0000_0000
    ensures DirectMapped(BackHeapPage(s, n), HEAP_VIRT_START, pages)
            <==> Take(s.busy, s.window).addr == n * PAGE_SIZE
  {
    assert s.window <= FRAMES;
    var p, taken := HeapFrame(s, levels);
    hide Tree, Translate, MapPage, Direct, SamePage, Missing, FreePages, DirectMapped, Take, LeafEntry, MissesTables;
    assert BackHeapPage(s, n) == MapPage(taken, HeapPage(n), p * PAGE_SIZE, HEAP_FLAGS);
    hide BackHeapPage, HeapPage;
    assert FrameOf(p * PAGE_SIZE) == p;
    hide FrameOf;
    TakingKeepsDirectMap(s, taken, pages);
    DirectMapSurvivesIff(taken, levels, HEAP_VIRT_START, pages, HeapPage(n), p * PAGE_SIZE, HEAP_FLAGS);
    OnlyPageInPlace(pages, n, p);
  }

  lemma OnlyPageInPlace(pages: set<nat>, n: nat, p: nat)
    requires n in pages && n < HEAP_PAGES && forall f :: f in pages ==> f < 0x10_0000_0000
    ensures (forall f :: f in pages && SamePage(Direct(HEAP_VIRT_START, f, 0), HeapPage(n)) ==> f == p) <==> p == n
  {
    forall f | f in pages ensures SamePage(Direct(HEAP_VIRT_START, f, 0), HeapPage(n)) <==> f == n {
      SamePlace(f, n);
    }
    hide Direct, HeapPage, SamePage;
  }

  lemma TakingKeepsDirectMap(s: Vm, taken: Vm, pages: set<nat>)
    requires taken == s.(busy := taken.busy)
    ensures DirectMapped(taken, HEAP_VIRT_START, pages) <==> DirectMapped(s, HEAP_VIRT_START, pages)
  {
  }

  /** Where window and direct map start together, the loop costs the kernel exactly the pages it uses among
      the first 512 frames, be they tables or bitmaps. */
  lemma LoopOverDirectMapIff(base: Vm, levels: map<nat, nat>, pages: set<nat>)
    requires Tree(base, levels) && NoLargeHeapPages(base)
    requires HeapNeed(base, HEAP_PAGES) <= |FreePages(base.busy, base.window)|
    requires DirectMapped(base, HEAP_VIRT_START, pages)
    requires forall f :: f in pages ==> f in base.busy && f < 0x10_0000_0000
    ensures base.window <= FRAMES
    ensures DirectMapped(BackHeapPages(base, HEAP_PAGES), HEAP_VIRT_START, pages)
            <==> forall f :: f in pages ==> f >= HEAP_PAGES
  {
    hide Tree, HeapNeed, NoLargeHeapPages, BackHeapPages, DirectMapped, Direct, InFirstPages, FreePages;
    LoopKeepsDirectMapIff(base, levels, HEAP_VIRT_START, pages, HEAP_PAGES);
    forall f | f in pages ensures InFirstPages(Direct(HEAP_VIRT_START, f, 0), HEAP_PAGES) <==> f < HEAP_PAGES {
      InWindowIff(f);
      WholeWindow(Direct(HEAP_VIRT_START, f, 0));
    }
  }

  lemma WholeWindow(v: u64)
    ensures InFirstPages(v, HEAP_PAGES) <==> InHeapWindow(v)
  {
  }

  // ---- Large pages under the window ------------------------------------------------------------

  /** All heap pages lie in the same large page or none does. */
  lemma HeapPagesShareDirectory(i: nat, j: nat)
    requires i < HEAP_PAGES && j < HEAP_PAGES
    ensures SameDirectoryEntry(HeapPage(i), HeapPage(j)) && Index(HeapPage(i), 1) == Index(HeapPage(0), 1)
  {
    SameRegion(HeapPage(i), HeapPage(j));
    SameRegion(HeapPage(i), HeapPage(0));
  }

  lemma LargeWindowTogether(s: Vm, i: nat, j: nat)
    requires i < HEAP_PAGES && j < HEAP_PAGES && Translate(s.mem, s.root, HeapPage(i)).LargePage?
    ensures Translate(s.mem, s.root, HeapPage(j)) == Translate(s.mem, s.root, HeapPage(i))
  {
    HeapPagesShareDirectory(i, j);
    hide HeapPage;
    LargePageShared(s.mem, s.root, 3, HeapPage(i), HeapPage(j));
  }

  lemma NoLargeIff(s: Vm)
    ensures NoLargeHeapPages(s) <==> !Translate(s.mem, s.root, HeapPage(0)).LargePage?
  {
    hide Translate, HeapPage;
    forall i: nat | i < HEAP_PAGES && Translate(s.mem, s.root, HeapPage(i)).LargePage?
      ensures Translate(s.mem, s.root, HeapPage(0)).LargePage?
    {
      LargeWindowTogether(s, i, 0);
    }
  }

  /** The window lies in a large page that does not begin with the kernel's own tables. */
  ghost predicate LargeWindow(s: Vm, levels: map<nat, nat>) {
    var large := Translate(s.mem, s.root, HeapPage(0));
    Tree(s, levels) && large.LargePage? && MissesTables(s.mem, levels, large, HeapPage(0))
  }

  /** The page one round takes, or frame 0, is no table. */
  lemma RoundTakesNoTable(s: Vm, levels: map<nat, nat>) returns (taken: Vm, addr: nat)
    requires Tree(s, levels)
    ensures Take(s.busy, s.window) == Grant(addr, taken.busy) && taken == s.(busy := taken.busy)
    ensures Tree(taken, levels) && FrameOf(addr) !in levels && addr < TWO_64 && s.window <= FRAMES
    ensures forall f :: f in s.busy ==> f in taken.busy
  {
    hide Tree;
    TreeFacts(s, levels);
    TakeMeaning(s.busy, s.window);
    addr := Take(s.busy, s.window).addr;
    taken := s.(busy := Take(s.busy, s.window).busy);
    MoreBusyKeepsTree(s, levels, taken.busy);
    assert addr == addr / PAGE_SIZE * PAGE_SIZE && addr / PAGE_SIZE < FRAMES;
    hide Take;
    assert FrameOf(addr) == addr / PAGE_SIZE;
  }

  lemma LargeWindowRound(s: Vm, levels: map<nat, nat>, n: nat)
    requires n < HEAP_PAGES && LargeWindow(s, levels)
    ensures s.window <= FRAMES && LargeWindow(BackHeapPage(s, n), levels)
    ensures forall v: u64 :: Translate(BackHeapPage(s, n).mem, s.root, v) == Translate(s.mem, s.root, v)
  {
    var taken, addr := RoundTakesNoTable(s, levels);
    var virt, s' := HeapPage(n), BackHeapPage(s, n);
    assert s' == MapPage(taken, virt, addr, HEAP_FLAGS);
    HeapPagesShareDirectory(n, 0);
    LargeWindowTogether(s, 0, n);
    hide Tree, BackHeapPage, Translate, HeapPage, MapPage, DataOverwritten, LeafEntry, FrameOf, Index;
    LargePageLosesRequest(taken, levels, virt, addr, HEAP_FLAGS);
    MapPageKeepsBusy(taken, virt, addr, HEAP_FLAGS);
    SameTablesSameTree(taken, levels, s');
  }

  lemma MapPageKeepsBusy(s: Vm, virt: u64, phys: u64, flags: u8)
    requires s.window <= FRAMES
    ensures s.busy <= MapPage(s, virt, phys, flags).busy
  {
    BusyStays(s, s.root, 3, virt, LeafEntry(phys, flags));
  }

  lemma SameTablesSameTree(s: Vm, levels: map<nat, nat>, s': Vm)
    requires Tree(s, levels) && s.busy <= s'.busy && s'.window == s.window && s'.root == s.root
    requires forall f :: f in levels ==> s'.mem[f] == s.mem[f]
    ensures Tree(s', levels)
  {
    var s1 := s.(mem := s'.mem);
    WritesOutsideTables(s, levels, s1);
    MoreBusyKeepsTree(s1, levels, s'.busy);
  }

  /** Where the window lies in such a large page, every request of the loop is lost: the tree stays as it is
      and no address changes its translation, so the heap's words are the data of the large page. */
  lemma {:induction false} LargeWindowLosesAll(base: Vm, levels: map<nat, nat>, n: nat)
    requires n <= HEAP_PAGES && LargeWindow(base, levels)
    ensures base.window <= FRAMES && LargeWindow(BackHeapPages(base, n), levels)
    ensures forall v: u64 :: Translate(BackHeapPages(base, n).mem, base.root, v) == Translate(base.mem, base.root, v)
    decreases n
  {
    hide BackHeapPage, Translate, MissesTables;
    TreeFacts(base, levels);
    hide Tree, LargeWindow;
    if n > 0 {
      LargeWindowLosesAll(base, levels, n - 1);
      LargeWindowRound(BackHeapPages(base, n - 1), levels, n - 1);
      assert BackHeapPages(base, n) == BackHeapPage(BackHeapPages(base, n - 1), n - 1);
    }
  }

  /** Table x lies on the path of virt. */
  ghost predicate OnPath(mem: Memory, t: nat, level: nat, virt: u64, x: nat)
    requires level < 4
    decreases level, t
  {
    var i := Index(virt, level);
    t == x || (Points(mem, t, i, level) && OnPath(mem, FrameOf(mem[t][i]), level - 1, virt, x))
  }

  lemma {:induction false} WalkOffPath(mem: Memory, mem': Memory, t: nat, level: nat, virt: u64, x: nat)
    requires level < 4 && !OnPath(mem, t, level, virt, x) && forall f: nat :: f != x ==> mem'[f] == mem[f]
    ensures Walk(mem', t, level, virt) == Walk(mem, t, level, virt) && !OnPath(mem', t, level, virt, x)
    decreases level
  {
    var i := Index(virt, level);
    if Points(mem, t, i, level) {
      WalkOffPath(mem, mem', FrameOf(mem[t][i]), level - 1, virt, x);
    }
  }

  /** The window lies in a 2 MiB page that does not begin with a table on its own path. */
  ghost predicate LargeOffPath(s: Vm, e: u64) {
    && Translate(s.mem, s.root, HeapPage(0)) == LargePage(1, e)
    && !OnPath(s.mem, s.root, 3, HeapPage(0), FrameOf(e))
  }

  lemma LargeOffPathRound(s: Vm, e: u64, n: nat)
    requires s.window <= FRAMES && n < HEAP_PAGES && LargeOffPath(s, e)
    ensures LargeOffPath(BackHeapPage(s, n), e)
  {
    hide BackHeapPage, HeapPage, FrameOf, OnPath, Walk, Index;
    var leaf := LargeRoundWrites(s, e, n);
    WalkOffPath(s.mem, BackHeapPage(s, n).mem, s.root, 3, HeapPage(0), FrameOf(e));
  }

  lemma LargeRoundWrites(s: Vm, e: u64, n: nat) returns (leaf: u64)
    requires s.window <= FRAMES && n < HEAP_PAGES && Translate(s.mem, s.root, HeapPage(0)) == LargePage(1, e)
    ensures BackHeapPage(s, n).mem == SetEntry(s.mem, FrameOf(e), Index(HeapPage(n), 0), leaf)
  {
    hide HeapPage, FrameOf, Walk, Index, LeafEntry;
    var taken := s.(busy := Take(s.busy, s.window).busy);
    leaf := LeafEntry(Take(s.busy, s.window).addr, HEAP_FLAGS);
    hide Take;
    assert BackHeapPage(s, n) == MapFrom(taken, s.root, 3, HeapPage(n), leaf);
    LargeWindowTogether(s, 0, n);
    LargePageFallsThrough(taken, s.root, 3, HeapPage(n), leaf);
    hide EnsureTable, BackHeapPage;
  }

  lemma {:induction false} LargeOffPathStays(base: Vm, e: u64, n: nat)
    requires base.window <= FRAMES && n <= HEAP_PAGES && LargeOffPath(base, e)
    ensures LargeOffPath(BackHeapPages(base, n), e)
    decreases n
  {
    hide LargeOffPath, BackHeapPage;
    if n > 0 {
      LargeOffPathStays(base, e, n - 1);
      LargeOffPathRound(BackHeapPages(base, n - 1), e, n - 1);
    }
  }

  /** Addresses of one gigabyte share a 1 GiB page. */
  lemma {:induction false} GigabyteShared(mem: Memory, t: nat, level: nat, v: u64, w: u64)
    requires 2 <= level < 4 && Index(v, 3) == Index(w, 3) && Index(v, 2) == Index(w, 2)
    requires Walk(mem, t, level, v).LargePage? && Walk(mem, t, level, v).level == 2
    ensures Walk(mem, t, level, w) == Walk(mem, t, level, v)
    decreases level
  {
    if level == 3 {
      var e := mem[t][Index(v, 3)];
      assert Walk(mem, t, 3, v) == Walk(mem, FrameOf(e), 2, v) && Walk(mem, t, 3, w) == Walk(mem, FrameOf(e), 2, w);
      GigabyteShared(mem, FrameOf(e), 2, v, w);
    } else {
      SmallerPagesAreLower(mem, FrameOf(mem[t][Index(v, 2)]), v);
    }
  }

  lemma SmallerPagesAreLower(mem: Memory, t: nat, v: u64)
    ensures Walk(mem, t, 1, v).LargePage? ==> Walk(mem, t, 1, v).level == 1
  {
  }

  /** The 2 MiB after the window. */
  const BEHIND_WINDOW: u64 := HEAP_VIRT_START + 0x20_0000

  lemma BehindWindow()
    ensures Index(BEHIND_WINDOW, 3) == Index(HeapPage(0), 3) && Index(BEHIND_WINDOW, 2) == Index(HeapPage(0), 2)
    ensures PageNumber(BEHIND_WINDOW) == HEAP_PAGE_NUMBER + HEAP_PAGES
  {
  }

  /** A window in a large page is never backed: an address behind the pages mapped so far keeps its
      translation, and with it the large page; and if all 512 are mapped there is none in the same 2 MiB page,
      but then the rounds wrote nothing that is on the path. */
  lemma LargeWindowNotBacked(base: Vm, levels: map<nat, nat>, n: nat, levels': map<nat, nat>, frames: seq<Frame>)
    requires base.window <= FRAMES && 0 < n <= HEAP_PAGES && |frames| == n
    requires Translate(base.mem, base.root, HeapPage(0)).LargePage?
    requires forall e :: n == HEAP_PAGES && Translate(base.mem, base.root, HeapPage(0)) == LargePage(1, e) ==>
               LargeOffPath(base, e)
    ensures !HeapBacked(base, levels, BackHeapPages(base, n), levels', frames)
  {
    hide Tree, BackHeapPages, HeapPage, FreshFrames, LargeOffPath, Translate, WindowBacked;
    var s := BackHeapPages(base, n);
    if HeapBacked(base, levels, s, levels', frames) {
      if n == HEAP_PAGES && Translate(base.mem, base.root, HeapPage(0)).level == 1 {
        LargeOffPathStays(base, Translate(base.mem, base.root, HeapPage(0)).entry, n);
        StillLarge(s, Translate(base.mem, base.root, HeapPage(0)).entry);
      } else {
        OutsideStaysLarge(base, s, frames);
      }
      BackedIsSmall(base, s, frames);
    }
  }

  lemma StillLarge(s: Vm, e: u64)
    requires LargeOffPath(s, e)
    ensures Translate(s.mem, s.root, HeapPage(0)).LargePage?
  {
    hide Translate, HeapPage, OnPath;
  }

  lemma BackedIsSmall(base: Vm, s: Vm, frames: seq<Frame>)
    requires 0 < |frames| <= HEAP_PAGES && WindowBacked(base, s, frames)
    ensures Translate(s.mem, s.root, HeapPage(0)).Page?
  {
    hide Translate, HeapPage, TableEntry;
  }

  lemma OutsideStaysLarge(base: Vm, s: Vm, frames: seq<Frame>)
    requires |frames| <= HEAP_PAGES && WindowBacked(base, s, frames) && s.root == base.root
    requires var large := Translate(base.mem, base.root, HeapPage(0));
             large.LargePage? && (|frames| < HEAP_PAGES || large.level != 1)
    ensures Translate(s.mem, s.root, HeapPage(0)).LargePage?
  {
    var n := |frames|;
    LargeLevels(base.mem, base.root, 3, HeapPage(0));
    hide HeapPage, Walk, TableEntry, Index;
    if n < HEAP_PAGES {
      LargeWindowTogether(base, 0, n);
      HeapPageNumber(n);
      LargeWindowTogether(s, n, 0);
    } else {
      BehindWindow();
      GigabyteShared(base.mem, base.root, 3, HeapPage(0), BEHIND_WINDOW);
      assert Translate(s.mem, s.root, BEHIND_WINDOW) == Translate(base.mem, base.root, BEHIND_WINDOW);
      GigabyteShared(s.mem, base.root, 3, BEHIND_WINDOW, HeapPage(0));
    }
  }

  lemma {:induction false} LargeLevels(mem: Memory, t: nat, level: nat, virt: u64)
    requires level < 4 && Walk(mem, t, level, virt).LargePage?
    ensures 1 <= Walk(mem, t, level, virt).level <= 2
    decreases level
  {
    var e := mem[t][Index(virt, level)];
    if !Large(e, level) {
      LargeLevels(mem, FrameOf(e), level - 1, virt);
    }
  }

  // ---- A machine where both start together -----------------------------------------------------

  /** Tables in frames 600 to 603 that map the first 8 MiB of memory at HEAP_VIRT_START: 512 pages, then three
      large pages. */
  ghost predicate MapsAtHeapStart(mem: Memory) {
    && mem[600] == ZeroTable()[256 := TableEntry(601)]
    && mem[601] == ZeroTable()[0 := TableEntry(602)]
    && mem[602] == ZeroTable()[0 := TableEntry(603)][1 := 0x20_0083][2 := 0x40_0083][3 := 0x60_0083]
    && forall i :: 0 <= i < 512 ==> mem[603][i] == TableEntry(i)
  }

  /** The first 1024 pages are busy, the next 1024 free. */
  ghost function OverlapVm(mem: Memory): Vm {
    Vm(mem, FreePages({}, 1024), 2048, 600)
  }

  ghost function OverlapLevels(): map<nat, nat> {
    map[600 := 3, 601 := 2, 602 := 1, 603 := 0]
  }

  /** The tables and the free pages lie above the pages that the window covers. */
  ghost function OverlapPages(): set<nat> {
    set f | f in FreePages({}, 2048) && f >= HEAP_PAGES
  }

  const OVERLAP_IOAPIC: u64 := HEAP_VIRT_START + 0xFEC0_0000

  lemma OverlapTree(mem: Memory, busy: set<nat>)
    requires MapsAtHeapStart(mem) && {0, 600, 601, 602, 603} <= busy
    ensures Tree(Vm(mem, busy, 2048, 600), OverlapLevels())
  {
    var levels := OverlapLevels();
    forall t, i: nat | t in levels && i < 512 && Points(mem, t, i, levels[t])
      ensures (t == 600 && i == 256 && FrameOf(mem[t][i]) == 601) || (t == 601 && i == 0 && FrameOf(mem[t][i]) == 602)
              || (t == 602 && i == 0 && FrameOf(mem[t][i]) == 603)
    {
      OverlapPointers(mem, t, i);
    }
    hide Points, FrameOf, MapsAtHeapStart;
  }

  lemma OverlapPointers(mem: Memory, t: nat, i: nat)
    requires MapsAtHeapStart(mem) && t in OverlapLevels() && i < 512 && Points(mem, t, i, OverlapLevels()[t])
    ensures (t == 600 && i == 256 && FrameOf(mem[t][i]) == 601) || (t == 601 && i == 0 && FrameOf(mem[t][i]) == 602)
            || (t == 602 && i == 0 && FrameOf(mem[t][i]) == 603)
  {
  }

  lemma OverlapReads(mem: Memory, v: u64)
    requires MapsAtHeapStart(mem)
    ensures Index(v, 3) == 256 && Index(v, 2) == 0 && Index(v, 1) == 0 ==>
              Translate(mem, 600, v) == Page(TableEntry(Index(v, 0)))
    ensures Index(v, 3) == 256 && Index(v, 2) == 0 && 1 <= Index(v, 1) < 4 ==>
              Translate(mem, 600, v) == LargePage(1, 0x20_0000 * Index(v, 1) + 0x83)
    ensures Index(v, 2) != 0 ==> Translate(mem, 600, v) == Unmapped
  {
    hide Index;
    assert mem[600][Index(v, 3)] == if Index(v, 3) == 256 then TableEntry(601) else 0;
    assert mem[601][Index(v, 2)] == if Index(v, 2) == 0 then TableEntry(602) else 0;
  }

  /** All of the 8 MiB are direct-mapped. */
  lemma OverlapResolves(mem: Memory, f: nat)
    requires MapsAtHeapStart(mem) && f < 2048
    ensures Resolve(mem, 600, Direct(HEAP_VIRT_START, f, 0)) == Frame(f)
  {
    OverlapAddress(f);
    var v := Direct(HEAP_VIRT_START, f, 0);
    assert f >= 512 ==> FrameOf(0x20_0000 * (f / 512) + 0x83) == f / 512 * 512;
    hide Direct, Index, MapsAtHeapStart, Translate, PageNumber;
    OverlapReads(mem, v);
  }

  lemma OverlapAddress(f: nat)
    requires f < 2048
    ensures var v := Direct(HEAP_VIRT_START, f, 0);
            && Index(v, 3) == 256 && Index(v, 2) == 0 && Index(v, 1) == f / 512 && Index(v, 0) == f % 512
            && v / PAGE_SIZE % 512 == f % 512 && PageNumber(v) == HEAP_PAGE_NUMBER + f
  {
    DirectPage(HEAP_VIRT_START, 0xF_FFF8_0000_0000, f);
    var v := Direct(HEAP_VIRT_START, f, 0);
    hide Direct;
    ShiftsNest(v);
    assert v / PAGE_SIZE == 0xF_FFF8_0000_0000 + f;
    assert v / PAGE_SIZE / 512 == 0x7FF_FC00_0000 + f / 512;
    assert v / PAGE_SIZE / 512 / 512 == 0x3_FFFE_0000;
  }

  lemma OverlapDirectMapped(mem: Memory, busy: set<nat>)
    requires MapsAtHeapStart(mem)
    ensures DirectMapped(Vm(mem, busy, 2048, 600), HEAP_VIRT_START, FreePages({}, 2048))
  {
    hide Direct, Resolve, MapsAtHeapStart;
    forall f | f in FreePages({}, 2048) ensures Resolve(mem, 600, Direct(HEAP_VIRT_START, f, 0)) == Frame(f) {
      OverlapResolves(mem, f);
    }
  }

  lemma OverlapApart()
    ensures ApartForBoot(HEAP_VIRT_START, OVERLAP_IOAPIC, OverlapPages())
  {
    forall f | f in OverlapPages() ensures PageNumber(Direct(HEAP_VIRT_START, f, 0)) == 0x8_0000_0000 + f {
      OverlapAddress(f);
    }
    assert PageNumber(LapicPage(HEAP_VIRT_START)) == 0x8_000F_EE00;
    assert PageNumber(OVERLAP_IOAPIC) == 0x8_000F_EC00;
    hide Direct, LapicPage, PageNumber;
  }

  lemma OverlapNotLarge(mem: Memory)
    requires MapsAtHeapStart(mem)
    ensures !Translate(mem, 600, LapicPage(HEAP_VIRT_START)).LargePage? && !Translate(mem, 600, OVERLAP_IOAPIC).LargePage?
    ensures NoLargeHeapPages(OverlapVm(mem))
  {
    hide Translate, MapsAtHeapStart, Index, HeapPage, LapicPage;
    OverlapIndices();
    OverlapReads(mem, LapicPage(HEAP_VIRT_START));
    OverlapReads(mem, OVERLAP_IOAPIC);
    OverlapReads(mem, HeapPage(0));
    NoLargeIff(OverlapVm(mem));
  }

  lemma OverlapIndices()
    ensures Index(LapicPage(HEAP_VIRT_START), 2) == 3 && Index(OVERLAP_IOAPIC, 2) == 3
    ensures Index(HeapPage(0), 3) == 256 && Index(HeapPage(0), 2) == 0 && Index(HeapPage(0), 1) == 0
  {
  }

  lemma {:induction false} FreePagesFrom(first: nat, window: nat)
    requires first <= window
    ensures |FreePages(FreePages({}, first), window)| == window - first
    decreases window
  {
    if first == window {
      assert FreePages(FreePages({}, first), window) == {};
    } else {
      FreePagesFrom(first, window - 1);
      assert FreePages(FreePages({}, first), window) == FreePages(FreePages({}, first), window - 1) + {window - 1};
    }
  }

  /** The bring-up runs on this machine: its tables and free pages are out of the window's way. */
  lemma OverlapReady(mem: Memory)
    requires MapsAtHeapStart(mem)
    ensures BootReady(OverlapVm(mem), OverlapLevels(), HEAP_VIRT_START, OVERLAP_IOAPIC, OverlapPages())
  {
    hide Tree, Translate, ApartForBoot, NoLargeHeapPages, MapsAtHeapStart, LapicPage, Reaches, BootNeed;
    BootNeedAtMost(OverlapVm(mem), HEAP_VIRT_START, OVERLAP_IOAPIC);
    OverlapTree(mem, FreePages({}, 1024));
    OverlapReaches(mem);
    OverlapApart();
    OverlapNotLarge(mem);
    FreePagesFrom(1024, 2048);
  }

  lemma OverlapReaches(mem: Memory)
    requires MapsAtHeapStart(mem)
    ensures Reaches(OverlapVm(mem), OverlapLevels(), HEAP_VIRT_START, OverlapPages())
  {
    hide Resolve, Direct, MapsAtHeapStart;
    OverlapDirectMapped(mem, FreePages({}, 1024));
  }

  /** Wherever the direct map starts at HEAP_VIRT_START and the bring-up still runs, it leaves none of the first
      512 frames reachable: their addresses now reach frames from the pool. */
  lemma FirstFramesLost(s: Vm, levels: map<nat, nat>, ioapic: u64, pages: set<nat>) returns (frames: seq<Frame>)
    requires BootReady(s, levels, HEAP_VIRT_START, ioapic, pages)
    ensures s.window <= FRAMES && |frames| == HEAP_PAGES
    ensures BootThrough(s, HEAP_VIRT_START, ioapic) == Done(BootMemory(s, HEAP_VIRT_START, ioapic))
    ensures var s' := BootMemory(s, HEAP_VIRT_START, ioapic);
            forall f: nat :: f < HEAP_PAGES ==>
              && frames[f] in FreePages(s.busy, s.window)
              && Resolve(s'.mem, s'.root, Direct(HEAP_VIRT_START, f, 0)) == Frame(frames[f])
  {
    hide BootReady, BootMemory, BootThrough, Tree, Reaches, FreePages, WindowBacked, Translate, DevicesRead;
    BootReadyFacts(s, levels, HEAP_VIRT_START, ioapic, pages);
    var levels';
    levels', frames := BootMapsEverything(s, levels, HEAP_VIRT_START, ioapic, pages);
    var base, s' := MapDevices(s, HEAP_VIRT_START, ioapic), BootMemory(s, HEAP_VIRT_START, ioapic);
    hide MapDevices, GrewFrom;
    forall f: nat | f < HEAP_PAGES
      ensures Resolve(s'.mem, s'.root, Direct(HEAP_VIRT_START, f, 0)) == Frame(frames[f])
    {
      FirstFrameAddress(f);
      hide Direct, TableEntry;
      BackedAddress(base, s', frames, Direct(HEAP_VIRT_START, f, 0));
    }
  }

  lemma FirstFrameAddress(f: nat)
    requires f < HEAP_PAGES
    ensures InFirstPages(Direct(HEAP_VIRT_START, f, 0), HEAP_PAGES)
    ensures PageNumber(Direct(HEAP_VIRT_START, f, 0)) - HEAP_PAGE_NUMBER == f
  {
    DirectPageNumber(f);
    hide Direct, PageNumber;
  }
}
