/** How the kernel reaches physical memory: every table, and every page it clears, is read and written
    at its physical address plus the direct-map offset, through the same page tables it is changing.
    `MapThrough` is the mapper with those accesses, each of which may fault; while the direct map maps
    the pages in use it is the mapper on physical frames. */
module DirectMap {
  import opened Words
  import opened PagePool
  import opened PageTables
  import opened MappingRuns

  // ---- Accesses through the tables -------------------------------------------------------------

  /** What a virtual address reaches: nothing, which is a page fault, or a physical frame. */
  datatype Target = Fault | Frame(f: nat)

  /** The frame behind v; a 2 MiB or 1 GiB page is 512 or 512 * 512 frames in a row. */
  function Resolve(mem: Memory, root: nat, v: u64): Target {
    match Translate(mem, root, v)
    case Unmapped => Fault
    case Page(e) => Frame(FrameOf(e))
    case LargePage(level, e) =>
      if level == 1 then Frame(FrameOf(e) / 512 * 512 + v / PAGE_SIZE % 512)
      else Frame(FrameOf(e) / 0x4_0000 * 0x4_0000 + v / PAGE_SIZE % 0x4_0000)
  }

  datatype Loaded = LoadFault | Word(w: u64)

  function LoadAt(mem: Memory, root: nat, v: u64): Loaded {
    match Resolve(mem, root, v)
    case Fault => LoadFault
    case Frame(f) => Word(mem[f][v % PAGE_SIZE / 8])
  }

  datatype Stored = StoreFault | Written(mem: Memory)

  function StoreAt(mem: Memory, root: nat, v: u64, w: u64): Stored {
    match Resolve(mem, root, v)
    case Fault => StoreFault
    case Frame(f) => Written(SetEntry(mem, f, v % PAGE_SIZE / 8, w))
  }

  /** memset of one aligned page. */
  function ClearAt(mem: Memory, root: nat, v: u64): Stored {
    match Resolve(mem, root, v)
    case Fault => StoreFault
    case Frame(f) => Written(Clear(mem, f))
  }

  /** The address of word i of frame f in the direct map. */
  function Direct(hhdm: u64, f: nat, i: nat): u64 {
    (hhdm + f * PAGE_SIZE + 8 * i) % TWO_64
  }

  /** The direct map at `hhdm`, a page boundary, maps these pages. */
  ghost predicate DirectMapped(s: Vm, hhdm: u64, pages: set<nat>) {
    hhdm % PAGE_SIZE == 0 && forall f :: f in pages ==> Resolve(s.mem, s.root, Direct(hhdm, f, 0)) == Frame(f)
  }

  /** The words of a direct-mapped page are reached where they physically are. */
  lemma DirectWord(mem: Memory, root: nat, hhdm: u64, f: nat, i: nat)
    requires hhdm % PAGE_SIZE == 0 && i < 512
    ensures Direct(hhdm, f, i) % PAGE_SIZE == 8 * i && Direct(hhdm, f, i) % PAGE_SIZE / 8 == i
    ensures Resolve(mem, root, Direct(hhdm, f, i)) == Resolve(mem, root, Direct(hhdm, f, 0))
  {
    DirectOffset(hhdm / PAGE_SIZE + f, i);
    SamePageResolves(mem, root, Direct(hhdm, f, i), Direct(hhdm, f, 0));
  }

  /** What the direct map is for: a load or a store at the physical address of any word of these pages, plus the
      offset, is one of that very word. */
  lemma DirectMapReachesWords(s: Vm, hhdm: u64, pages: set<nat>, f: nat, i: nat, w: u64)
    requires DirectMapped(s, hhdm, pages) && f in pages && i < 512
    ensures var v := (4096 * f + 8 * i + hhdm) % 0x1_0000_0000_0000_0000;
            && LoadAt(s.mem, s.root, v) == Word(s.mem[f][i])
            && StoreAt(s.mem, s.root, v, w) == Written(s.mem[f := s.mem[f][i := w]])
  {
    hide Resolve;
    DirectWord(s.mem, s.root, hhdm, f, i);
  }

  lemma DirectOffset(q: nat, i: nat)
    requires i < 512
    ensures (q * PAGE_SIZE + 8 * i) % TWO_64 / PAGE_SIZE == (q * PAGE_SIZE) % TWO_64 / PAGE_SIZE
    ensures (q * PAGE_SIZE + 8 * i) % TWO_64 % PAGE_SIZE == 8 * i
  {
    var r := q % 0x10_0000_0000_0000;
    assert (q * PAGE_SIZE) % TWO_64 == r * PAGE_SIZE;
    assert (q * PAGE_SIZE + 8 * i) % TWO_64 == r * PAGE_SIZE + 8 * i;
  }

  lemma SamePageResolves(mem: Memory, root: nat, v: u64, w: u64)
    requires v / PAGE_SIZE == w / PAGE_SIZE
    ensures Resolve(mem, root, v) == Resolve(mem, root, w)
  {
    SamePageMeansSameIndices(v, w);
    WalkDependsOnIndices(mem, root, 3, v, w);
  }

  // ---- The mapper through the direct map -------------------------------------------------------

  /** One step of the walk: the state and the next table, unless an access faulted. A fault never
      returns: its handler loops. */
  datatype Step = Faulted | Next(s: Vm, next: nat)

  /** Ensure the table under entry i of table t, with the accesses of the source: read the entry, and if
      it is absent make the table. */
  ghost function StepThrough(s: Vm, hhdm: u64, t: nat, i: nat): Step
    requires i < 512 && s.window <= FRAMES
  {
    match LoadAt(s.mem, s.root, Direct(hhdm, t, i))
    case LoadFault => Faulted
    case Word(e) => if Present(e) then Next(s, FrameOf(e)) else AddThrough(s, hhdm, t, i)
  }

  /** Take a page, clear it, write the entry, and read it again. */
  ghost function AddThrough(s: Vm, hhdm: u64, t: nat, i: nat): Step
    requires i < 512 && s.window <= FRAMES
  {
    var g := Take(s.busy, s.window);
    var p := g.addr / PAGE_SIZE;
    match ClearAt(s.mem, s.root, Direct(hhdm, p, 0))
    case StoreFault => Faulted
    case Written(cleared) =>
      match StoreAt(cleared, s.root, Direct(hhdm, t, i), TableEntry(p))
      case StoreFault => Faulted
      case Written(mem') =>
        match LoadAt(mem', s.root, Direct(hhdm, t, i))
        case LoadFault => Faulted
        case Word(e) => Next(s.(mem := mem', busy := g.busy), FrameOf(e))
  }

  datatype Outcome = Halted | Done(s: Vm)

  ghost function MapThrough(s: Vm, hhdm: u64, t: nat, level: nat, virt: u64, leaf: u64): (r: Outcome)
    requires level < 4 && s.window <= FRAMES
    ensures r.Done? ==> r.s.window == s.window && r.s.root == s.root
    decreases level, t
  {
    if level == 0 then
      match StoreAt(s.mem, s.root, Direct(hhdm, t, Index(virt, 0)), leaf)
      case StoreFault => Halted
      case Written(mem') => Done(s.(mem := mem'))
    else
      match StepThrough(s, hhdm, t, Index(virt, level))
      case Faulted => Halted
      case Next(s1, next) => MapThrough(s1, hhdm, next, level - 1, virt, leaf)
  }

  ghost function MapPageThrough(s: Vm, hhdm: u64, virt: u64, phys: u64, flags: u8): (r: Outcome)
    requires s.window <= FRAMES
    ensures r.Done? ==> r.s.window == s.window && r.s.root == s.root
  {
    MapThrough(s, hhdm, s.root, 3, virt, LeafEntry(phys, flags))
  }

  // ---- While the direct map holds, accesses are physical ---------------------------------------

  /** Adding entries where none were present leaves mapped addresses alone. */
  lemma {:induction false} MappedWalkStays(s: Vm, levels: map<nat, nat>, mem: Memory, t: nat, level: nat, v: u64)
    requires Tree(s, levels) && t in levels && levels[t] == level && KeepsPresent(s, levels, mem)
    requires Walk(s.mem, t, level, v) != Unmapped
    ensures Walk(mem, t, level, v) == Walk(s.mem, t, level, v)
    decreases level
  {
    var i := Index(v, level);
    assert mem[t][i] == s.mem[t][i];
    if Points(s.mem, t, i, level) {
      MappedWalkStays(s, levels, mem, FrameOf(s.mem[t][i]), level - 1, v);
    }
  }

  lemma DirectAccess(s: Vm, levels: map<nat, nat>, hhdm: u64, pages: set<nat>, mem: Memory, f: nat, i: nat)
    requires Tree(s, levels) && DirectMapped(s, hhdm, pages) && KeepsPresent(s, levels, mem)
    requires f in pages && i < 512
    ensures Direct(hhdm, f, i) % PAGE_SIZE == 8 * i && Direct(hhdm, f, i) % PAGE_SIZE / 8 == i
    ensures Resolve(mem, s.root, Direct(hhdm, f, i)) == Frame(f)
  {
    DirectWord(mem, s.root, hhdm, f, i);
    assert Resolve(s.mem, s.root, Direct(hhdm, f, 0)) == Frame(f);
    MappedWalkStays(s, levels, mem, s.root, 3, Direct(hhdm, f, 0));
  }

  /** Where a walk that began in the sound state s0 has got to: its direct map still holds for the pages
      in use, and it stands at a table of s0 that it has not changed yet, or at a table it has just
      cleared, which is frame 0 if the pool is exhausted. */
  ghost predicate OnTrack(s0: Vm, levels: map<nat, nat>, hhdm: u64, pages: set<nat>,
                          s: Vm, t: nat, level: nat, virt: u64)
    requires level < 4
  {
    && Tree(s0, levels) && DirectMapped(s0, hhdm, pages) && (forall f :: f in levels ==> f in pages)
    && s.root == s0.root && s.window == s0.window && (forall f :: f in s0.busy ==> f in s.busy)
    && KeepsPresent(s0, levels, s.mem)
    && (forall f :: f in FreePages(s.busy, s.window) ==> f in pages)
    && (0 in pages || Missing(s.mem, t, level, virt) <= |FreePages(s.busy, s.window)|)
    && t in pages && t in s.busy
    && if t in levels then UntouchedTable(s0, levels, s.mem, t, level, virt) else ClearedTable(s.mem, t)
  }

  ghost predicate UntouchedTable(s0: Vm, levels: map<nat, nat>, mem: Memory, t: nat, level: nat, virt: u64)
    requires level < 4 && t in levels
  {
    && levels[t] == level && !Walk(s0.mem, t, level, virt).LargePage?
    && forall f :: f in levels && levels[f] <= level ==> mem[f] == s0.mem[f]
  }

  ghost predicate ClearedTable(mem: Memory, t: nat) {
    || (forall k :: 0 <= k < 512 ==> mem[t][k] == 0)
    || (t == 0 && forall k :: 0 <= k < 512 && Present(mem[0][k]) ==> FrameOf(mem[0][k]) == 0)
  }

  lemma StepAtPresentEntry(s0: Vm, levels: map<nat, nat>, hhdm: u64, pages: set<nat>,
                           s: Vm, t: nat, level: nat, virt: u64)
    requires 0 < level < 4 && OnTrack(s0, levels, hhdm, pages, s, t, level, virt)
    requires Present(s.mem[t][Index(virt, level)])
    ensures StepThrough(s, hhdm, t, Index(virt, level)) == Next(s, FrameOf(s.mem[t][Index(virt, level)]))
    ensures OnTrack(s0, levels, hhdm, pages, s, FrameOf(s.mem[t][Index(virt, level)]), level - 1, virt)
  {
    hide Resolve, Direct, DirectMapped;
    var i := Index(virt, level);
    DirectAccess(s0, levels, hhdm, pages, s.mem, t, i);
    if t in levels {
      assert Points(s0.mem, t, i, level);
    }
  }

  /** The step at an absent entry, from what its four accesses reach. */
  lemma StepComputes(s: Vm, hhdm: u64, t: nat, i: nat, p: Frame, cleared: Memory, mem': Memory)
    requires i < 512 && s.window <= FRAMES && !Present(s.mem[t][i])
    requires p == Take(s.busy, s.window).addr / PAGE_SIZE
    requires Direct(hhdm, t, i) % PAGE_SIZE / 8 == i
    requires cleared == Clear(s.mem, p) && mem' == PutTable(s.mem, t, i, p)
    requires Resolve(s.mem, s.root, Direct(hhdm, t, i)) == Frame(t)
    requires Resolve(s.mem, s.root, Direct(hhdm, p, 0)) == Frame(p)
    requires Resolve(cleared, s.root, Direct(hhdm, t, i)) == Frame(t)
    requires Resolve(mem', s.root, Direct(hhdm, t, i)) == Frame(t)
    ensures EnsureTable(s, t, i) == s.(mem := mem', busy := Take(s.busy, s.window).busy)
    ensures StepThrough(s, hhdm, t, i) == Next(EnsureTable(s, t, i), p)
  {
    hide Resolve, Direct, Take;
  }

  lemma StepAtAbsentEntry(s0: Vm, levels: map<nat, nat>, hhdm: u64, pages: set<nat>,
                          s: Vm, t: nat, level: nat, virt: u64)
    requires 0 < level < 4 && OnTrack(s0, levels, hhdm, pages, s, t, level, virt)
    requires !Present(s.mem[t][Index(virt, level)])
    ensures var i := Index(virt, level);
            var s1 := EnsureTable(s, t, i);
            && StepThrough(s, hhdm, t, i) == Next(s1, FrameOf(s1.mem[t][i]))
            && OnTrack(s0, levels, hhdm, pages, s1, FrameOf(s1.mem[t][i]), level - 1, virt)
  {
    hide Resolve, Direct, DirectMapped, StepThrough;
    var i := Index(virt, level);
    var p := PageForTable(s0, levels, hhdm, pages, s, t, level, virt);
    var cleared := Clear(s.mem, p);
    var mem' := PutTable(s.mem, t, i, p);
    PuttingKeepsPresent(s0, levels, hhdm, pages, s, t, level, virt, p);
    DirectAccess(s0, levels, hhdm, pages, s.mem, t, i);
    DirectAccess(s0, levels, hhdm, pages, s.mem, p, 0);
    DirectAccess(s0, levels, hhdm, pages, cleared, t, i);
    DirectAccess(s0, levels, hhdm, pages, mem', t, i);
    StepComputes(s, hhdm, t, i, p, cleared, mem');
    TrackAfterPutting(s0, levels, hhdm, pages, s, t, level, virt, p, EnsureTable(s, t, i));
  }

  /** The page taken for a table: a free one, or frame 0. It is direct-mapped and no table of s0. */
  lemma PageForTable(s0: Vm, levels: map<nat, nat>, hhdm: u64, pages: set<nat>,
                     s: Vm, t: nat, level: nat, virt: u64) returns (p: Frame)
    requires 0 < level < 4 && OnTrack(s0, levels, hhdm, pages, s, t, level, virt)
    requires !Present(s.mem[t][Index(virt, level)])
    ensures Take(s.busy, s.window) == Grant(p * PAGE_SIZE, if p == 0 then s.busy else s.busy + {p})
    ensures p in pages && p !in levels && (p != 0 ==> p != t)
    ensures if p == 0 then FreePages(s.busy, s.window) == {}
            else p in FreePages(s.busy, s.window)
                 && |FreePages(s.busy + {p}, s.window)| == |FreePages(s.busy, s.window)| - 1
  {
    hide DirectMapped, Walk, KeepsPresent;
    TakeMeaning(s.busy, s.window);
    p := Take(s.busy, s.window).addr / PAGE_SIZE;
  }

  /** Neither clearing that page nor entering it in the table touches a present entry of s0. */
  lemma PuttingKeepsPresent(s0: Vm, levels: map<nat, nat>, hhdm: u64, pages: set<nat>,
                            s: Vm, t: nat, level: nat, virt: u64, p: Frame)
    requires 0 < level < 4 && OnTrack(s0, levels, hhdm, pages, s, t, level, virt)
    requires !Present(s.mem[t][Index(virt, level)]) && p !in levels
    ensures KeepsPresent(s0, levels, Clear(s.mem, p))
    ensures KeepsPresent(s0, levels, PutTable(s.mem, t, Index(virt, level), p))
  {
    hide DirectMapped, Walk, Tree;
  }

  lemma TrackAfterPutting(s0: Vm, levels: map<nat, nat>, hhdm: u64, pages: set<nat>,
                          s: Vm, t: nat, level: nat, virt: u64, p: Frame, s1: Vm)
    requires 0 < level < 4 && OnTrack(s0, levels, hhdm, pages, s, t, level, virt)
    requires !Present(s.mem[t][Index(virt, level)]) && p in pages && p !in levels
    requires p != 0 ==> p in FreePages(s.busy, s.window) && p != t
    requires p != 0 ==> |FreePages(s.busy + {p}, s.window)| == |FreePages(s.busy, s.window)| - 1
    requires p == 0 ==> FreePages(s.busy, s.window) == {} && 0 in s.busy
    requires s1 == s.(mem := PutTable(s.mem, t, Index(virt, level), p), busy := if p == 0 then s.busy else s.busy + {p})
    requires KeepsPresent(s0, levels, s1.mem)
    ensures s1.mem[t][Index(virt, level)] == TableEntry(p)
    ensures OnTrack(s0, levels, hhdm, pages, s1, p, level - 1, virt)
  {
    hide DirectMapped, Tree, KeepsPresent, UntouchedTable, Index;
    TreeFacts(s0, levels);
    FreshIsCleared(s.mem, t, Index(virt, level), p, level - 1, virt);
    hide Missing, Walk, TableEntry, PutTable, ClearedTable;
  }

  lemma FreshIsCleared(mem: Memory, t: nat, i: nat, p: Frame, level: nat, virt: u64)
    requires i < 512 && level < 4 && (p != 0 ==> p != t)
    requires t == 0 ==> forall k :: 0 <= k < 512 && Present(mem[0][k]) ==> FrameOf(mem[0][k]) == 0
    ensures ClearedTable(PutTable(mem, t, i, p), p)
    ensures p != t ==> Missing(PutTable(mem, t, i, p), p, level, virt) == level
    ensures PutTable(mem, t, i, p)[t][i] == TableEntry(p)
  {
    if p != t {
      NothingBelowEmptyTable(PutTable(mem, t, i, p), p, level, virt);
    }
  }

  /** On track, the walk through the direct map is the walk on physical frames. */
  lemma {:induction false} ThroughIsPhysical(s0: Vm, levels: map<nat, nat>, hhdm: u64, pages: set<nat>,
                                             s: Vm, t: nat, level: nat, virt: u64, leaf: u64)
    requires level < 4 && OnTrack(s0, levels, hhdm, pages, s, t, level, virt)
    ensures MapThrough(s, hhdm, t, level, virt, leaf) == Done(MapFrom(s, t, level, virt, leaf))
    decreases level
  {
    var i := Index(virt, level);
    hide OnTrack, StepThrough, EnsureTable, Index;
    TrackFacts(s0, levels, hhdm, pages, s, t, level, virt);
    if level == 0 {
      LeafIsPhysical(s0, levels, hhdm, pages, s, t, virt, leaf);
    } else {
      if Present(s.mem[t][i]) {
        StepAtPresentEntry(s0, levels, hhdm, pages, s, t, level, virt);
        EnsureKeepsPresentEntry(s, t, i);
      } else {
        StepAtAbsentEntry(s0, levels, hhdm, pages, s, t, level, virt);
      }
      var s1 := EnsureTable(s, t, i);
      ThroughIsPhysical(s0, levels, hhdm, pages, s1, FrameOf(s1.mem[t][i]), level - 1, virt, leaf);
    }
  }

  lemma TrackFacts(s0: Vm, levels: map<nat, nat>, hhdm: u64, pages: set<nat>, s: Vm, t: nat, level: nat, virt: u64)
    requires level < 4 && OnTrack(s0, levels, hhdm, pages, s, t, level, virt)
    ensures s.window <= FRAMES
  {
    hide Missing, Walk, DirectMapped, KeepsPresent, UntouchedTable, ClearedTable, FreePages;
  }

  lemma EnsureKeepsPresentEntry(s: Vm, t: nat, i: nat)
    requires i < 512 && s.window <= FRAMES && Present(s.mem[t][i])
    ensures EnsureTable(s, t, i) == s
  {
  }

  lemma LeafIsPhysical(s0: Vm, levels: map<nat, nat>, hhdm: u64, pages: set<nat>, s: Vm, t: nat, virt: u64, leaf: u64)
    requires OnTrack(s0, levels, hhdm, pages, s, t, 0, virt)
    ensures MapThrough(s, hhdm, t, 0, virt, leaf) == Done(MapFrom(s, t, 0, virt, leaf))
  {
    DirectAccess(s0, levels, hhdm, pages, s.mem, t, Index(virt, 0));
    hide Tree, Resolve, Direct, DirectMapped, KeepsPresent, UntouchedTable, ClearedTable, Index;
  }

  /** The pages the mapper reaches are direct-mapped: its tables and all pages it may take. */
  ghost predicate Reaches(s: Vm, levels: map<nat, nat>, hhdm: u64, pages: set<nat>) {
    && DirectMapped(s, hhdm, pages)
    && (forall f :: f in levels ==> f in pages)
    && (forall f :: f in FreePages(s.busy, s.window) ==> f in pages)
  }

  /** vmm_alloc through the direct map does not fault and is vmm_alloc on physical frames, if its tables
      and the free pages are direct-mapped. With an exhausted pool it also needs frame 0 mapped, since it
      uses that frame. */
  lemma MapPageThroughIsPhysical(s: Vm, levels: map<nat, nat>, hhdm: u64, pages: set<nat>,
                                 virt: u64, phys: u64, flags: u8)
    requires Tree(s, levels) && Reaches(s, levels, hhdm, pages)
    requires !Translate(s.mem, s.root, virt).LargePage?
    requires 0 in pages || Missing(s.mem, s.root, 3, virt) <= |FreePages(s.busy, s.window)|
    ensures MapPageThrough(s, hhdm, virt, phys, flags) == Done(MapPage(s, virt, phys, flags))
  {
    StartsOnTrack(s, levels, hhdm, pages, virt);
    hide OnTrack, Reaches, Tree, Translate, Missing, LeafEntry;
    ThroughIsPhysical(s, levels, hhdm, pages, s, s.root, 3, virt, LeafEntry(phys, flags));
  }

  lemma StartsOnTrack(s: Vm, levels: map<nat, nat>, hhdm: u64, pages: set<nat>, virt: u64)
    requires Tree(s, levels) && Reaches(s, levels, hhdm, pages)
    requires !Translate(s.mem, s.root, virt).LargePage?
    requires 0 in pages || Missing(s.mem, s.root, 3, virt) <= |FreePages(s.busy, s.window)|
    ensures s.window <= FRAMES && OnTrack(s, levels, hhdm, pages, s, s.root, 3, virt)
  {
    hide DirectMapped, FreePages, Missing;
  }

  // ---- The direct map survives -----------------------------------------------------------------

  /** The page of virt is none through which the kernel reaches these pages. */
  ghost predicate OffDirectMap(hhdm: u64, pages: set<nat>, virt: u64) {
    forall f :: f in pages ==> !SamePage(Direct(hhdm, f, 0), virt)
  }

  /** The direct map serves a state that grew out of s by tables that were free pages, if the addresses
      of the direct map translate as before. */
  lemma ReachesAfter(s: Vm, levels: map<nat, nat>, hhdm: u64, pages: set<nat>, s': Vm, levels': map<nat, nat>)
    requires Reaches(s, levels, hhdm, pages)
    requires s'.root == s.root && s'.window == s.window && (forall f :: f in s.busy ==> f in s'.busy)
    requires forall f :: f in levels' ==> f in levels || f in FreePages(s.busy, s.window)
    requires forall f :: f in pages ==>
               Translate(s'.mem, s.root, Direct(hhdm, f, 0)) == Translate(s.mem, s.root, Direct(hhdm, f, 0))
    ensures Reaches(s', levels', hhdm, pages)
  {
    hide Direct, Translate;
    forall f | f in pages ensures Resolve(s'.mem, s'.root, Direct(hhdm, f, 0)) == Frame(f) {
      assert Resolve(s.mem, s.root, Direct(hhdm, f, 0)) == Frame(f);
    }
  }

  /** vmm_alloc as the source performs it: with a page for every missing table, no large page on the path,
      and the requested page apart from the direct map, no access faults, exactly that page is installed
      (`MapPageIsExact`), and the direct map still serves all tables and free pages. */
  lemma MapPageThroughIsExact(s: Vm, levels: map<nat, nat>, hhdm: u64, pages: set<nat>,
                              virt: u64, phys: u64, flags: u8) returns (levels': map<nat, nat>)
    requires Tree(s, levels) && Reaches(s, levels, hhdm, pages)
    requires Mappable(s, virt) && OffDirectMap(hhdm, pages, virt)
    ensures MapPageThrough(s, hhdm, virt, phys, flags) == Done(MapPage(s, virt, phys, flags))
    ensures var s' := MapPage(s, virt, phys, flags);
            && Grows(s, levels, s', levels', 3)
            && MapsPage(s.mem, s'.mem, s.root, virt, LeafEntry(phys, flags))
            && |FreePages(s'.busy, s.window)| == |FreePages(s.busy, s.window)| - Missing(s.mem, s.root, 3, virt)
            && Reaches(s', levels', hhdm, pages)
  {
    MapPageThroughIsPhysical(s, levels, hhdm, pages, virt, phys, flags);
    levels' := MapPageIsExact(s, levels, virt, phys, flags);
    var s' := MapPage(s, virt, phys, flags);
    hide Tree, MapPage, MapPageThrough, Direct, Translate, Reaches, MapsPage, OffDirectMap;
    OtherPagesTranslate(s.mem, s'.mem, s.root, virt, LeafEntry(phys, flags), hhdm, pages);
    ReachesAfter(s, levels, hhdm, pages, s', levels');
  }

  lemma OtherPagesTranslate(mem: Memory, mem': Memory, root: nat, virt: u64, leaf: u64, hhdm: u64, pages: set<nat>)
    requires MapsPage(mem, mem', root, virt, leaf) && OffDirectMap(hhdm, pages, virt)
    ensures forall f :: f in pages ==> Translate(mem', root, Direct(hhdm, f, 0)) == Translate(mem, root, Direct(hhdm, f, 0))
  {
    hide Translate, Direct;
  }

  /** Making a table never costs the kernel its direct map, even if frame 0 has to serve as the table. */
  lemma EnsureTableKeepsDirectMap(s: Vm, levels: map<nat, nat>, hhdm: u64, pages: set<nat>, t: nat, i: nat)
    requires Tree(s, levels) && DirectMapped(s, hhdm, pages) && t in levels && i < 512
    ensures s.window <= FRAMES && DirectMapped(EnsureTable(s, t, i), hhdm, pages)
  {
    TreeFacts(s, levels);
    var s1 := EnsureTable(s, t, i);
    EnsureKeepsPresent(s, levels, t, i);
    hide Tree, EnsureTable, KeepsPresent, Resolve, Direct;
    forall f | f in pages ensures Resolve(s1.mem, s1.root, Direct(hhdm, f, 0)) == Frame(f) {
      DirectAccess(s, levels, hhdm, pages, s1.mem, f, 0);
    }
  }

  lemma EnsureKeepsPresent(s: Vm, levels: map<nat, nat>, t: nat, i: nat)
    requires Tree(s, levels) && t in levels && i < 512
    ensures s.window <= FRAMES && EnsureTable(s, t, i).root == s.root
    ensures KeepsPresent(s, levels, EnsureTable(s, t, i).mem)
  {
    hide Tree, FrameOf, TableEntry;
    TreeFacts(s, levels);
    TakeMeaning(s.busy, s.window);
  }

  /** A step of the walk from a cleared table outside the tree goes to another one. */
  lemma StepOutsideTree(s: Vm, levels: map<nat, nat>, p: nat, i: nat)
    requires s.window <= FRAMES && 0 in s.busy && forall f :: f in levels ==> f != 0 && f in s.busy
    requires p !in levels && p in s.busy && ClearedTable(s.mem, p) && i < 512
    ensures var s1 := EnsureTable(s, p, i);
            var q := FrameOf(s1.mem[p][i]);
            && s1.window == s.window && s.busy <= s1.busy
            && q !in levels && q in s1.busy && ClearedTable(s1.mem, q)
            && forall f :: f in levels ==> s1.mem[f] == s.mem[f]
  {
    hide FreePages;
    TakeMeaning(s.busy, s.window);
    FreePagesFacts(s.busy, s.window);
    hide Take;
    assert !Present(0);
  }

  lemma FreePagesFacts(busy: set<nat>, window: nat)
    ensures forall f :: f in FreePages(busy, window) <==> 0 <= f < window && f !in busy
  {
  }

  lemma {:induction false} WalkOutsideTree(s: Vm, levels: map<nat, nat>, p: nat, level: nat, virt: u64, leaf: u64)
    requires level < 4 && s.window <= FRAMES && 0 in s.busy && forall f :: f in levels ==> f != 0 && f in s.busy
    requires p !in levels && p in s.busy && ClearedTable(s.mem, p)
    ensures forall f :: f in levels ==> MapFrom(s, p, level, virt, leaf).mem[f] == s.mem[f]
    decreases level
  {
    hide EnsureTable, ClearedTable, Index, FrameOf;
    if level > 0 {
      var s1 := EnsureTable(s, p, Index(virt, level));
      StepOutsideTree(s, levels, p, Index(virt, level));
      WalkOutsideTree(s1, levels, FrameOf(s1.mem[p][Index(virt, level)]), level - 1, virt, leaf);
    }
  }

  /** A call that has to make tables keeps every entry that was present, whether or not the pool has pages. */
  lemma {:induction false} MakingTablesKeepsPresent(s: Vm, levels: map<nat, nat>, t: nat, level: nat, virt: u64, leaf: u64)
    requires Tree(s, levels) && t in levels && levels[t] == level
    requires !Walk(s.mem, t, level, virt).LargePage? && Missing(s.mem, t, level, virt) >= 1
    ensures KeepsPresent(s, levels, MapFrom(s, t, level, virt, leaf).mem)
    decreases level
  {
    var i := Index(virt, level);
    if Present(s.mem[t][i]) {
      assert Points(s.mem, t, i, level);
      assert EnsureTable(s, t, i) == s;
      MakingTablesKeepsPresent(s, levels, FrameOf(s.mem[t][i]), level - 1, virt, leaf);
    } else {
      MakingFirstTable(s, levels, t, level, virt, leaf);
    }
  }

  lemma MakingFirstTable(s: Vm, levels: map<nat, nat>, t: nat, level: nat, virt: u64, leaf: u64)
    requires Tree(s, levels) && t in levels && 0 < level < 4 && !Present(s.mem[t][Index(virt, level)])
    ensures KeepsPresent(s, levels, MapFrom(s, t, level, virt, leaf).mem)
  {
    hide Tree, EnsureTable, ClearedTable, KeepsPresent, Index;
    TreeFacts(s, levels);
    var i := Index(virt, level);
    var s1 := EnsureTable(s, t, i);
    EnsureKeepsPresent(s, levels, t, i);
    FirstTable(s, levels, t, i);
    WalkOutsideTree(s1, levels, FrameOf(s1.mem[t][i]), level - 1, virt, leaf);
    var s' := MapFrom(s1, FrameOf(s1.mem[t][i]), level - 1, virt, leaf);
    assert MapFrom(s, t, level, virt, leaf) == s';
    hide MapFrom;
    SameTablesKeepPresent(s, levels, s1.mem, s'.mem);
  }

  lemma SameTablesKeepPresent(s: Vm, levels: map<nat, nat>, mem1: Memory, mem2: Memory)
    requires KeepsPresent(s, levels, mem1) && forall f :: f in levels ==> mem2[f] == mem1[f]
    ensures KeepsPresent(s, levels, mem2)
  {
  }

  lemma FirstTable(s: Vm, levels: map<nat, nat>, t: nat, i: nat)
    requires s.window <= FRAMES && 0 in s.busy && forall f :: f in levels ==> f != 0 && f in s.busy
    requires t in levels && i < 512 && !Present(s.mem[t][i])
    ensures var s1 := EnsureTable(s, t, i);
            var q := FrameOf(s1.mem[t][i]);
            s1.window == s.window && s.busy <= s1.busy && q !in levels && q in s1.busy && ClearedTable(s1.mem, q)
  {
    hide FreePages;
    TakeMeaning(s.busy, s.window);
    FreePagesFacts(s.busy, s.window);
    hide Take;
  }

  lemma MissingMeansUnmapped(mem: Memory, t: nat, level: nat, virt: u64)
    requires level < 4 && !Walk(mem, t, level, virt).LargePage? && Missing(mem, t, level, virt) >= 1
    ensures Walk(mem, t, level, virt) == Unmapped
    decreases level
  {
  }

  /** Exactly when a call leaves the direct map of these pages in place, whatever is left in the pool: each of
      them whose address is in the page being mapped must be the very frame it is mapped to, or there is a large
      page on the path and the request is lost. */
  lemma DirectMapSurvivesIff(s: Vm, levels: map<nat, nat>, hhdm: u64, pages: set<nat>,
                             virt: u64, phys: u64, flags: u8)
    requires Tree(s, levels) && DirectMapped(s, hhdm, pages)
    requires Translate(s.mem, s.root, virt).LargePage? ==>
               MissesTables(s.mem, levels, Translate(s.mem, s.root, virt), virt)
    ensures s.window <= FRAMES
    ensures DirectMapped(MapPage(s, virt, phys, flags), hhdm, pages)
            <==> Translate(s.mem, s.root, virt).LargePage?
                 || forall f :: f in pages && SamePage(Direct(hhdm, f, 0), virt) ==> f == FrameOf(phys)
  {
    hide Tree, MapPage, Direct, Translate, DirectMapped, Missing, SamePage, FrameOf;
    TreeFacts(s, levels);
    var s' := MapPage(s, virt, phys, flags);
    if Translate(s.mem, s.root, virt).LargePage? {
      LargePageLosesRequest(s, levels, virt, phys, flags);
      SameTranslationsDirectMap(s, s', hhdm, pages);
    } else if Missing(s.mem, s.root, 3, virt) == 0 {
      var levels' := MapPageIsExact(s, levels, virt, phys, flags);
      RemappedPagesResolve(s, s', hhdm, pages, virt, LeafEntry(phys, flags));
    } else {
      NewPageOffDirectMap(s, levels, hhdm, pages, virt, phys, flags);
    }
  }

  lemma SameTranslationsDirectMap(s: Vm, s': Vm, hhdm: u64, pages: set<nat>)
    requires s'.root == s.root && DirectMapped(s, hhdm, pages)
    requires forall v: u64 :: Translate(s'.mem, s.root, v) == Translate(s.mem, s.root, v)
    ensures DirectMapped(s', hhdm, pages)
  {
    hide Translate, Direct;
    forall f | f in pages ensures Resolve(s'.mem, s'.root, Direct(hhdm, f, 0)) == Frame(f) {
      assert Resolve(s.mem, s.root, Direct(hhdm, f, 0)) == Frame(f);
    }
  }

  /** A page whose tables are missing is none of the direct map, and mapping it keeps the direct map. */
  lemma NewPageOffDirectMap(s: Vm, levels: map<nat, nat>, hhdm: u64, pages: set<nat>, virt: u64, phys: u64, flags: u8)
    requires Tree(s, levels) && DirectMapped(s, hhdm, pages)
    requires !Translate(s.mem, s.root, virt).LargePage? && Missing(s.mem, s.root, 3, virt) >= 1
    ensures s.window <= FRAMES && DirectMapped(MapPage(s, virt, phys, flags), hhdm, pages)
    ensures OffDirectMap(hhdm, pages, virt)
  {
    TreeFacts(s, levels) by {
      hide DirectMapped, Walk;
    }
    MissingMeansUnmapped(s.mem, s.root, 3, virt);
    MakingTablesKeepsPresent(s, levels, s.root, 3, virt, LeafEntry(phys, flags));
    var s' := MapPage(s, virt, phys, flags);
    hide Tree, KeepsPresent, Direct, MapFrom, Missing, LeafEntry, SamePage, Translate;
    forall f | f in pages
      ensures Resolve(s'.mem, s'.root, Direct(hhdm, f, 0)) == Frame(f) && !SamePage(Direct(hhdm, f, 0), virt)
    {
      DirectAccess(s, levels, hhdm, pages, s'.mem, f, 0);
      assert Resolve(s.mem, s.root, Direct(hhdm, f, 0)) == Frame(f);
      if SamePage(Direct(hhdm, f, 0), virt) {
        SamePageTranslates(s.mem, s.root, Direct(hhdm, f, 0), virt);
      }
    }
  }

  lemma RemappedPagesResolve(s: Vm, s': Vm, hhdm: u64, pages: set<nat>, virt: u64, leaf: u64)
    requires DirectMapped(s, hhdm, pages) && s'.root == s.root && MapsPage(s.mem, s'.mem, s.root, virt, leaf)
    ensures DirectMapped(s', hhdm, pages)
            <==> forall f :: f in pages && SamePage(Direct(hhdm, f, 0), virt) ==> f == FrameOf(leaf)
  {
    hide Direct, Translate, SamePage, FrameOf;
    forall f | f in pages
      ensures Resolve(s'.mem, s'.root, Direct(hhdm, f, 0)) == Frame(f)
              <==> (SamePage(Direct(hhdm, f, 0), virt) ==> f == FrameOf(leaf))
    {
      assert Resolve(s.mem, s.root, Direct(hhdm, f, 0)) == Frame(f);
    }
  }
}
