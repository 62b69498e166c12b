/** What holds over whole runs of the page allocator and the page mapper, and exactly when one
    mapping request leaves the tree of tables sound. */
module MappingRuns {
  import opened Words
  import opened PagePool
  import opened PageTables

  // ---- Running out of pages --------------------------------------------------------------------

  /** Once frame 0 stands in for a table and nothing is free, the rest of the walk stays in frame 0. */
  lemma {:induction false} FrameZeroAbsorbs(s: Vm, level: nat, virt: u64, leaf: u64)
    requires s.window <= FRAMES && 0 in s.busy && level < 4
    requires FreePages(s.busy, s.window) == {}
    requires forall k :: 0 <= k < 512 && Present(s.mem[0][k]) ==> FrameOf(s.mem[0][k]) == 0
    ensures MapFrom(s, 0, level, virt, leaf).busy == s.busy
    ensures forall f: nat :: f != 0 ==> MapFrom(s, 0, level, virt, leaf).mem[f] == s.mem[f]
    decreases level
  {
    if level > 0 {
      var i := Index(virt, level);
      var s1 := EnsureTable(s, 0, i);
      FrameZeroStays(s, i);
      assert MapFrom(s, 0, level, virt, leaf) == MapFrom(s1, 0, level - 1, virt, leaf) by {
        hide EnsureTable;
      }
      hide EnsureTable, FreePages, Index, FrameOf, Present;
      FrameZeroAbsorbs(s1, level - 1, virt, leaf);
    }
  }

  lemma FrameZeroStays(s: Vm, i: nat)
    requires s.window <= FRAMES && 0 in s.busy && FreePages(s.busy, s.window) == {} && i < 512
    requires forall k :: 0 <= k < 512 && Present(s.mem[0][k]) ==> FrameOf(s.mem[0][k]) == 0
    ensures var s1 := EnsureTable(s, 0, i);
            && s1 == s.(mem := s1.mem) && FrameOf(s1.mem[0][i]) == 0
            && (forall k :: 0 <= k < 512 && Present(s1.mem[0][k]) ==> FrameOf(s1.mem[0][k]) == 0)
            && (forall f: nat :: f != 0 ==> s1.mem[f] == s.mem[f])
  {
    TakeMeaning(s.busy, s.window);
  }

  /** The walk of virt from table t passes pointers down to one that names frame 0. */
  ghost predicate HitsZero(mem: Memory, t: nat, level: nat, virt: u64)
    requires level < 4
    decreases level, t
  {
    var i := Index(virt, level);
    && level > 0 && Points(mem, t, i, level)
    && (FrameOf(mem[t][i]) == 0 || HitsZero(mem, FrameOf(mem[t][i]), level - 1, virt))
  }

  /** No sound tree has such a walk, since frame 0 is no table of it. */
  lemma {:induction false} HitsZeroBreaksTree(s: Vm, levels: map<nat, nat>, t: nat, level: nat, virt: u64)
    requires Tree(s, levels) && t in levels && levels[t] == level
    ensures !HitsZero(s.mem, t, level, virt)
    decreases level
  {
    var i := Index(virt, level);
    if level > 0 && Points(s.mem, t, i, level) {
      HitsZeroBreaksTree(s, levels, FrameOf(s.mem[t][i]), level - 1, virt);
    }
  }

  ghost predicate KeepsAbove(mem: Memory, mem': Memory, levels: map<nat, nat>, level: nat) {
    forall f :: f in levels && levels[f] > level ==> mem'[f] == mem[f]
  }

  lemma PuttingKeepsAbove(s: Vm, levels: map<nat, nat>, mem1: Memory, levels1: map<nat, nat>, p: nat, mem': Memory,
                          t: nat, i: nat, level: nat)
    requires Tree(s, levels) && t in levels && levels[t] == level > 0 && i < 512
    requires p !in s.busy && p < FRAMES && PutsTable(s.mem, mem1, t, i, p)
    requires levels1 == levels[p := level - 1] && KeepsAbove(mem1, mem', levels1, level - 1)
    ensures KeepsAbove(s.mem, mem', levels, level) && mem'[t][i] == TableEntry(p)
  {
    hide Tree, TableEntry;
    TreeFacts(s, levels);
  }

  lemma ExhaustedEntryPointsAtFrameZero(s: Vm, levels: map<nat, nat>, t: nat, level: nat, virt: u64, leaf: u64)
    requires Tree(s, levels) && t in levels && levels[t] == level > 0
    requires !Present(s.mem[t][Index(virt, level)]) && FreePages(s.busy, s.window) == {}
    ensures FreePages(MapFrom(s, t, level, virt, leaf).busy, s.window) == {}
    ensures KeepsAbove(s.mem, MapFrom(s, t, level, virt, leaf).mem, levels, level)
    ensures MapFrom(s, t, level, virt, leaf).mem[t][Index(virt, level)] == TableEntry(0)
  {
    var i := Index(virt, level);
    var s1 := s.(mem := PutTable(s.mem, t, i, 0));
    assert level < 4 && s.window <= FRAMES && 0 in s.busy && 0 !in levels;
    hide Tree, Index, FrameOf, Present;
    ExhaustedTable(s, t, i);
    var s' := MapFrom(s1, 0, level - 1, virt, leaf);
    assert MapFrom(s, t, level, virt, leaf) == s' by {
      hide EnsureTable;
    }
    hide EnsureTable, FreePages, TableEntry, MapFrom;
    FrameZeroAbsorbs(s1, level - 1, virt, leaf);
    PuttingZeroKeepsAbove(s.mem, levels, s'.mem, t, i);
  }

  lemma PuttingZeroKeepsAbove(mem: Memory, levels: map<nat, nat>, mem': Memory, t: nat, i: nat)
    requires t != 0 && t in levels && 0 !in levels && i < 512
    requires forall f: nat :: f != 0 ==> mem'[f] == PutTable(mem, t, i, 0)[f]
    ensures KeepsAbove(mem, mem', levels, levels[t]) && mem'[t][i] == TableEntry(0)
  {
  }

  lemma ExhaustedTable(s: Vm, t: nat, i: nat)
    requires i < 512 && s.window <= FRAMES && 0 in s.busy && FreePages(s.busy, s.window) == {}
    requires !Present(s.mem[t][i])
    ensures EnsureTable(s, t, i) == s.(mem := PutTable(s.mem, t, i, 0))
    ensures FrameOf(PutTable(s.mem, t, i, 0)[t][i]) == 0
    ensures t != 0 ==> forall k :: 0 <= k < 512 ==> !Present(PutTable(s.mem, t, i, 0)[0][k])
  {
    TakeMeaning(s.busy, s.window);
  }

  /** With too few free pages the walk takes them all and ends up with a pointer to frame 0. */
  lemma {:induction false} ExhaustionHitsZero(s: Vm, levels: map<nat, nat>, t: nat, level: nat, virt: u64, leaf: u64)
    requires Tree(s, levels) && t in levels && levels[t] == level
    requires !Walk(s.mem, t, level, virt).LargePage?
    requires Missing(s.mem, t, level, virt) > |FreePages(s.busy, s.window)|
    ensures FreePages(MapFrom(s, t, level, virt, leaf).busy, s.window) == {}
    ensures KeepsAbove(s.mem, MapFrom(s, t, level, virt, leaf).mem, levels, level)
    ensures HitsZero(MapFrom(s, t, level, virt, leaf).mem, t, level, virt)
    decreases level, 1
  {
    var i := Index(virt, level);
    var s' := MapFrom(s, t, level, virt, leaf);
    if Present(s.mem[t][i]) {
      var next := FrameOf(s.mem[t][i]);
      assert Points(s.mem, t, i, level);
      assert s' == MapFrom(s, next, level - 1, virt, leaf);
      ExhaustionHitsZero(s, levels, next, level - 1, virt, leaf);
      assert s'.mem[t] == s.mem[t];
    } else if FreePages(s.busy, s.window) == {} {
      ExhaustedEntryPointsAtFrameZero(s, levels, t, level, virt, leaf);
    } else {
      ExhaustionBelowFreshTable(s, levels, t, level, virt, leaf);
    }
  }

  lemma {:induction false} ExhaustionBelowFreshTable(s: Vm, levels: map<nat, nat>, t: nat, level: nat,
                                                     virt: u64, leaf: u64)
    requires Tree(s, levels) && t in levels && levels[t] == level
    requires level - 1 > |FreePages(s.busy, s.window)| - 1 >= 0
    requires !Present(s.mem[t][Index(virt, level)])
    ensures FreePages(MapFrom(s, t, level, virt, leaf).busy, s.window) == {}
    ensures KeepsAbove(s.mem, MapFrom(s, t, level, virt, leaf).mem, levels, level)
    ensures HitsZero(MapFrom(s, t, level, virt, leaf).mem, t, level, virt)
    decreases level, 0
  {
    assert level < 4 && s.window <= FRAMES;
    hide Tree, EnsureTable, FreePages;
    var p, s1, levels1 := WalkEntersFreshTable(s, levels, t, level, virt, leaf);
    ExhaustionHitsZero(s1, levels1, p, level - 1, virt, leaf);
    var s' := MapFrom(s1, p, level - 1, virt, leaf);
    assert MapFrom(s, t, level, virt, leaf) == s';
    PuttingKeepsAbove(s, levels, s1.mem, levels1, p, s'.mem, t, Index(virt, level), level);
  }

  /** Outside frame 0 every entry is as before or points at frame 0. */
  ghost predicate OnlyZeroPointers(mem: Memory, mem': Memory) {
    forall f: nat, i: nat :: f != 0 && i < 512 ==> mem'[f][i] == mem[f][i] || mem'[f][i] == TableEntry(0)
  }

  /** Mapping to frame 0 with an exhausted pool writes nothing else. */
  lemma {:induction false} ExhaustedWrites(s: Vm, t: nat, level: nat, virt: u64)
    requires s.window <= FRAMES && 0 in s.busy && FreePages(s.busy, s.window) == {} && level < 4
    ensures var s' := MapFrom(s, t, level, virt, TableEntry(0));
            s'.busy == s.busy && OnlyZeroPointers(s.mem, s'.mem)
    decreases level
  {
    hide EnsureTable, TableEntry, FreePages, Index, FrameOf, OnlyZeroPointers;
    if level == 0 {
      LeafWrites(s, t, virt);
    } else {
      var i := Index(virt, level);
      var s1 := EnsureTable(s, t, i);
      EnsureWrites(s, t, i);
      ExhaustedWrites(s1, FrameOf(s1.mem[t][i]), level - 1, virt);
      var s' := MapFrom(s1, FrameOf(s1.mem[t][i]), level - 1, virt, TableEntry(0));
      assert MapFrom(s, t, level, virt, TableEntry(0)) == s';
      ZeroPointersTwice(s.mem, s1.mem, s'.mem);
    }
  }

  lemma LeafWrites(s: Vm, t: nat, virt: u64)
    requires s.window <= FRAMES
    ensures var s' := MapFrom(s, t, 0, virt, TableEntry(0));
            s'.busy == s.busy && OnlyZeroPointers(s.mem, s'.mem)
  {
    hide TableEntry, Index;
  }

  lemma EnsureWrites(s: Vm, t: nat, i: nat)
    requires s.window <= FRAMES && 0 in s.busy && FreePages(s.busy, s.window) == {} && i < 512
    ensures var s1 := EnsureTable(s, t, i);
            s1.busy == s.busy && s1.window == s.window && OnlyZeroPointers(s.mem, s1.mem)
  {
    hide TableEntry, FrameOf, FreePages;
    if !Present(s.mem[t][i]) {
      ExhaustedTable(s, t, i);
    }
  }

  lemma ZeroPointersTwice(mem: Memory, mem1: Memory, mem2: Memory)
    requires OnlyZeroPointers(mem, mem1) && OnlyZeroPointers(mem1, mem2)
    ensures OnlyZeroPointers(mem, mem2)
  {
    hide TableEntry;
  }

  lemma {:induction false} HitsZeroStays(mem: Memory, mem': Memory, t: nat, level: nat, virt: u64)
    requires level < 4 && t != 0 && HitsZero(mem, t, level, virt) && OnlyZeroPointers(mem, mem')
    ensures HitsZero(mem', t, level, virt)
    decreases level
  {
    var e := mem[t][Index(virt, level)];
    if FrameOf(e) != 0 {
      HitsZeroStays(mem, mem', FrameOf(e), level - 1, virt);
    }
  }

  /** The condition a caller of vmm_alloc can check: the tree of tables survives the call if and only
      if the pool has a free page for every table missing on the path. The source does not check it. */
  lemma MapPageKeepsTreeIff(s: Vm, levels: map<nat, nat>, virt: u64, phys: u64, flags: u8)
    requires Tree(s, levels) && !Translate(s.mem, s.root, virt).LargePage?
    ensures (exists after :: Tree(MapPage(s, virt, phys, flags), after))
            <==> Missing(s.mem, s.root, 3, virt) <= |FreePages(s.busy, s.window)|
  {
    if Missing(s.mem, s.root, 3, virt) <= |FreePages(s.busy, s.window)| {
      var after := MapPageIsExact(s, levels, virt, phys, flags);
    } else {
      ExhaustionHitsZero(s, levels, s.root, 3, virt, LeafEntry(phys, flags));
      var s' := MapPage(s, virt, phys, flags);
      forall after | Tree(s', after) ensures false {
        HitsZeroBreaksTree(s', after, s.root, 3, virt);
      }
    }
  }

  /** A full pool and an otherwise empty tree: the guard fails and so does the tree. */
  lemma FullPoolExample(mem: Memory, virt: u64, phys: u64, flags: u8)
    requires mem[1] == ZeroTable()
    ensures Tree(Vm(mem, {0, 1}, 2, 1), map[1 := 3])
    ensures !exists after :: Tree(MapPage(Vm(mem, {0, 1}, 2, 1), virt, phys, flags), after)
  {
    var s := Vm(mem, {0, 1}, 2, 1);
    NothingBelowEmptyTable(mem, 1, 3, virt);
    assert FreePages(s.busy, s.window) == {};
    MapPageKeepsTreeIff(s, map[1 := 3], virt, phys, flags);
  }

  // ---- Large pages on the path -----------------------------------------------------------------

  /** The mapper ignores the page-size bit: it takes the first frame of a large page for a table. */
  lemma {:induction false} LargePageFallsThrough(s: Vm, t: nat, level: nat, virt: u64, leaf: u64)
    requires s.window <= FRAMES && 1 <= level < 4 && Walk(s.mem, t, level, virt).LargePage?
    ensures var large := Walk(s.mem, t, level, virt);
            && 1 <= large.level <= 2
            && MapFrom(s, t, level, virt, leaf) == MapFrom(s, FrameOf(large.entry), large.level - 1, virt, leaf)
    decreases level
  {
    hide MapFrom, Walk, Index, FrameOf;
    var entry := s.mem[t][Index(virt, level)];
    OneStepFurther(s, t, level, virt, leaf);
    if !Large(entry, level) {
      LargePageFallsThrough(s, FrameOf(entry), level - 1, virt, leaf);
    }
  }

  lemma OneStepFurther(s: Vm, t: nat, level: nat, virt: u64, leaf: u64)
    requires s.window <= FRAMES && 1 <= level < 4 && Walk(s.mem, t, level, virt).LargePage?
    ensures var entry := s.mem[t][Index(virt, level)];
            && MapFrom(s, t, level, virt, leaf) == MapFrom(s, FrameOf(entry), level - 1, virt, leaf)
            && (Large(entry, level) ==> Walk(s.mem, t, level, virt) == LargePage(level, entry))
            && (!Large(entry, level) ==>
                 level > 1 && Walk(s.mem, t, level, virt) == Walk(s.mem, FrameOf(entry), level - 1, virt))
  {
    assert EnsureTable(s, t, Index(virt, level)) == s;
    hide EnsureTable, Index, FrameOf;
  }

  /** The frame the mapper takes for a table is none, and neither is the one its entry for virt names,
      if the mapper follows that entry too, which it does below a 1 GiB page. */
  ghost predicate MissesTables(mem: Memory, levels: map<nat, nat>, large: Translation, virt: u64)
    requires large.LargePage?
  {
    var x := FrameOf(large.entry);
    var next := mem[x][Index(virt, 1)];
    x !in levels && (large.level == 2 && Present(next) ==> FrameOf(next) !in levels)
  }

  /** What it then overwrites: a word of the data, or one of what the data seems to point at. */
  ghost predicate DataOverwritten(s: Vm, mem': Memory, large: Translation, virt: u64, leaf: u64)
    requires large.LargePage?
  {
    var x := FrameOf(large.entry);
    var next := s.mem[x][Index(virt, 1)];
    if large.level == 1 then mem'[x][Index(virt, 0)] == leaf
    else if Present(next) then mem'[FrameOf(next)][Index(virt, 0)] == leaf
    else Present(mem'[x][Index(virt, 1)])
  }

  lemma WritesData(s: Vm, levels: map<nat, nat>, large: Translation, virt: u64, leaf: u64)
    requires Tree(s, levels) && large.LargePage? && 1 <= large.level <= 2 && Present(leaf)
    requires MissesTables(s.mem, levels, large, virt)
    ensures var s' := MapFrom(s, FrameOf(large.entry), large.level - 1, virt, leaf);
            && (forall f :: f in levels ==> s'.mem[f] == s.mem[f])
            && DataOverwritten(s, s'.mem, large, virt, leaf)
            && (FrameOf(leaf) !in levels ==> MissesTables(s'.mem, levels, large, virt))
  {
    hide Tree, Index, EnsureTable, MapFrom, FrameOf;
    TreeFacts(s, levels);
    if large.level == 2 {
      var mem1, next := WritesBelowGigabyte(s, levels, FrameOf(large.entry), virt, leaf);
    } else {
      WritesLeaf(s, FrameOf(large.entry), virt, leaf);
    }
  }

  lemma WritesLeaf(s: Vm, t: nat, virt: u64, leaf: u64)
    requires s.window <= FRAMES
    ensures MapFrom(s, t, 0, virt, leaf).mem == SetEntry(s.mem, t, Index(virt, 0), leaf)
  {
  }

  /** The two steps below a 1 GiB page. */
  lemma WritesBelowGigabyte(s: Vm, levels: map<nat, nat>, x: nat, virt: u64, leaf: u64) returns (mem1: Memory, next: nat)
    requires Tree(s, levels) && x !in levels
    requires Present(s.mem[x][Index(virt, 1)]) ==> FrameOf(s.mem[x][Index(virt, 1)]) !in levels
    ensures s.window <= FRAMES && forall f :: f in levels ==> mem1[f] == s.mem[f]
    ensures next !in levels && Present(mem1[x][Index(virt, 1)]) && FrameOf(mem1[x][Index(virt, 1)]) == next
    ensures Present(s.mem[x][Index(virt, 1)]) ==> mem1 == s.mem
    ensures MapFrom(s, x, 1, virt, leaf).mem == SetEntry(mem1, next, Index(virt, 0), leaf)
  {
    hide Tree, Index, EnsureTable, FrameOf;
    var i := Index(virt, 1);
    EnsureOutsideTables(s, levels, x, i);
    var s1 := EnsureTable(s, x, i);
    mem1, next := s1.mem, FrameOf(s1.mem[x][i]);
    assert MapFrom(s, x, 1, virt, leaf) == MapFrom(s1, next, 0, virt, leaf);
    hide MapFrom;
    WritesLeaf(s1, next, virt, leaf);
  }

  lemma EnsureOutsideTables(s: Vm, levels: map<nat, nat>, x: nat, i: nat)
    requires Tree(s, levels) && x !in levels && i < 512
    requires Present(s.mem[x][i]) ==> FrameOf(s.mem[x][i]) !in levels
    ensures s.window <= FRAMES
    ensures var s1 := EnsureTable(s, x, i);
            && (forall f :: f in levels ==> s1.mem[f] == s.mem[f])
            && Present(s1.mem[x][i]) && FrameOf(s1.mem[x][i]) !in levels
            && (Present(s.mem[x][i]) ==> s1 == s)
  {
    hide Tree;
    TreeFacts(s, levels);
    TakeMeaning(s.busy, s.window);
  }

  /** Below a large page whose frames are not tables the request is lost: no address changes its
      translation, and data is overwritten. */
  lemma LargePageLosesRequest(s: Vm, levels: map<nat, nat>, virt: u64, phys: u64, flags: u8)
    requires Tree(s, levels) && Translate(s.mem, s.root, virt).LargePage?
    requires MissesTables(s.mem, levels, Translate(s.mem, s.root, virt), virt)
    ensures var s' := MapPage(s, virt, phys, flags);
            && (forall v: u64 :: Translate(s'.mem, s.root, v) == Translate(s.mem, s.root, v))
            && DataOverwritten(s, s'.mem, Translate(s.mem, s.root, virt), virt, LeafEntry(phys, flags))
            && (forall f :: f in levels ==> s'.mem[f] == s.mem[f])
            && (FrameOf(phys) !in levels ==> MissesTables(s'.mem, levels, Translate(s.mem, s.root, virt), virt))
  {
    hide Tree, Index, LeafEntry, MissesTables, DataOverwritten, MapFrom;
    TreeFacts(s, levels);
    var s', leaf := MapPage(s, virt, phys, flags), LeafEntry(phys, flags);
    LargePageFallsThrough(s, s.root, 3, virt, leaf);
    WritesData(s, levels, Translate(s.mem, s.root, virt), virt, leaf);
    forall v: u64 ensures Translate(s'.mem, s.root, v) == Translate(s.mem, s.root, v) {
      WalkReadsTablesOnly(s, levels, s'.mem, s.root, 3, v);
    }
  }

  /** What the mapper leaves to its caller: no large page on the path and a page per missing table. */
  ghost predicate Mappable(s: Vm, virt: u64) {
    && !Translate(s.mem, s.root, virt).LargePage?
    && Missing(s.mem, s.root, 3, virt) <= |FreePages(s.busy, s.window)|
  }

  /** The call did what it is for: the page is mapped, no other translation changed, and a sound tree
      remains. */
  ghost predicate Installed(s: Vm, s': Vm, virt: u64, leaf: u64) {
    && Translate(s'.mem, s.root, virt) == Page(leaf)
    && (forall v: u64 :: !SamePage(v, virt) ==> Translate(s'.mem, s.root, v) == Translate(s.mem, s.root, v))
    && exists after :: Tree(s', after)
  }

  /** Two addresses that select the same entries down to the page directory. */
  predicate SameDirectoryEntry(v: u64, w: u64) {
    Index(v, 3) == Index(w, 3) && Index(v, 2) == Index(w, 2) && Index(v, 1) == Index(w, 1)
  }

  /** The page after v's, or the first of its 2 MiB region if v's is the last. */
  function NeighbourPage(v: u64): (w: u64)
    ensures w / 0x20_0000 == v / 0x20_0000 && Index(w, 0) == (Index(v, 0) + 1) % 512
  {
    PageOfRegion(v / 0x20_0000, (Index(v, 0) + 1) % 512);
    v / 0x20_0000 * 0x20_0000 + (Index(v, 0) + 1) % 512 * PAGE_SIZE
  }

  lemma NeighbourShares(v: u64)
    ensures SameDirectoryEntry(v, NeighbourPage(v)) && !SamePage(v, NeighbourPage(v))
  {
    var w := NeighbourPage(v);
    hide Index, PageNumber, NeighbourPage, SameBelow;
    SameRegion(v, w);
    FourIndices(v, w);
    SamePageMeansSameIndices(v, w);
  }

  lemma PageOfRegion(q: nat, i: nat)
    requires i < 512
    ensures var a := q * 0x20_0000 + i * PAGE_SIZE; a / 0x20_0000 == q && a / PAGE_SIZE % 512 == i
  {
    assert (q * 0x20_0000 + i * PAGE_SIZE) / PAGE_SIZE == q * 512 + i;
  }

  lemma SameRegion(v: u64, w: u64)
    requires v / 0x20_0000 == w / 0x20_0000
    ensures SameDirectoryEntry(v, w)
  {
    ShiftsNest(v);
    ShiftsNest(w);
  }

  /** Such addresses lie in the same large page, if one of them lies in one, whatever memory holds. */
  lemma {:induction false} LargePageShared(mem: Memory, t: nat, level: nat, v: u64, w: u64)
    requires level < 4 && SameDirectoryEntry(v, w) && Walk(mem, t, level, v).LargePage?
    ensures Walk(mem, t, level, w) == Walk(mem, t, level, v)
    decreases level
  {
    var e := mem[t][Index(v, level)];
    if !Large(e, level) {
      LargePageShared(mem, FrameOf(e), level - 1, v, w);
    }
  }

  /** So no call can turn a large page into the requested page and leave all other translations alone. */
  lemma LargePageNotInstalled(s: Vm, s': Vm, virt: u64, leaf: u64)
    requires Translate(s.mem, s.root, virt).LargePage? && s'.root == s.root
    ensures !Installed(s, s', virt, leaf)
  {
    var w := NeighbourPage(virt);
    NeighbourShares(virt);
    LargePageShared(s.mem, s.root, 3, virt, w);
    if Translate(s'.mem, s.root, w).LargePage? {
      LargePageShared(s'.mem, s.root, 3, w, virt);
    }
  }

  /** vmm_alloc does what it is for if and only if there is no large page on the path and the pool has a
      page for every missing table: both can be read off the state before the call, and the source looks
      at neither. */
  lemma MapPageInstallsIff(s: Vm, levels: map<nat, nat>, virt: u64, phys: u64, flags: u8)
    requires Tree(s, levels)
    ensures Installed(s, MapPage(s, virt, phys, flags), virt, LeafEntry(phys, flags)) <==> Mappable(s, virt)
  {
    hide Tree, MapPage, Walk, Missing;
    TreeFacts(s, levels);
    assert SamePage(virt, virt);
    if Translate(s.mem, s.root, virt).LargePage? {
      LargePageNotInstalled(s, MapPage(s, virt, phys, flags), virt, LeafEntry(phys, flags));
    } else {
      MapPageKeepsTreeIff(s, levels, virt, phys, flags);
      if Mappable(s, virt) {
        var after := MapPageIsExact(s, levels, virt, phys, flags);
      }
    }
  }

  /** A root in frame 1 and a table in frame 2 that maps 1 GiB from frame 0 on at LARGE_BASE. */
  const LARGE_BASE: u64 := 0xFFFF_9000_0000_0000

  ghost predicate MapsOneGigabyte(mem: Memory) {
    mem[1] == ZeroTable()[288 := TableEntry(2)] && mem[2] == ZeroTable()[0 := 0x83]
  }

  lemma OneGigabyteTree(mem: Memory, window: nat)
    requires MapsOneGigabyte(mem) && window <= FRAMES
    ensures Tree(Vm(mem, {0, 1, 2}, window, 1), map[1 := 3, 2 := 2])
  {
    var levels := map[1 := 3, 2 := 2];
    forall t, i: nat | t in levels && i < 512 && Points(mem, t, i, levels[t])
      ensures t == 1 && i == 288 && FrameOf(mem[t][i]) == 2
    {
    }
    hide Points, FrameOf, MapsOneGigabyte;
  }

  lemma OneGigabyteReads(mem: Memory, v: u64)
    requires MapsOneGigabyte(mem)
    ensures Translate(mem, 1, v) == if Index(v, 3) == 288 && Index(v, 2) == 0 then LargePage(2, 0x83) else Unmapped
  {
    var t := TableEntry(2);
    assert mem[1][Index(v, 3)] == if Index(v, 3) == 288 then t else 0;
    assert mem[2][Index(v, 2)] == if Index(v, 2) == 0 then 0x83 else 0;
    hide Index, TableEntry;
    assert Walk(mem, 2, 2, v) == if Index(v, 2) == 0 then LargePage(2, 0x83) else Unmapped;
  }

  /** There a request for the page at LARGE_BASE + 0x20_0000 changes no translation. */
  lemma LargePageExample(mem: Memory, phys: u64, flags: u8)
    requires MapsOneGigabyte(mem) && !Present(mem[0][1])
    ensures var s := Vm(mem, {0, 1, 2}, 1024, 1);
            var s' := MapPage(s, LARGE_BASE + 0x20_0000, phys, flags);
            && Translate(s.mem, 1, LARGE_BASE + 0x20_0000) == LargePage(2, 0x83)
            && forall v: u64 :: Translate(s'.mem, 1, v) == Translate(mem, 1, v)
  {
    var s, levels, virt := Vm(mem, {0, 1, 2}, 1024, 1), map[1 := 3, 2 := 2], LARGE_BASE + 0x20_0000;
    OneGigabyteTree(mem, 1024);
    OneGigabyteReads(mem, virt);
    assert Index(virt, 3) == 288 && Index(virt, 2) == 0 && Index(virt, 1) == 1 && FrameOf(0x83) == 0;
    assert MissesTables(mem, levels, LargePage(2, 0x83), virt);
    hide Tree, MapsOneGigabyte, Index, FrameOf, Translate, MapPage;
    LargePageLosesRequest(s, levels, virt, phys, flags);
  }

  // ---- Runs ------------------------------------------------------------------------------------

  datatype Op = TakePage | Map(virt: u64, phys: u64, flags: u8)

  ghost function Apply(s: Vm, op: Op): (r: Vm)
    requires s.window <= FRAMES
    ensures r.window == s.window && r.root == s.root
  {
    match op
    case TakePage => s.(busy := Take(s.busy, s.window).busy)
    case Map(virt, phys, flags) => MapPage(s, virt, phys, flags)
  }

  ghost predicate Enabled(s: Vm, op: Op) {
    op.Map? ==> Mappable(s, op.virt)
  }

  ghost function Run(s: Vm, ops: seq<Op>): (r: Vm)
    requires s.window <= FRAMES
    ensures r.window == s.window && r.root == s.root
    decreases |ops|
  {
    if ops == [] then s else Run(Apply(s, ops[0]), ops[1..])
  }

  ghost predicate RunEnabled(s: Vm, ops: seq<Op>)
    requires s.window <= FRAMES
    decreases |ops|
  {
    ops != [] ==> Enabled(s, ops[0]) && RunEnabled(Apply(s, ops[0]), ops[1..])
  }

  /** The pages out on loan after one more operation, and after a run. */
  ghost function LentAfter(s: Vm, lent: set<nat>, op: Op): set<nat> {
    var addr := Take(s.busy, s.window).addr;
    if op.TakePage? && addr != 0 then lent + {addr / PAGE_SIZE} else lent
  }

  ghost function Lent(s: Vm, lent: set<nat>, ops: seq<Op>): set<nat>
    requires s.window <= FRAMES
    decreases |ops|
  {
    if ops == [] then lent else Lent(Apply(s, ops[0]), LentAfter(s, lent, ops[0]), ops[1..])
  }

  /** A sound tree, and pages out on loan that are busy and not tables. */
  ghost predicate Separate(s: Vm, levels: map<nat, nat>, lent: set<nat>) {
    && Tree(s, levels)
    && forall p :: p in lent ==> p != 0 && p in s.busy && p !in levels
  }

  /** No operation maps the page of v. */
  predicate Untouched(ops: seq<Op>, v: u64) {
    forall i :: 0 <= i < |ops| ==> ops[i].TakePage? || !SamePage(v, ops[i].virt)
  }

  lemma StepKeepsSeparation(s: Vm, levels: map<nat, nat>, lent: set<nat>, op: Op) returns (levels': map<nat, nat>)
    requires Separate(s, levels, lent) && Enabled(s, op)
    ensures Separate(Apply(s, op), levels', LentAfter(s, lent, op))
    ensures forall p :: p in lent ==> Apply(s, op).mem[p] == s.mem[p]
    ensures forall v: u64 :: (op.TakePage? || !SamePage(v, op.virt)) ==>
              Translate(Apply(s, op).mem, s.root, v) == Translate(s.mem, s.root, v)
  {
    match op
    case TakePage =>
      TakeMeaning(s.busy, s.window);
      levels' := levels;
    case Map(virt, phys, flags) =>
      levels' := MapPageIsExact(s, levels, virt, phys, flags);
  }

  /** Every run of allocations and mappings keeps the tree sound and apart from all lent pages, and never
      writes to a lent page. */
  lemma {:induction false} RunKeepsSeparation(s: Vm, levels: map<nat, nat>, lent: set<nat>, ops: seq<Op>)
    returns (levels': map<nat, nat>)
    requires Separate(s, levels, lent) && RunEnabled(s, ops)
    ensures Separate(Run(s, ops), levels', Lent(s, lent, ops))
    ensures forall p :: p in lent ==> p in Lent(s, lent, ops) && Run(s, ops).mem[p] == s.mem[p]
    decreases |ops|
  {
    if ops == [] {
      levels' := levels;
    } else {
      var levels1 := StepKeepsSeparation(s, levels, lent, ops[0]);
      levels' := RunKeepsSeparation(Apply(s, ops[0]), levels1, LentAfter(s, lent, ops[0]), ops[1..]);
    }
  }

  /** Every run leaves the translation, mapped or not, of each address that it was not asked to map: the
      direct map through which the source reaches its tables is such a set of addresses. */
  lemma {:induction false} RunKeepsTranslation(s: Vm, levels: map<nat, nat>, lent: set<nat>, ops: seq<Op>, v: u64)
    requires Separate(s, levels, lent) && RunEnabled(s, ops) && Untouched(ops, v)
    ensures Translate(Run(s, ops).mem, s.root, v) == Translate(s.mem, s.root, v)
    decreases |ops|
  {
    if ops != [] {
      var levels1 := StepKeepsSeparation(s, levels, lent, ops[0]);
      RunKeepsTranslation(Apply(s, ops[0]), levels1, LentAfter(s, lent, ops[0]), ops[1..], v);
    }
  }
}
