/** What vmm_alloc does to translations when nothing is free: every table that is missing is frame 0, cleared
    again for each. */
module Exhaustion {
  import opened Words
  import opened PagePool
  import opened PageTables
  import opened MappingRuns

  /** The last table on virt's path; its entry for virt, at level `Missing`, is absent. */
  ghost function DeepestTable(mem: Memory, t: nat, level: nat, virt: u64): nat
    requires level < 4
    decreases level, t
  {
    var e := mem[t][Index(virt, level)];
    if level == 0 || !Present(e) then t else DeepestTable(mem, FrameOf(e), level - 1, virt)
  }

  /** Frame 0 after it has served as the m lower tables: the last clearing leaves room for one pointer and
      the leaf, in this order. */
  function FrameZeroTable(m: nat, virt: u64, leaf: u64): Table {
    (if m == 1 then ZeroTable() else ZeroTable()[Index(virt, 1) := TableEntry(0)])[Index(virt, 0) := leaf]
  }

  /** Memory after a call for which m tables were missing below table d. */
  function UseFrameZero(mem: Memory, d: nat, m: nat, virt: u64, leaf: u64): Memory
    requires 1 <= m < 4
  {
    SetEntry(mem, d, Index(virt, m), TableEntry(0))[0 := FrameZeroTable(m, virt, leaf)]
  }

  // ---- The walk in frame 0 ---------------------------------------------------------------------

  lemma LeafInFrameZero(s: Vm, virt: u64, leaf: u64)
    requires s.window <= FRAMES
    ensures MapFrom(s, 0, 0, virt, leaf) == s.(mem := s.mem[0 := s.mem[0][Index(virt, 0) := leaf]])
  {
    hide Index;
  }

  /** As the lowest pointer table, frame 0 ends up with the pointer and the leaf and nothing else. */
  lemma PointerInFrameZero(s: Vm, virt: u64, leaf: u64)
    requires s.window <= FRAMES && 0 in s.busy && FreePages(s.busy, s.window) == {}
    requires Present(s.mem[0][Index(virt, 1)]) ==> s.mem[0] == ZeroTable()[Index(virt, 1) := TableEntry(0)]
    ensures MapFrom(s, 0, 1, virt, leaf) == s.(mem := s.mem[0 := FrameZeroTable(3, virt, leaf)])
  {
    hide FreePages, Index, Present, TableEntry, MapFrom, PutTable;
    var i := Index(virt, 1);
    var s1 := s.(mem := s.mem[0 := ZeroTable()[i := TableEntry(0)]]);
    if Present(s.mem[0][i]) {
      StaysInFrameZero(s, virt, leaf);
      assert s1.mem == s.mem;
    } else {
      EntersFrameZero(s, 0, 1, virt, leaf);
      PutInFrameZero(s.mem, i);
    }
    LeafInFrameZero(s1, virt, leaf);
    FrameZeroAgain(s.mem, s1.mem[0], FrameZeroTable(3, virt, leaf));
  }

  lemma StaysInFrameZero(s: Vm, virt: u64, leaf: u64)
    requires s.window <= FRAMES && s.mem[0][Index(virt, 1)] == TableEntry(0)
    ensures MapFrom(s, 0, 1, virt, leaf) == MapFrom(s, 0, 0, virt, leaf)
  {
    hide Index;
    assert EnsureTable(s, 0, Index(virt, 1)) == s;
    hide EnsureTable;
  }

  /** From the cleared frame 0 down. */
  lemma WalkInFrameZero(s: Vm, level: nat, virt: u64, leaf: u64)
    requires s.window <= FRAMES && 0 in s.busy && FreePages(s.busy, s.window) == {}
    requires level < 3 && s.mem[0] == ZeroTable()
    ensures MapFrom(s, 0, level, virt, leaf) == s.(mem := s.mem[0 := FrameZeroTable(level + 1, virt, leaf)])
  {
    assert !Present(0);
    hide FreePages, Index, TableEntry, MapFrom, Present;
    if level == 0 {
      LeafInFrameZero(s, virt, leaf);
    } else if level == 1 {
      PointerInFrameZero(s, virt, leaf);
    } else {
      TwoPointersInFrameZero(s, virt, leaf);
    }
  }

  /** Below the root, the second clearing leaves no trace of the first pointer unless the two coincide. */
  lemma TwoPointersInFrameZero(s: Vm, virt: u64, leaf: u64)
    requires s.window <= FRAMES && 0 in s.busy && FreePages(s.busy, s.window) == {} && s.mem[0] == ZeroTable()
    ensures MapFrom(s, 0, 2, virt, leaf) == s.(mem := s.mem[0 := FrameZeroTable(3, virt, leaf)])
  {
    hide FreePages, Index, TableEntry, MapFrom, Present, PutTable, FrameZeroTable;
    var s1 := s.(mem := s.mem[0 := ZeroTable()[Index(virt, 2) := TableEntry(0)]]);
    ZeroIsAbsent();
    EntersFrameZero(s, 0, 2, virt, leaf);
    PutInFrameZero(s.mem, Index(virt, 2));
    PointerInFrameZero(s1, virt, leaf);
    FrameZeroAgain(s.mem, s1.mem[0], FrameZeroTable(3, virt, leaf));
  }

  lemma ZeroIsAbsent()
    ensures !Present(0)
  {
  }

  lemma PutInFrameZero(mem: Memory, i: nat)
    requires i < 512
    ensures PutTable(mem, 0, i, 0) == mem[0 := ZeroTable()[i := TableEntry(0)]]
  {
    hide TableEntry;
  }

  lemma FrameZeroAgain(mem: Memory, a: Table, b: Table)
    ensures mem[0 := a][0 := b] == mem[0 := b]
  {
  }

  lemma {:induction false} ExhaustedWalk(s: Vm, t: nat, level: nat, virt: u64, leaf: u64)
    requires s.window <= FRAMES && 0 in s.busy && FreePages(s.busy, s.window) == {}
    requires level < 4 && Missing(s.mem, t, level, virt) >= 1 && DeepestTable(s.mem, t, level, virt) != 0
    ensures MapFrom(s, t, level, virt, leaf)
            == s.(mem := UseFrameZero(s.mem, DeepestTable(s.mem, t, level, virt), Missing(s.mem, t, level, virt),
                                      virt, leaf))
    decreases level
  {
    var e := s.mem[t][Index(virt, level)];
    if Present(e) {
      assert EnsureTable(s, t, Index(virt, level)) == s;
      hide EnsureTable, UseFrameZero, FreePages, Index, FrameOf;
      ExhaustedWalk(s, FrameOf(e), level - 1, virt, leaf);
    } else {
      ExhaustedBelow(s, t, level, virt, leaf);
    }
  }

  lemma ExhaustedBelow(s: Vm, t: nat, level: nat, virt: u64, leaf: u64)
    requires s.window <= FRAMES && 0 in s.busy && FreePages(s.busy, s.window) == {}
    requires 1 <= level < 4 && t != 0 && !Present(s.mem[t][Index(virt, level)])
    ensures MapFrom(s, t, level, virt, leaf) == s.(mem := UseFrameZero(s.mem, t, level, virt, leaf))
  {
    hide FreePages, MapFrom, FrameZeroTable, TableEntry, Index;
    var s1 := s.(mem := PutTable(s.mem, t, Index(virt, level), 0));
    EntersFrameZero(s, t, level, virt, leaf);
    WalkInFrameZero(s1, level - 1, virt, leaf);
    assert s1.mem[0 := FrameZeroTable(level, virt, leaf)] == UseFrameZero(s.mem, t, level, virt, leaf);
  }

  lemma EntersFrameZero(s: Vm, t: nat, level: nat, virt: u64, leaf: u64)
    requires s.window <= FRAMES && 0 in s.busy && FreePages(s.busy, s.window) == {}
    requires 1 <= level < 4 && !Present(s.mem[t][Index(virt, level)])
    ensures var s1 := s.(mem := PutTable(s.mem, t, Index(virt, level), 0));
            && MapFrom(s, t, level, virt, leaf) == MapFrom(s1, 0, level - 1, virt, leaf)
            && (t != 0 ==> s1.mem[0] == ZeroTable())
  {
    var i := Index(virt, level);
    ExhaustedTable(s, t, i);
    var s1 := EnsureTable(s, t, i);
    hide EnsureTable, FreePages, Index, FrameOf, TableEntry;
    assert MapFrom(s, t, level, virt, leaf) == MapFrom(s1, FrameOf(s1.mem[t][i]), level - 1, virt, leaf);
    hide MapFrom;
  }

  // ---- Paths after such calls ------------------------------------------------------------------

  /** As long as the present entries of the tree are kept, the path is the same down to that table. */
  lemma {:induction false} PathKept(s: Vm, levels: map<nat, nat>, mem: Memory, t: nat, level: nat, virt: u64)
    requires Tree(s, levels) && t in levels && levels[t] == level && KeepsPresent(s, levels, mem)
    requires !Walk(s.mem, t, level, virt).LargePage? && Missing(s.mem, t, level, virt) >= 1
    ensures var m, d := Missing(s.mem, t, level, virt), DeepestTable(s.mem, t, level, virt);
            && d in levels && levels[d] == m && !Present(s.mem[d][Index(virt, m)])
            && Walk(mem, t, level, virt) == Walk(mem, d, m, virt)
            && (!Present(mem[d][Index(virt, m)]) ==>
                 DeepestTable(mem, t, level, virt) == d && Missing(mem, t, level, virt) == m)
    decreases level
  {
    var i := Index(virt, level);
    if Present(s.mem[t][i]) {
      assert Points(s.mem, t, i, level) && mem[t][i] == s.mem[t][i];
      PathKept(s, levels, mem, FrameOf(s.mem[t][i]), level - 1, virt);
    }
  }

  /** virt's path lacks tables and has no large page on it. */
  ghost predicate LacksTables(s: Vm, virt: u64) {
    Missing(s.mem, s.root, 3, virt) >= 1 && !Translate(s.mem, s.root, virt).LargePage?
  }

  ghost function LastTable(s: Vm, virt: u64): nat {
    DeepestTable(s.mem, s.root, 3, virt)
  }

  ghost function Lacking(s: Vm, virt: u64): (m: nat)
    ensures m < 4
  {
    Missing(s.mem, s.root, 3, virt)
  }

  /** The entry under which tables are missing. */
  ghost function LastEntry(s: Vm, mem: Memory, virt: u64): u64 {
    mem[LastTable(s, virt)][Index(virt, Lacking(s, virt))]
  }

  lemma LastTableFacts(s: Vm, levels: map<nat, nat>, virt: u64)
    requires Tree(s, levels) && LacksTables(s, virt)
    ensures s.window <= FRAMES && 0 in s.busy && s.root in levels && levels[s.root] == 3
    ensures KeepsPresent(s, levels, s.mem)
    ensures LastTable(s, virt) in levels && levels[LastTable(s, virt)] == Lacking(s, virt) >= 1
    ensures LastTable(s, virt) != 0 && !Present(LastEntry(s, s.mem, virt))
  {
    hide Tree, Walk;
    TreeFacts(s, levels);
    PathKept(s, levels, s.mem, s.root, 3, virt);
  }

  /** A call for virt in a memory that has all the tree's present entries, and nothing yet under that entry. */
  lemma ExhaustedCall(s: Vm, levels: map<nat, nat>, mem: Memory, virt: u64, leaf: u64)
    requires Tree(s, levels) && FreePages(s.busy, s.window) == {} && KeepsPresent(s, levels, mem)
    requires LacksTables(s, virt) && !Present(LastEntry(s, mem, virt))
    ensures s.window <= FRAMES && Lacking(s, virt) >= 1
    ensures var mem' := UseFrameZero(mem, LastTable(s, virt), Lacking(s, virt), virt, leaf);
            && MapFrom(s.(mem := mem), s.root, 3, virt, leaf) == s.(mem := mem') && KeepsPresent(s, levels, mem')
  {
    hide Tree, Walk, FreePages, MapFrom, Index, KeepsPresent;
    LastTableFacts(s, levels, virt);
    PathKept(s, levels, mem, s.root, 3, virt);
    ExhaustedWalk(s.(mem := mem), s.root, 3, virt, leaf);
    FrameZeroKeepsPresent(s, levels, mem, virt, leaf);
  }

  lemma FrameZeroKeepsPresent(s: Vm, levels: map<nat, nat>, mem: Memory, virt: u64, leaf: u64)
    requires Tree(s, levels) && KeepsPresent(s, levels, mem) && LacksTables(s, virt)
    requires !Present(LastEntry(s, s.mem, virt))
    ensures KeepsPresent(s, levels, UseFrameZero(mem, LastTable(s, virt), Lacking(s, virt), virt, leaf))
  {
    hide Tree, LastTable, Lacking, FrameZeroTable, Index, TableEntry;
    TreeFacts(s, levels);
  }

  /** What virt reads when its last entry points at frame 0. */
  lemma ReadThroughFrameZero(s: Vm, levels: map<nat, nat>, mem: Memory, virt: u64)
    requires Tree(s, levels) && KeepsPresent(s, levels, mem) && LacksTables(s, virt)
    requires LastEntry(s, mem, virt) == TableEntry(0)
    ensures Lacking(s, virt) >= 1 && Translate(mem, s.root, virt) == Walk(mem, 0, Lacking(s, virt) - 1, virt)
  {
    hide Tree, KeepsPresent;
    TreeFacts(s, levels);
    PathKept(s, levels, mem, s.root, 3, virt);
    hide Missing, DeepestTable, Index, LacksTables;
    assert Translate(mem, s.root, virt) == Walk(mem, LastTable(s, virt), Lacking(s, virt), virt);
  }

  // ---- What the call maps ----------------------------------------------------------------------

  /** What virt reads from frame 0 on, when frame 0 is all of the m lower tables. */
  lemma FrameZeroReads(mem: Memory, m: nat, virt: u64, leaf: u64)
    requires 1 <= m < 4 && mem[0] == FrameZeroTable(m, virt, leaf) && Present(leaf)
    ensures m == 1 || (m == 2 && Index(virt, 1) != Index(virt, 0)) ==> Walk(mem, 0, m - 1, virt) == Page(leaf)
    ensures m == 3 && Index(virt, 2) != Index(virt, 0) ==>
              Walk(mem, 0, 2, virt) == if Index(virt, 2) == Index(virt, 1) then Page(leaf) else Unmapped
    ensures m > 1 && Index(virt, m - 1) == Index(virt, 0) ==>
              Walk(mem, 0, m - 1, virt)
              == if Large(leaf, m - 1) then LargePage(m - 1, leaf) else Walk(mem, FrameOf(leaf), m - 2, virt)
  {
    hide Index;
    assert !Present(0);
    if Index(virt, 1) != Index(virt, 0) && m > 1 {
      assert mem[0][Index(virt, 1)] == TableEntry(0) && mem[0][Index(virt, 0)] == leaf;
      assert Walk(mem, 0, 1, virt) == Walk(mem, 0, 0, virt) == Page(leaf);
    }
  }

  /** From frame f at this level, virt's path ends in the leaf, or gets to frame 0. */
  ghost predicate LeadsTo(mem: Memory, f: nat, level: nat, virt: u64, leaf: u64)
    requires level < 4
    decreases level, f
  {
    var e := mem[f][Index(virt, level)];
    || f == 0
    || if level == 0 then e == leaf
       else Present(e) && !Large(e, level) && LeadsTo(mem, FrameOf(e), level - 1, virt, leaf)
  }

  lemma BottomReads(mem: Memory, d: nat, m: nat, virt: u64, leaf: u64, f: nat)
    requires 1 <= m < 4 && d != 0 && !Present(mem[d][Index(virt, m)]) && Present(leaf)
    requires f != 0 ==> FrameOf(leaf) != 0
    ensures Walk(UseFrameZero(mem, d, m, virt, leaf), f, 0, virt) == Page(leaf) <==> LeadsTo(mem, f, 0, virt, leaf)
  {
    hide Index, Large;
    assert FrameOf(TableEntry(0)) == 0;
  }

  lemma MiddleReads(mem: Memory, d: nat, virt: u64, leaf: u64, f: nat)
    requires d != 0 && !Present(mem[d][Index(virt, 3)]) && Present(leaf) && !Large(leaf, 1)
    requires f == FrameOf(leaf)
    ensures Walk(UseFrameZero(mem, d, 3, virt, leaf), f, 1, virt) == Page(leaf)
            <==> (f == d && Index(virt, 1) == Index(virt, 3)) || LeadsTo(mem, f, 1, virt, leaf)
  {
    var mem' := UseFrameZero(mem, d, 3, virt, leaf);
    var e := mem'[f][Index(virt, 1)];
    BottomReads(mem, d, 3, virt, leaf, 0);
    BottomReads(mem, d, 3, virt, leaf, FrameOf(e));
  }

  /** Whether the first call out of pages maps its page, read off the state before it. With one table missing
      it does. With more, frame 0 is several tables at once, and the entries of virt in them must not get in
      each other's way; where the leaf itself is taken for a pointer, its frame is taken for a table. */
  ghost predicate ExhaustedCallMaps(s: Vm, virt: u64, leaf: u64) {
    var m, f := Lacking(s, virt), FrameOf(leaf);
    || m <= 1
    || (m == 2 && (Index(virt, 1) != Index(virt, 0) || (!Large(leaf, 1) && LeadsTo(s.mem, f, 0, virt, leaf))))
    || (m == 3 && if Index(virt, 2) != Index(virt, 0) then Index(virt, 2) == Index(virt, 1)
                  else && !Large(leaf, 2)
                       && ((f == s.root && Index(virt, 1) == Index(virt, 3)) || LeadsTo(s.mem, f, 1, virt, leaf)))
  }

  /** Out of pages, the call maps its page exactly then. */
  lemma ExhaustedCallMapsIff(s: Vm, levels: map<nat, nat>, virt: u64, phys: u64, flags: u8)
    requires Tree(s, levels) && FreePages(s.busy, s.window) == {} && !Translate(s.mem, s.root, virt).LargePage?
    ensures Translate(MapPage(s, virt, phys, flags).mem, s.root, virt) == Page(LeafEntry(phys, flags))
            <==> ExhaustedCallMaps(s, virt, LeafEntry(phys, flags))
  {
    hide Tree, Translate, LeafEntry, MapPage, FreePages, Index;
    TreeFacts(s, levels);
    if Lacking(s, virt) == 0 {
      assert SamePage(virt, virt);
      var levels' := MapPageIsExact(s, levels, virt, phys, flags);
    } else {
      hide MapsPage, ExhaustedCallMaps;
      FirstExhaustedCall(s, levels, virt, phys, flags);
      FrameZeroMapsIff(s, levels, virt, LeafEntry(phys, flags));
    }
  }

  /** The call's memory, and where virt's walk goes in it. */
  lemma FirstExhaustedCall(s: Vm, levels: map<nat, nat>, virt: u64, phys: u64, flags: u8)
    requires Tree(s, levels) && FreePages(s.busy, s.window) == {} && LacksTables(s, virt)
    ensures s.window <= FRAMES && Lacking(s, virt) >= 1
    ensures var m := Lacking(s, virt);
            var mem' := UseFrameZero(s.mem, LastTable(s, virt), m, virt, LeafEntry(phys, flags));
            && MapPage(s, virt, phys, flags) == s.(mem := mem') && KeepsPresent(s, levels, mem')
            && Translate(mem', s.root, virt) == Walk(mem', 0, m - 1, virt)
  {
    hide Tree, Translate, LeafEntry, FreePages, Index, LastTable, KeepsPresent, LacksTables, MapFrom;
    LastTableFacts(s, levels, virt);
    ExhaustedCall(s, levels, s.mem, virt, LeafEntry(phys, flags));
    var mem' := UseFrameZero(s.mem, LastTable(s, virt), Lacking(s, virt), virt, LeafEntry(phys, flags));
    ReadThroughFrameZero(s, levels, mem', virt);
  }

  lemma FrameZeroMapsIff(s: Vm, levels: map<nat, nat>, virt: u64, leaf: u64)
    requires Tree(s, levels) && LacksTables(s, virt) && Present(leaf) && Lacking(s, virt) >= 1
    ensures var m := Lacking(s, virt);
            Walk(UseFrameZero(s.mem, LastTable(s, virt), m, virt, leaf), 0, m - 1, virt) == Page(leaf)
            <==> ExhaustedCallMaps(s, virt, leaf)
  {
    var m, d, f := Lacking(s, virt), LastTable(s, virt), FrameOf(leaf);
    var mem' := UseFrameZero(s.mem, d, m, virt, leaf);
    LastTableFacts(s, levels, virt);
    RootLacksThree(s, virt);
    hide Tree, Lacking, LastTable, LacksTables, Index, Walk, UseFrameZero, LeadsTo, FrameZeroTable;
    assert mem'[0] == FrameZeroTable(m, virt, leaf) by {
      FrameZeroIs(s.mem, d, m, virt, leaf);
    }
    FrameZeroReads(mem', m, virt, leaf);
    if m == 2 {
      BottomReads(s.mem, d, m, virt, leaf, f);
    } else if m == 3 && !Large(leaf, 1) {
      MiddleReads(s.mem, d, virt, leaf, f);
    }
  }

  lemma FrameZeroIs(mem: Memory, d: nat, m: nat, virt: u64, leaf: u64)
    requires 1 <= m < 4
    ensures UseFrameZero(mem, d, m, virt, leaf)[0] == FrameZeroTable(m, virt, leaf)
  {
  }

  lemma RootLacksThree(s: Vm, virt: u64)
    ensures Lacking(s, virt) == 3 ==> LastTable(s, virt) == s.root
  {
  }

  /** s1 is s with the pages of its pool made the upper ones of the tables that virt lacks below table t. */
  ghost predicate DriedUp(s: Vm, levels: map<nat, nat>, s1: Vm, levels1: map<nat, nat>,
                          t: nat, level: nat, virt: u64, leaf: u64)
    requires level < 4 && s.window <= FRAMES
  {
    && Tree(s1, levels1) && s1.root == s.root && s1.window == s.window && FreePages(s1.busy, s.window) == {}
    && !Walk(s1.mem, t, level, virt).LargePage?
    && Missing(s1.mem, t, level, virt) == Missing(s.mem, t, level, virt) - |FreePages(s.busy, s.window)|
    && MapFrom(s1, t, level, virt, leaf) == MapFrom(s, t, level, virt, leaf)
    && (forall f :: f in levels ==> f in levels1 && levels1[f] == levels[f])
    && KeepsAbove(s.mem, s1.mem, levels, level)
  }

  /** A call that finds too few pages uses them up for the upper tables first; what is left to do is a call out
      of pages, in the state with those tables made. */
  lemma {:induction false} PoolRunsDry(s: Vm, levels: map<nat, nat>, t: nat, level: nat, virt: u64, leaf: u64)
    returns (s1: Vm, levels1: map<nat, nat>)
    requires Tree(s, levels) && t in levels && levels[t] == level && !Walk(s.mem, t, level, virt).LargePage?
    requires Missing(s.mem, t, level, virt) > |FreePages(s.busy, s.window)|
    ensures s.window <= FRAMES && DriedUp(s, levels, s1, levels1, t, level, virt, leaf)
    decreases level
  {
    hide Tree, EnsureTable, FreePages, Index, FrameOf, KeepsAbove, DriedUp, MapFrom;
    TreeFacts(s, levels);
    var i := Index(virt, level);
    if FreePages(s.busy, s.window) == {} {
      s1, levels1 := s, levels;
      AlreadyDry(s, levels, t, level, virt, leaf);
    } else if Present(s.mem[t][i]) {
      TreeStep(s, levels, t, i);
      s1, levels1 := PoolRunsDry(s, levels, FrameOf(s.mem[t][i]), level - 1, virt, leaf);
      DriedBelowPointer(s, levels, s1, levels1, t, level, virt, leaf);
    } else {
      var p, s2, levels2 := WalkEntersFreshTable(s, levels, t, level, virt, leaf);
      s1, levels1 := PoolRunsDry(s2, levels2, p, level - 1, virt, leaf);
      DriedBelowFreshTable(s, levels, p, s2, levels2, s1, levels1, t, level, virt, leaf);
    }
  }

  lemma AlreadyDry(s: Vm, levels: map<nat, nat>, t: nat, level: nat, virt: u64, leaf: u64)
    requires level < 4 && s.window <= FRAMES && Tree(s, levels) && FreePages(s.busy, s.window) == {}
    requires !Walk(s.mem, t, level, virt).LargePage?
    ensures DriedUp(s, levels, s, levels, t, level, virt, leaf)
  {
    hide Tree, FreePages, Walk, MapFrom, Missing;
  }

  lemma DriedBelowPointer(s: Vm, levels: map<nat, nat>, s1: Vm, levels1: map<nat, nat>,
                          t: nat, level: nat, virt: u64, leaf: u64)
    requires 0 < level < 4 && s.window <= FRAMES && t in levels && levels[t] == level
    requires Points(s.mem, t, Index(virt, level), level)
    requires DriedUp(s, levels, s1, levels1, FrameOf(s.mem[t][Index(virt, level)]), level - 1, virt, leaf)
    ensures DriedUp(s, levels, s1, levels1, t, level, virt, leaf)
  {
    hide Tree, FreePages, EnsureTable, KeepsAbove, FrameOf, Index;
    TableAbove(s.mem, s1.mem, levels, levels1, level, t);
    EnsuredAlready(s, t, Index(virt, level));
    EnsuredAlready(s1, t, Index(virt, level));
  }

  lemma DriedBelowFreshTable(s: Vm, levels: map<nat, nat>, p: nat, s2: Vm, levels2: map<nat, nat>,
                             s1: Vm, levels1: map<nat, nat>, t: nat, level: nat, virt: u64, leaf: u64)
    requires 0 < level < 4 && s.window <= FRAMES && Tree(s, levels) && t in levels && levels[t] == level
    requires !Present(s.mem[t][Index(virt, level)])
    requires p !in s.busy && p < FRAMES && PutsTable(s.mem, s2.mem, t, Index(virt, level), p)
    requires levels2 == levels[p := level - 1] && s2.root == s.root && s2.window == s.window
    requires |FreePages(s2.busy, s.window)| == |FreePages(s.busy, s.window)| - 1
    requires Missing(s2.mem, p, level - 1, virt) == level - 1
    requires MapFrom(s, t, level, virt, leaf) == MapFrom(s2, p, level - 1, virt, leaf)
    requires DriedUp(s2, levels2, s1, levels1, p, level - 1, virt, leaf)
    ensures DriedUp(s, levels, s1, levels1, t, level, virt, leaf)
  {
    hide Tree, FreePages, EnsureTable, KeepsAbove, FrameOf, Index, PutsTable, Large;
    FreshTableAbove(s, levels, s2.mem, levels2, p, s1.mem, t, Index(virt, level), level);
    EnsuredAlready(s1, t, Index(virt, level));
    assert MapFrom(s1, t, level, virt, leaf) == MapFrom(s1, p, level - 1, virt, leaf);
  }

  lemma TableAbove(mem: Memory, mem1: Memory, levels: map<nat, nat>, levels1: map<nat, nat>, level: nat, t: nat)
    requires level > 0 && KeepsAbove(mem, mem1, levels, level - 1) && t in levels && levels[t] == level
    ensures mem1[t] == mem[t] && KeepsAbove(mem, mem1, levels, level)
  {
  }

  lemma EnsuredAlready(s: Vm, t: nat, i: nat)
    requires i < 512 && s.window <= FRAMES && Present(s.mem[t][i])
    ensures EnsureTable(s, t, i) == s
  {
  }

  lemma FreshTableAbove(s: Vm, levels: map<nat, nat>, mem2: Memory, levels2: map<nat, nat>, p: nat, mem1: Memory,
                        t: nat, i: nat, level: nat)
    requires Tree(s, levels) && t in levels && levels[t] == level > 0 && i < 512
    requires p !in s.busy && p < FRAMES && PutsTable(s.mem, mem2, t, i, p) && levels2 == levels[p := level - 1]
    requires KeepsAbove(mem2, mem1, levels2, level - 1)
    ensures KeepsAbove(s.mem, mem1, levels, level)
    ensures Present(mem1[t][i]) && FrameOf(mem1[t][i]) == p && !Large(mem1[t][i], level)
    ensures forall f :: f in levels ==> f in levels2 && levels2[f] == levels[f]
  {
    PuttingKeepsAbove(s, levels, mem2, levels2, p, mem1, t, i, level);
    hide Tree, PutsTable, KeepsAbove;
    TreeFacts(s, levels);
  }

  /** So a call that runs out of pages on the way maps its page exactly if a call out of pages would in s1, the
      state with the pool's pages made tables; it does if it is short of one page only. */
  lemma ShortCallMapsIff(s: Vm, levels: map<nat, nat>, virt: u64, phys: u64, flags: u8) returns (s1: Vm)
    requires Tree(s, levels) && !Translate(s.mem, s.root, virt).LargePage?
    requires Lacking(s, virt) > |FreePages(s.busy, s.window)|
    ensures s.window <= FRAMES && s1.window == s.window && MapPage(s1, virt, phys, flags) == MapPage(s, virt, phys, flags)
    ensures FreePages(s1.busy, s.window) == {} && Lacking(s1, virt) == Lacking(s, virt) - |FreePages(s.busy, s.window)|
    ensures Translate(MapPage(s, virt, phys, flags).mem, s.root, virt) == Page(LeafEntry(phys, flags))
            <==> ExhaustedCallMaps(s1, virt, LeafEntry(phys, flags))
    ensures Lacking(s, virt) == |FreePages(s.busy, s.window)| + 1 ==>
              Translate(MapPage(s, virt, phys, flags).mem, s.root, virt) == Page(LeafEntry(phys, flags))
  {
    hide Tree, FreePages, MapFrom, Missing, Walk, LeafEntry, LeadsTo, Index, Large, FrameOf;
    TreeFacts(s, levels);
    var levels1;
    s1, levels1 := PoolRunsDry(s, levels, s.root, 3, virt, LeafEntry(phys, flags));
    ExhaustedCallMapsIff(s1, levels1, virt, phys, flags);
  }

  /** The first heap page of kmain lacks all three tables on a machine whose tree is empty. Its entries in the
      three tables are the same, so out of pages the call for it maps nothing. */
  lemma FirstHeapPageExample(mem: Memory)
    requires mem[1] == ZeroTable() && mem[5] == ZeroTable()
    ensures var s := Vm(mem, {0, 1}, 2, 1);
            && Tree(s, map[1 := 3]) && FreePages(s.busy, s.window) == {}
            && Translate(MapPage(s, 0xFFFF_8000_0000_0000, 5 * PAGE_SIZE, 0x03).mem, 1, 0xFFFF_8000_0000_0000) == Unmapped
  {
    var s, virt := Vm(mem, {0, 1}, 2, 1), 0xFFFF_8000_0000_0000;
    EmptyTreeFullPool(mem, virt);
    FirstHeapPageFacts();
    hide Index, Tree, MapPage, FrameOf, LeafEntry, Translate, Lacking, FreePages, Large;
    LeafForTable(s, map[1 := 3], virt, 5 * PAGE_SIZE, 0x03);
  }

  lemma FirstHeapPageFacts()
    ensures Index(0xFFFF_8000_0000_0000, 2) == 0 == Index(0xFFFF_8000_0000_0000, 0)
    ensures FrameOf(LeafEntry(5 * PAGE_SIZE, 0x03)) == 5 && !Large(LeafEntry(5 * PAGE_SIZE, 0x03), 2)
  {
  }

  lemma EmptyTreeFullPool(mem: Memory, virt: u64)
    requires mem[1] == ZeroTable()
    ensures var s := Vm(mem, {0, 1}, 2, 1);
            && Tree(s, map[1 := 3]) && FreePages(s.busy, s.window) == {}
            && Translate(mem, 1, virt) == Unmapped && Lacking(s, virt) == 3
  {
    var s := Vm(mem, {0, 1}, 2, 1);
    NothingBelowEmptyTable(mem, 1, 3, virt);
    assert FreePages(s.busy, s.window) == {};
  }

  /** With the leaf in the place of the upper pointer, its frame is read as a table. */
  lemma LeafForTable(s: Vm, levels: map<nat, nat>, virt: u64, phys: u64, flags: u8)
    requires Tree(s, levels) && FreePages(s.busy, s.window) == {} && Translate(s.mem, s.root, virt) == Unmapped
    requires Lacking(s, virt) == 3 && Index(virt, 2) == Index(virt, 0)
    requires var leaf := LeafEntry(phys, flags);
             !Large(leaf, 2) && FrameOf(leaf) != s.root && FrameOf(leaf) != 0 && s.mem[FrameOf(leaf)] == ZeroTable()
    ensures Translate(MapPage(s, virt, phys, flags).mem, s.root, virt) == Unmapped
  {
    hide Tree, Translate, MapPage, LeafEntry, FreePages, Index, Large, FrameOf, KeepsPresent;
    var leaf := LeafEntry(phys, flags);
    FirstExhaustedCall(s, levels, virt, phys, flags);
    RootLacksThree(s, virt);
    var mem' := UseFrameZero(s.mem, s.root, 3, virt, leaf);
    FrameZeroIs(s.mem, s.root, 3, virt, leaf);
    assert mem'[FrameOf(leaf)] == ZeroTable();
    hide UseFrameZero, FrameZeroTable, Lacking, LastTable, Walk;
    FrameZeroReads(mem', 3, virt, leaf);
    NothingBelowEmptyTable(mem', FrameOf(leaf), 1, virt);
  }

  // ---- The call after it -----------------------------------------------------------------------

  /** The entries on both paths after one such call for v and one for w. */
  lemma FrameZeroTwice(mem: Memory, d: nat, v: u64, leaf1: u64, e: nat, m: nat, w: u64, leaf2: u64)
    requires d != 0 && e != 0 && 1 <= m < 4 && (d != e || Index(v, 1) != Index(w, m))
    ensures var mem1 := UseFrameZero(mem, d, 1, v, leaf1);
            && mem1[d][Index(v, 1)] == TableEntry(0) && mem1[0][Index(v, 0)] == leaf1
            && mem1[e][Index(w, m)] == mem[e][Index(w, m)]
    ensures var mem2 := UseFrameZero(UseFrameZero(mem, d, 1, v, leaf1), e, m, w, leaf2);
            && mem2[d][Index(v, 1)] == TableEntry(0) && mem2[e][Index(w, m)] == TableEntry(0)
            && mem2[0] == FrameZeroTable(m, w, leaf2)
  {
    hide Index;
  }

  /** A page that the first call did map, with one table missing, does not outlive the next call under another
      entry: frame 0 is cleared, so the page is unmapped, or where the new content has an entry, redirected to
      the new page or to frame 0. */
  lemma SecondExhaustedCallDestroysFirst(s: Vm, levels: map<nat, nat>, v: u64, phys1: u64, w: u64, phys2: u64,
                                         flags: u8)
    requires Tree(s, levels) && FreePages(s.busy, s.window) == {} && LacksTables(s, v) && LacksTables(s, w)
    requires Lacking(s, v) == 1
    requires Lacking(s, w) == 1 ==> LastTable(s, v) != LastTable(s, w) || Index(v, 1) != Index(w, 1)
    ensures var s1 := MapPage(s, v, phys1, flags);
            var s2 := MapPage(s1, w, phys2, flags);
            && Translate(s1.mem, s.root, v) == Page(LeafEntry(phys1, flags))
            && (Lacking(s, w) == 1 ==> Translate(s2.mem, s.root, w) == Page(LeafEntry(phys2, flags)))
            && Translate(s2.mem, s.root, v)
               == if Index(v, 0) == Index(w, 0) then Page(LeafEntry(phys2, flags))
                  else if Lacking(s, w) > 1 && Index(v, 0) == Index(w, 1) then Page(TableEntry(0))
                  else Unmapped
  {
    hide Tree, Translate, FreePages, LacksTables, LastTable, Lacking, KeepsPresent, MapPage;
    TreeFacts(s, levels);
    var mem2 := TwoExhaustedCalls(s, levels, v, phys1, w, phys2, flags);
    hide Index, LeafEntry, TableEntry;
    ReadThroughFrameZero(s, levels, mem2, v);
    LeafOfFrameZero(mem2, v, Lacking(s, w), w, LeafEntry(phys2, flags));
    if Lacking(s, w) == 1 {
      ReadThroughFrameZero(s, levels, mem2, w);
      FrameZeroReads(mem2, 1, w, LeafEntry(phys2, flags));
    }
  }

  lemma LeafOfFrameZero(mem: Memory, v: u64, m: nat, w: u64, leaf: u64)
    requires mem[0] == FrameZeroTable(m, w, leaf) && Present(leaf)
    ensures Walk(mem, 0, 0, v)
            == if Index(v, 0) == Index(w, 0) then Page(leaf)
               else if m != 1 && Index(v, 0) == Index(w, 1) then Page(TableEntry(0)) else Unmapped
  {
    hide Index, TableEntry;
    assert !Present(0);
  }

  /** Memory after the second call, and that the first call installed its page. */
  lemma TwoExhaustedCalls(s: Vm, levels: map<nat, nat>, v: u64, phys1: u64, w: u64, phys2: u64, flags: u8)
    returns (mem2: Memory)
    requires Tree(s, levels) && FreePages(s.busy, s.window) == {} && LacksTables(s, v) && LacksTables(s, w)
    requires Lacking(s, v) == 1
    requires Lacking(s, w) == 1 ==> LastTable(s, v) != LastTable(s, w) || Index(v, 1) != Index(w, 1)
    ensures s.window <= FRAMES && 1 <= Lacking(s, w) < 4
    ensures Translate(MapPage(s, v, phys1, flags).mem, s.root, v) == Page(LeafEntry(phys1, flags))
    ensures MapPage(MapPage(s, v, phys1, flags), w, phys2, flags) == s.(mem := mem2)
    ensures KeepsPresent(s, levels, mem2)
    ensures LastEntry(s, mem2, v) == TableEntry(0) && LastEntry(s, mem2, w) == TableEntry(0)
    ensures mem2[0] == FrameZeroTable(Lacking(s, w), w, LeafEntry(phys2, flags))
  {
    hide Tree, FreePages, Translate, LastTable, Lacking, LacksTables, LeafEntry, KeepsPresent, MapFrom, Index, UseFrameZero;
    var leaf1, leaf2 := LeafEntry(phys1, flags), LeafEntry(phys2, flags);
    LastTableFacts(s, levels, v);
    LastTableFacts(s, levels, w);
    var d, e, m := LastTable(s, v), LastTable(s, w), Lacking(s, w);
    var mem1 := UseFrameZero(s.mem, d, 1, v, leaf1);
    mem2 := UseFrameZero(mem1, e, m, w, leaf2);
    FrameZeroTwice(s.mem, d, v, leaf1, e, m, w, leaf2);
    FirstExhaustedCall(s, levels, v, phys1, flags);
    FrameZeroIs(s.mem, d, 1, v, leaf1);
    FrameZeroReads(mem1, 1, v, leaf1);
    ExhaustedCall(s, levels, mem1, w, leaf2);
  }
}
