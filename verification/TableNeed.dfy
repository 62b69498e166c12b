/** How many tables a second mapping still lacks: those that the first one made are shared as far down as the
    two addresses have the same indices. */
module TableNeed {
  import opened Words
  import opened PagePool
  import opened PageTables
  import opened MappingRuns

  function Min(a: nat, b: nat): (r: nat)
    ensures r <= a && r <= b && (r == a || r == b)
  {
    if a <= b then a else b
  }

  /** The highest level, of those up to `level` that hold pointers, at which the addresses part; 0 if none. */
  function PartFrom(v: u64, w: u64, level: nat): (d: nat)
    requires level < 4
    ensures d <= level
    decreases level, v
  {
    if level == 0 then 0 else if Index(v, level) != Index(w, level) then level else PartFrom(v, w, level - 1)
  }

  function Part(v: u64, w: u64): (d: nat)
    ensures d <= 3
  {
    PartFrom(v, w, 3)
  }

  /** What table x lacks for w after v was mapped below table t of the same level. */
  function StillMissing(mem: Memory, t: nat, v: u64, x: nat, level: nat, w: u64): nat
    requires level < 4
  {
    if x == t then Min(Missing(mem, x, level, w), PartFrom(v, w, level)) else Missing(mem, x, level, w)
  }

  ghost predicate OnlyMakes(mem: Memory, mem': Memory, levels: map<nat, nat>, t: nat, level: nat, v: u64)
    requires level < 4
  {
    forall x, w: u64 :: x in levels && levels[x] == level && !Walk(mem, x, level, w).LargePage? ==>
      Missing(mem', x, level, w) == StillMissing(mem, t, v, x, level, w)
  }

  /** Tables lacking do not depend on what lies above them, or outside the tree. */
  lemma {:induction false} MissingReadsBelow(s: Vm, levels: map<nat, nat>, mem: Memory, t: nat, level: nat, w: u64)
    requires Tree(s, levels) && t in levels && levels[t] == level && !Walk(s.mem, t, level, w).LargePage?
    requires forall f :: f in levels && levels[f] <= level ==> mem[f] == s.mem[f]
    ensures Missing(mem, t, level, w) == Missing(s.mem, t, level, w)
    ensures Walk(mem, t, level, w) == Walk(s.mem, t, level, w)
    decreases level
  {
    var i := Index(w, level);
    if Points(s.mem, t, i, level) {
      TreeStep(s, levels, t, i);
      hide Tree, Index, FrameOf;
      MissingReadsBelow(s, levels, mem, FrameOf(s.mem[t][i]), level - 1, w);
    }
  }

  lemma {:induction false} MapFromMakes(s: Vm, levels: map<nat, nat>, t: nat, level: nat, v: u64, leaf: u64)
    requires Tree(s, levels) && t in levels && levels[t] == level && Present(leaf)
    requires !Walk(s.mem, t, level, v).LargePage?
    requires Missing(s.mem, t, level, v) <= |FreePages(s.busy, s.window)|
    ensures s.window <= FRAMES
    ensures OnlyMakes(s.mem, MapFrom(s, t, level, v, leaf).mem, levels, t, level, v)
    decreases level, 1
  {
    TreeFacts(s, levels);
    var i := Index(v, level);
    if level == 0 {
      NothingBelowBottom(s.mem, MapFrom(s, t, 0, v, leaf).mem, levels, t, v);
    } else if Present(s.mem[t][i]) {
      var next := FrameOf(s.mem[t][i]);
      assert Points(s.mem, t, i, level);
      assert MapFrom(s, t, level, v, leaf) == MapFrom(s, next, level - 1, v, leaf);
      MapFromMakes(s, levels, next, level - 1, v, leaf);
      var levels' := MapFromInstalls(s, levels, next, level - 1, v, leaf);
      MakesOneLevelUp(s, levels, MapFrom(s, t, level, v, leaf).mem, t, level, v);
    } else {
      MakesBelowFreshTable(s, levels, t, level, v, leaf);
    }
  }

  lemma NothingBelowBottom(mem: Memory, mem': Memory, levels: map<nat, nat>, t: nat, v: u64)
    ensures OnlyMakes(mem, mem', levels, t, 0, v)
  {
  }

  lemma MakesOneLevelUp(s: Vm, levels: map<nat, nat>, mem': Memory, t: nat, level: nat, v: u64)
    requires 0 < level < 4 && Tree(s, levels) && t in levels && levels[t] == level
    requires Points(s.mem, t, Index(v, level), level)
    requires forall f :: f in levels && levels[f] == level ==> mem'[f] == s.mem[f]
    requires OnlyMakes(s.mem, mem', levels, FrameOf(s.mem[t][Index(v, level)]), level - 1, v)
    ensures OnlyMakes(s.mem, mem', levels, t, level, v)
  {
    forall x, w: u64 | x in levels && levels[x] == level && !Walk(s.mem, x, level, w).LargePage?
      ensures Missing(mem', x, level, w) == StillMissing(s.mem, t, v, x, level, w)
    {
      if Points(s.mem, x, Index(w, level), level) {
        OneEntryUp(s, levels, mem', t, level, v, x, w);
      }
    }
  }

  lemma OneEntryUp(s: Vm, levels: map<nat, nat>, mem': Memory, t: nat, level: nat, v: u64, x: nat, w: u64)
    requires 0 < level < 4 && Tree(s, levels) && t in levels && levels[t] == level
    requires Points(s.mem, t, Index(v, level), level) && mem'[x] == s.mem[x]
    requires OnlyMakes(s.mem, mem', levels, FrameOf(s.mem[t][Index(v, level)]), level - 1, v)
    requires x in levels && levels[x] == level && !Walk(s.mem, x, level, w).LargePage?
    requires Points(s.mem, x, Index(w, level), level)
    ensures Missing(mem', x, level, w) == StillMissing(s.mem, t, v, x, level, w)
  {
    var y, next := FrameOf(s.mem[x][Index(w, level)]), FrameOf(s.mem[t][Index(v, level)]);
    TreeStep(s, levels, x, Index(w, level));
    assert y == next <==> x == t && Index(w, level) == Index(v, level);
    hide Tree, Index, FrameOf;
    assert Missing(mem', y, level - 1, w) == StillMissing(s.mem, next, v, y, level - 1, w);
  }

  lemma {:induction false} MakesBelowFreshTable(s: Vm, levels: map<nat, nat>, t: nat, level: nat, v: u64, leaf: u64)
    requires Tree(s, levels) && t in levels && levels[t] == level && Present(leaf)
    requires 0 < level <= |FreePages(s.busy, s.window)| && !Present(s.mem[t][Index(v, level)])
    ensures s.window <= FRAMES
    ensures OnlyMakes(s.mem, MapFrom(s, t, level, v, leaf).mem, levels, t, level, v)
    decreases level, 0
  {
    hide Tree, EnsureTable, FreePages, Grows, OnlyMaps;
    TreeFacts(s, levels);
    var p, s1, levels1 := WalkEntersFreshTable(s, levels, t, level, v, leaf);
    MapFromMakes(s1, levels1, p, level - 1, v, leaf);
    var levels' := MapFromInstalls(s1, levels1, p, level - 1, v, leaf);
    var s' := MapFrom(s1, p, level - 1, v, leaf);
    assert MapFrom(s, t, level, v, leaf) == s';
    hide MapFrom, OnlyMakes;
    UpperTablesKept(s1, levels1, s', levels', p, level - 1, v, leaf);
    MakesAfterPutting(s, levels, s1, levels1, p, s'.mem, t, level, v);
  }

  lemma UpperTablesKept(s1: Vm, levels1: map<nat, nat>, s': Vm, levels': map<nat, nat>,
                        p: nat, level: nat, v: u64, leaf: u64)
    requires level < 4 && Installs(s1, levels1, s', levels', p, level, v, leaf)
    ensures forall f :: f in levels1 && levels1[f] > level ==> s'.mem[f] == s1.mem[f]
  {
    hide Tree, OnlyMaps, FreePages;
  }

  lemma MakesAfterPutting(s: Vm, levels: map<nat, nat>, s1: Vm, levels1: map<nat, nat>, p: nat, mem': Memory,
                          t: nat, level: nat, v: u64)
    requires 0 < level < 4 && Tree(s, levels) && t in levels && levels[t] == level
    requires !Present(s.mem[t][Index(v, level)]) && p !in s.busy && p < FRAMES
    requires PutsTable(s.mem, s1.mem, t, Index(v, level), p) && levels1 == levels[p := level - 1]
    requires OnlyMakes(s1.mem, mem', levels1, p, level - 1, v)
    requires forall f :: f in levels1 && levels1[f] > level - 1 ==> mem'[f] == s1.mem[f]
    ensures OnlyMakes(s.mem, mem', levels, t, level, v)
  {
    forall x, w: u64 | x in levels && levels[x] == level && !Walk(s.mem, x, level, w).LargePage?
      ensures Missing(mem', x, level, w) == StillMissing(s.mem, t, v, x, level, w)
    {
      OneEntryAfterPutting(s, levels, s1, levels1, p, mem', t, level, v, x, w);
    }
  }

  lemma OneEntryAfterPutting(s: Vm, levels: map<nat, nat>, s1: Vm, levels1: map<nat, nat>, p: nat, mem': Memory,
                             t: nat, level: nat, v: u64, x: nat, w: u64)
    requires 0 < level < 4 && Tree(s, levels) && t in levels && levels[t] == level
    requires !Present(s.mem[t][Index(v, level)]) && p !in s.busy && p < FRAMES
    requires PutsTable(s.mem, s1.mem, t, Index(v, level), p) && levels1 == levels[p := level - 1]
    requires OnlyMakes(s1.mem, mem', levels1, p, level - 1, v)
    requires forall f :: f in levels1 && levels1[f] > level - 1 ==> mem'[f] == s1.mem[f]
    requires x in levels && levels[x] == level && !Walk(s.mem, x, level, w).LargePage?
    ensures Missing(mem', x, level, w) == StillMissing(s.mem, t, v, x, level, w)
  {
    hide Tree, Index, FrameOf;
    var j := Index(w, level);
    TreeFacts(s, levels);
    assert mem'[x] == s1.mem[x];
    if x == t && j == Index(v, level) {
      NothingBelowEmptyTable(s1.mem, p, level - 1, w);
      assert Missing(mem', p, level - 1, w) == StillMissing(s1.mem, p, v, p, level - 1, w);
    } else if Points(s.mem, x, j, level) {
      PathBesidePutTable(s, levels, s1, levels1, p, mem', t, level, v, x, w);
    } else {
      assert mem'[x][j] == s.mem[x][j];
    }
  }

  lemma PathBesidePutTable(s: Vm, levels: map<nat, nat>, s1: Vm, levels1: map<nat, nat>, p: nat, mem': Memory,
                           t: nat, level: nat, v: u64, x: nat, w: u64)
    requires 0 < level < 4 && Tree(s, levels) && t in levels && levels[t] == level
    requires p !in s.busy && p < FRAMES && PutsTable(s.mem, s1.mem, t, Index(v, level), p)
    requires levels1 == levels[p := level - 1] && OnlyMakes(s1.mem, mem', levels1, p, level - 1, v)
    requires x in levels && levels[x] == level && !Walk(s.mem, x, level, w).LargePage? && mem'[x] == s1.mem[x]
    requires Points(s.mem, x, Index(w, level), level) && (x != t || Index(w, level) != Index(v, level))
    ensures Missing(mem', x, level, w) == StillMissing(s.mem, t, v, x, level, w)
  {
    hide Tree, Index, FrameOf, PutsTable, TableEntry;
    TreeFacts(s, levels);
    var j := Index(w, level);
    var y := FrameOf(s.mem[x][j]);
    TreeStep(s, levels, x, j);
    BesidePutTable(s, levels, s1.mem, t, Index(v, level), p, level, x, j);
    MissingReadsBelow(s, levels, s1.mem, y, level - 1, w);
    assert mem'[x][j] == s.mem[x][j];
    assert Missing(mem', y, level - 1, w) == StillMissing(s1.mem, p, v, y, level - 1, w);
  }

  lemma BesidePutTable(s: Vm, levels: map<nat, nat>, mem1: Memory, t: nat, i: nat, p: nat, level: nat, x: nat, j: nat)
    requires (forall f :: f in levels ==> f in s.busy) && t in levels && levels[t] == level > 0 && i < 512 && j < 512
    requires p !in s.busy && p < FRAMES && PutsTable(s.mem, mem1, t, i, p)
    requires x in levels && (x != t || j != i)
    ensures forall f :: f in levels && levels[f] <= level - 1 ==> mem1[f] == s.mem[f]
    ensures mem1[x][j] == s.mem[x][j]
  {
    hide TableEntry;
  }

  /** After v has been mapped, w lacks what it lacked before, but no table above the level where its indices part
      from those of v. */
  lemma MissingAfterMapping(s: Vm, levels: map<nat, nat>, v: u64, phys: u64, flags: u8, w: u64)
    requires Tree(s, levels) && Mappable(s, v) && !Translate(s.mem, s.root, w).LargePage?
    ensures s.window <= FRAMES
    ensures Missing(MapPage(s, v, phys, flags).mem, s.root, 3, w)
            == Min(Missing(s.mem, s.root, 3, w), Part(v, w))
  {
    hide Tree, Missing, Walk, MapFrom, FreePages, LeafEntry;
    TreeFacts(s, levels);
    MapFromMakes(s, levels, s.root, 3, v, LeafEntry(phys, flags));
    assert Missing(MapPage(s, v, phys, flags).mem, s.root, 3, w) == StillMissing(s.mem, s.root, v, s.root, 3, w);
  }
}
