/** Four-level paging (Intel SDM volume 3A, section 4.5): an independent reading of what a tree of
    tables translates, what mapping one page does to memory and to the page pool, and the proof
    that it installs exactly that page. */
module PageTables {
  import opened Words
  import opened PagePool

  const PTE_MASK: u64 := 0x000F_FFFF_FFFF_F000
  const PTE_PRESENT: u64 := 1
  const PTE_WRITABLE: u64 := 2

  /** Frames a page-table entry can name: bits 51-12 of an entry. */
  const FRAMES := 0x100_0000_0000

  type Frame = f: nat | f < FRAMES

  type Table = s: seq<u64> | |s| == 512 witness seq(512, _ => 0)

  function ZeroTable(): (t: Table)
    ensures forall i :: 0 <= i < 512 ==> t[i] == 0
  {
    seq(512, _ => 0)
  }

  /** Physical memory as 4 KiB frames of 512 words. */
  type Memory = m: imap<nat, Table> | forall f: nat :: f in m
    ghost witness imap f: nat | true :: ZeroTable()

  // ---- Reading entries -------------------------------------------------------------------------

  /** The index a virtual address selects at a level: 3 is the PML4, 0 the page table. */
  function Index(virt: u64, level: nat): (r: nat)
    requires level < 4
    ensures r < 512
  {
    if level == 3 then virt / 0x80_0000_0000 % 512
    else if level == 2 then virt / 0x4000_0000 % 512
    else if level == 1 then virt / 0x20_0000 % 512
    else virt / 0x1000 % 512
  }

  predicate Present(e: u64) {
    e % 2 == 1
  }

  /** Bit 7 of a present PD or PDPT entry makes it a 2 MiB or 1 GiB page. */
  predicate Large(e: u64, level: nat) {
    (level == 1 || level == 2) && e / 128 % 2 == 1
  }

  /** The frame number in bits 51-12 of an entry. */
  function FrameOf(e: u64): (f: nat)
    ensures f < FRAMES
  {
    e / 4096 % FRAMES
  }

  /** A present, writable, supervisor entry for the table in frame p. */
  function TableEntry(p: Frame): (e: u64)
    ensures Present(e) && FrameOf(e) == p && e / 128 % 2 == 0
  {
    p * PAGE_SIZE + 3
  }

  /** A present entry for the frame of `phys` with the given flags. */
  function LeafEntry(phys: u64, flags: u8): (e: u64)
    ensures Present(e) && FrameOf(e) == FrameOf(phys) && e / PAGE_SIZE < FRAMES
    ensures e % PAGE_SIZE == if flags % 2 == 1 then flags else flags + 1
  {
    FrameOf(phys) * PAGE_SIZE + flags - flags % 2 + 1
  }

  // ---- The bit operations of the source compute these readings ---------------------------------

  lemma AndPresent(e: u64)
    ensures And(e, PTE_PRESENT) != 0 <==> Present(e)
  {
    assert And(e / 2, 0) == 0;
  }

  /** `(virt >> shift) & 0x1FF` for the four shifts 39, 30, 21 and 12. */
  lemma AndIndex(virt: u64)
    ensures And(virt / 0x80_0000_0000, 0x1FF) == Index(virt, 3)
    ensures And(virt / 0x4000_0000, 0x1FF) == Index(virt, 2)
    ensures And(virt / 0x20_0000, 0x1FF) == Index(virt, 1)
    ensures And(virt / 0x1000, 0x1FF) == Index(virt, 0)
  {
    AndNineOnes(virt / 0x80_0000_0000);
    AndNineOnes(virt / 0x4000_0000);
    AndNineOnes(virt / 0x20_0000);
    AndNineOnes(virt / 0x1000);
  }

  /** `entry & PTE_MASK` is the physical address of the frame an entry names. */
  lemma AndMaskIsFrame(e: u64)
    ensures And(e, PTE_MASK) == FrameOf(e) * PAGE_SIZE
  {
    AndFrameMask(e);
  }

  /** `new_table | PTE_PRESENT | PTE_WRITABLE`. */
  lemma OrTableEntry(p: nat)
    requires p < FRAMES
    ensures Or(Or(p * PAGE_SIZE, PTE_PRESENT), PTE_WRITABLE) == TableEntry(p)
  {
    OrAssociates(p * PAGE_SIZE, 1, 2);
    assert Or(1, 2) == 3;
    OrFlags(p, 3);
  }

  /** `(phys & PTE_MASK) | flags | 1`. */
  lemma OrLeafEntry(phys: u64, flags: u8)
    ensures Or(Or(And(phys, PTE_MASK), flags), 1) == LeafEntry(phys, flags)
  {
    AndFrameMask(phys);
    OrAssociates(And(phys, PTE_MASK), flags, 1);
    OrOne(flags);
    OrFlags(FrameOf(phys), Or(flags, 1));
  }

  // ---- Translation -----------------------------------------------------------------------------

  datatype Translation = Unmapped | Page(entry: u64) | LargePage(level: nat, entry: u64)

  /** The hardware walk from table t, which sits at the given level. (Here and below, t in the measure keeps
      the verifier from unrolling calls at a literal level.) */
  function Walk(mem: Memory, t: nat, level: nat, virt: u64): Translation
    requires level < 4
    decreases level, t
  {
    var e := mem[t][Index(virt, level)];
    if !Present(e) then Unmapped
    else if level == 0 then Page(e)
    else if Large(e, level) then LargePage(level, e)
    else Walk(mem, FrameOf(e), level - 1, virt)
  }

  function Translate(mem: Memory, root: nat, virt: u64): Translation {
    Walk(mem, root, 3, virt)
  }

  /** Bits 47-12: the 4 KiB page of the 48-bit address space that an address lies in. */
  function PageNumber(v: u64): nat {
    v / PAGE_SIZE % 0x10_0000_0000
  }

  predicate SamePage(v: u64, w: u64) {
    PageNumber(v) == PageNumber(w)
  }

  /** The indices at this level and below agree. */
  predicate SameBelow(v: u64, w: u64, level: nat)
    requires level < 4
  {
    Index(v, level) == Index(w, level) && (level > 0 ==> SameBelow(v, w, level - 1))
  }

  lemma SamePageMeansSameIndices(v: u64, w: u64)
    ensures SamePage(v, w) <==> SameBelow(v, w, 3)
  {
    PageNumberDigits(v);
    PageNumberDigits(w);
    FourIndices(v, w);
    hide Index, PageNumber, SameBelow;
    DigitsAreUnique(Index(v, 3) * 512 + Index(v, 2), Index(v, 1), Index(v, 0),
                    Index(w, 3) * 512 + Index(w, 2), Index(w, 1), Index(w, 0));
    DigitsAreUnique(0, Index(v, 3), Index(v, 2), 0, Index(w, 3), Index(w, 2));
  }

  lemma FourIndices(v: u64, w: u64)
    ensures SameBelow(v, w, 3) <==> Index(v, 3) == Index(w, 3) && Index(v, 2) == Index(w, 2)
                                    && Index(v, 1) == Index(w, 1) && Index(v, 0) == Index(w, 0)
  {
    hide Index;
    assert SameBelow(v, w, 3) <==> Index(v, 3) == Index(w, 3) && SameBelow(v, w, 2);
    assert SameBelow(v, w, 1) <==> Index(v, 1) == Index(w, 1) && SameBelow(v, w, 0);
  }

  lemma DigitsAreUnique(a: nat, b: nat, c: nat, x: nat, y: nat, z: nat)
    requires b < 512 && c < 512 && y < 512 && z < 512
    ensures (a * 512 + b) * 512 + c == (x * 512 + y) * 512 + z <==> a == x && b == y && c == z
  {
  }

  /** The four indices are the base-512 digits of the page number. */
  lemma PageNumberDigits(v: u64)
    ensures PageNumber(v) == ((Index(v, 3) * 512 + Index(v, 2)) * 512 + Index(v, 1)) * 512 + Index(v, 0)
  {
    var q := v / PAGE_SIZE;
    ShiftsNest(v);
    ThreeDigitsAndRest(q / 512);
    var a, b := q / 512, q % 512;
    var c, d := a / 0x800_0000, a % 0x800_0000;
    assert q == 0x10_0000_0000 * c + (512 * d + b);
  }

  /** Shifting by 21, 30 and 39 is shifting by 12 and then by 9, 18 and 27. */
  lemma ShiftsNest(v: u64)
    ensures v / 0x20_0000 == v / PAGE_SIZE / 512
    ensures v / 0x4000_0000 == v / PAGE_SIZE / 512 / 512
    ensures v / 0x80_0000_0000 == v / PAGE_SIZE / 512 / 512 / 512
  {
  }

  lemma ThreeDigitsAndRest(q: nat)
    ensures q % 0x800_0000 == (q / 512 / 512 % 512 * 512 + q / 512 % 512) * 512 + q % 512
  {
    TwoDigits(q / 512);
    SplitOff(q / 512 / 0x4_0000, q / 512 % 0x4_0000, q);
  }

  lemma SplitOff(c: nat, d: nat, q: nat)
    requires d < 0x4_0000 && q / 512 == 0x4_0000 * c + d
    ensures q % 0x800_0000 == 512 * d + q % 512
  {
    assert q == 512 * (q / 512) + q % 512;
    RemainderIs(q, c, 512 * d + q % 512);
  }

  lemma RemainderIs(q: nat, c: nat, r: nat)
    requires q == 0x800_0000 * c + r && r < 0x800_0000
    ensures q % 0x800_0000 == r
  {
  }

  lemma TwoDigits(q: nat)
    ensures q % 0x4_0000 == q / 512 % 512 * 512 + q % 512
  {
  }

  // ---- Mapping a page --------------------------------------------------------------------------

  /** Memory, the page pool (busy pages and scan window) and the root table. */
  datatype Vm = Vm(mem: Memory, busy: set<nat>, window: nat, root: nat)

  function Clear(mem: Memory, p: nat): Memory {
    mem[p := ZeroTable()]
  }

  function SetEntry(mem: Memory, t: nat, i: nat, e: u64): Memory
    requires i < 512
  {
    mem[t := mem[t][i := e]]
  }

  /** A cleared frame p put under entry i of table t. */
  function PutTable(mem: Memory, t: nat, i: nat, p: nat): Memory
    requires i < 512 && p < FRAMES
  {
    SetEntry(Clear(mem, p), t, i, TableEntry(p))
  }

  /** The source's "if the entry is absent, allocate a table" block for entry i of table t. */
  ghost function EnsureTable(s: Vm, t: nat, i: nat): Vm
    requires i < 512 && s.window <= FRAMES
  {
    if Present(s.mem[t][i]) then s
    else
      var g := Take(s.busy, s.window);
      var p := g.addr / PAGE_SIZE;
      s.(mem := PutTable(s.mem, t, i, p), busy := g.busy)
  }

  /** The walk of the source from table t down: ensure the next table, descend, write the leaf. */
  ghost function MapFrom(s: Vm, t: nat, level: nat, virt: u64, leaf: u64): (r: Vm)
    requires level < 4 && s.window <= FRAMES
    ensures r.window == s.window && r.root == s.root
    decreases level, t
  {
    var i := Index(virt, level);
    if level == 0 then s.(mem := SetEntry(s.mem, t, i, leaf))
    else
      var s1 := EnsureTable(s, t, i);
      MapFrom(s1, FrameOf(s1.mem[t][i]), level - 1, virt, leaf)
  }

  ghost function MapPage(s: Vm, virt: u64, phys: u64, flags: u8): (r: Vm)
    requires s.window <= FRAMES
    ensures r.window == s.window && r.root == s.root
  {
    MapFrom(s, s.root, 3, virt, LeafEntry(phys, flags))
  }

  /** How many tables the walk finds missing. */
  function Missing(mem: Memory, t: nat, level: nat, virt: u64): (n: nat)
    requires level < 4
    ensures n <= level
    decreases level, t
  {
    if level == 0 then 0
    else
      var e := mem[t][Index(virt, level)];
      if !Present(e) then level else Missing(mem, FrameOf(e), level - 1, virt)
  }

  // ---- The tree of tables ----------------------------------------------------------------------

  /** Entry i of table t, at the given level, points at a lower table. */
  predicate Points(mem: Memory, t: nat, i: nat, level: nat)
    requires i < 512
  {
    level > 0 && Present(mem[t][i]) && !Large(mem[t][i], level)
  }

  /** `levels` lists the table frames with their levels, the root at level 3. Every pointer goes to a
      listed table one level down; no table has two pointers to it; and every table is a busy page other
      than frame 0, so the allocator cannot give it out. */
  ghost predicate Tree(s: Vm, levels: map<nat, nat>) {
    && s.window <= FRAMES && 0 in s.busy
    && s.root in levels && levels[s.root] == 3
    && (forall t :: t in levels ==> t != 0 && t in s.busy && levels[t] < 4)
    && (forall t, i: nat :: t in levels && i < 512 && Points(s.mem, t, i, levels[t]) ==>
         FrameOf(s.mem[t][i]) in levels && levels[FrameOf(s.mem[t][i])] == levels[t] - 1)
    && (forall t, i: nat, t', i': nat ::
         && t in levels && i < 512 && Points(s.mem, t, i, levels[t])
         && t' in levels && i' < 512 && Points(s.mem, t', i', levels[t'])
         && FrameOf(s.mem[t][i]) == FrameOf(s.mem[t'][i'])
         ==> t == t' && i == i')
  }

  lemma TreeFacts(s: Vm, levels: map<nat, nat>)
    requires Tree(s, levels)
    ensures s.window <= FRAMES && 0 in s.busy && s.root in levels && levels[s.root] == 3
    ensures forall f :: f in levels ==> f != 0 && f in s.busy && levels[f] < 4
  {
  }

  lemma TreeStep(s: Vm, levels: map<nat, nat>, t: nat, i: nat)
    requires Tree(s, levels) && t in levels && i < 512 && Points(s.mem, t, i, levels[t])
    ensures FrameOf(s.mem[t][i]) in levels && levels[FrameOf(s.mem[t][i])] == levels[t] - 1
  {
  }

  lemma MoreBusyKeepsTree(s: Vm, levels: map<nat, nat>, busy: set<nat>)
    requires Tree(s, levels) && s.busy <= busy
    ensures Tree(s.(busy := busy), levels)
  {
  }

  /** Translation reads the tables of the tree and nothing else. */
  lemma {:induction false} WalkReadsTablesOnly(s: Vm, levels: map<nat, nat>, mem: Memory, t: nat, level: nat, virt: u64)
    requires Tree(s, levels) && t in levels && levels[t] == level
    requires forall f :: f in levels ==> mem[f] == s.mem[f]
    ensures Walk(mem, t, level, virt) == Walk(s.mem, t, level, virt)
    decreases level
  {
    var i := Index(virt, level);
    if Points(s.mem, t, i, level) {
      WalkReadsTablesOnly(s, levels, mem, FrameOf(s.mem[t][i]), level - 1, virt);
    }
  }

  /** Writing frames that are not tables changes no translation. */
  lemma WritesOutsideTables(vm: Vm, levels: map<nat, nat>, vm': Vm)
    requires Tree(vm, levels) && vm' == vm.(mem := vm'.mem)
    requires forall f :: f in levels ==> vm'.mem[f] == vm.mem[f]
    ensures Tree(vm', levels)
    ensures forall v: u64 :: Translate(vm'.mem, vm.root, v) == Translate(vm.mem, vm.root, v)
  {
    forall v: u64 ensures Translate(vm'.mem, vm.root, v) == Translate(vm.mem, vm.root, v) {
      WalkReadsTablesOnly(vm, levels, vm'.mem, vm.root, 3, v);
    }
  }

  /** mem has all present entries of the tables of s as s has them. */
  ghost predicate KeepsPresent(s: Vm, levels: map<nat, nat>, mem: Memory) {
    forall t, i: nat :: t in levels && i < 512 && Present(s.mem[t][i]) ==> mem[t][i] == s.mem[t][i]
  }

  /** No walk of the mapper frees a page. */
  lemma {:induction false} BusyStays(s: Vm, t: nat, level: nat, virt: u64, leaf: u64)
    requires level < 4 && s.window <= FRAMES
    ensures forall f :: f in s.busy ==> f in MapFrom(s, t, level, virt, leaf).busy
    decreases level
  {
    if level > 0 {
      var s1 := EnsureTable(s, t, Index(virt, level));
      EnsureKeepsBusy(s, t, Index(virt, level));
      hide EnsureTable, FrameOf, Index;
      BusyStays(s1, FrameOf(s1.mem[t][Index(virt, level)]), level - 1, virt, leaf);
    }
  }

  lemma EnsureKeepsBusy(s: Vm, t: nat, i: nat)
    requires i < 512 && s.window <= FRAMES
    ensures EnsureTable(s, t, i).window == s.window && forall f :: f in s.busy ==> f in EnsureTable(s, t, i).busy
  {
    hide PutTable;
  }

  // ---- Creating one missing table --------------------------------------------------------------

  /** mem' is mem with a zeroed table in frame p put under entry i of table t. */
  ghost predicate PutsTable(mem: Memory, mem': Memory, t: nat, i: nat, p: nat)
    requires i < 512 && p < FRAMES
  {
    && t != p
    && (forall k :: 0 <= k < 512 ==> mem'[p][k] == 0)
    && mem'[t] == mem[t][i := TableEntry(p)]
    && forall f: nat :: f != p && f != t ==> mem'[f] == mem[f]
  }

  /** With a free page, the block puts a fresh frame, which is no table yet, under the entry. */
  lemma EnsureTakesFreshFrame(s: Vm, levels: map<nat, nat>, t: nat, i: nat) returns (p: nat)
    requires Tree(s, levels) && t in levels && i < 512
    requires !Present(s.mem[t][i]) && FreePages(s.busy, s.window) != {}
    ensures p in FreePages(s.busy, s.window) && p < FRAMES
    ensures var s1 := EnsureTable(s, t, i);
            && PutsTable(s.mem, s1.mem, t, i, p)
            && s1.busy == s.busy + {p} && s1.window == s.window && s1.root == s.root
            && |FreePages(s1.busy, s.window)| == |FreePages(s.busy, s.window)| - 1
  {
    TakeMeaning(s.busy, s.window);
    p := Take(s.busy, s.window).addr / PAGE_SIZE;
  }

  lemma PuttingKeepsTree(s: Vm, levels: map<nat, nat>, t: nat, i: nat, p: nat, s1: Vm)
    requires Tree(s, levels) && t in levels && levels[t] > 0 && i < 512
    requires !Present(s.mem[t][i]) && p !in s.busy && p < FRAMES
    requires PutsTable(s.mem, s1.mem, t, i, p)
    requires s1.busy == s.busy + {p} && s1.window == s.window && s1.root == s.root
    ensures Tree(s1, levels[p := levels[t] - 1])
  {
    var levels' := levels[p := levels[t] - 1];
    forall x, k: nat | x in levels' && k < 512 && Points(s1.mem, x, k, levels'[x])
      ensures x != p
      ensures x == t && k == i ==> FrameOf(s1.mem[x][k]) == p
      ensures x != t || k != i ==> Points(s.mem, x, k, levels[x]) && s1.mem[x][k] == s.mem[x][k]
    {
    }
  }

  /** An empty table below an absent entry translates nothing, so no translation changes. */
  lemma {:induction false} PuttingKeepsWalks(s: Vm, levels: map<nat, nat>, t: nat, i: nat, p: nat, mem: Memory,
                                             x: nat, level: nat, virt: u64)
    requires Tree(s, levels) && t in levels && levels[t] > 0 && i < 512
    requires !Present(s.mem[t][i]) && p !in s.busy && p < FRAMES
    requires PutsTable(s.mem, mem, t, i, p)
    requires x in levels && levels[x] == level
    ensures Walk(mem, x, level, virt) == Walk(s.mem, x, level, virt)
    decreases level
  {
    var k := Index(virt, level);
    if x == t && k == i {
      assert Walk(mem, p, level - 1, virt) == Unmapped;
    } else if Points(s.mem, x, k, level) {
      PuttingKeepsWalks(s, levels, t, i, p, mem, FrameOf(s.mem[x][k]), level - 1, virt);
    }
  }

  lemma NothingBelowEmptyTable(mem: Memory, p: nat, level: nat, virt: u64)
    requires level < 4 && forall k :: 0 <= k < 512 ==> mem[p][k] == 0
    ensures Walk(mem, p, level, virt) == Unmapped && Missing(mem, p, level, virt) == level
  {
  }

  /** The walk at an absent entry continues in a fresh empty table of a sound tree. */
  lemma WalkEntersFreshTable(s: Vm, levels: map<nat, nat>, t: nat, level: nat, virt: u64, leaf: u64)
    returns (p: nat, s1: Vm, levels1: map<nat, nat>)
    requires Tree(s, levels) && t in levels && levels[t] == level > 0
    requires !Present(s.mem[t][Index(virt, level)]) && FreePages(s.busy, s.window) != {}
    ensures p in FreePages(s.busy, s.window) && p !in s.busy && p < FRAMES
    ensures levels1 == levels[p := level - 1] && Tree(s1, levels1)
    ensures PutsTable(s.mem, s1.mem, t, Index(virt, level), p)
    ensures s1.busy == s.busy + {p} && s1.window == s.window && s1.root == s.root
    ensures |FreePages(s1.busy, s.window)| == |FreePages(s.busy, s.window)| - 1
    ensures Walk(s1.mem, p, level - 1, virt) == Unmapped && Missing(s1.mem, p, level - 1, virt) == level - 1
    ensures MapFrom(s, t, level, virt, leaf) == MapFrom(s1, p, level - 1, virt, leaf)
  {
    p := EnsureTakesFreshFrame(s, levels, t, Index(virt, level));
    s1 := EnsureTable(s, t, Index(virt, level));
    levels1 := levels[p := level - 1];
    PuttingKeepsTree(s, levels, t, Index(virt, level), p, s1);
    NothingBelowEmptyTable(s1.mem, p, level - 1, virt);
  }

  // ---- Mapping one page ------------------------------------------------------------------------

  /** s' grew out of s: the tables that were added were free pages before, only tables were
      written, and none above this level. */
  ghost predicate Grows(s: Vm, levels: map<nat, nat>, s': Vm, levels': map<nat, nat>, level: nat) {
    && Tree(s', levels') && s'.window == s.window && s'.root == s.root
    && (forall f :: f in levels ==> f in levels' && levels'[f] == levels[f])
    && (forall f :: f in s'.busy <==> f in s.busy || (f in levels' && f !in levels))
    && (forall f :: f in levels' && f !in levels ==> f in FreePages(s.busy, s.window))
    && (forall f: nat :: f !in levels' ==> s'.mem[f] == s.mem[f])
    && (forall f :: f in levels && levels[f] > level ==> s'.mem[f] == s.mem[f])
  }

  /** From `level`, the walk of virt through table t now ends in leaf, and every walk from this
      level that does not end in that page is as before. */
  ghost predicate OnlyMaps(mem: Memory, mem': Memory, levels: map<nat, nat>, t: nat, level: nat, virt: u64, leaf: u64)
    requires level < 4
  {
    && Walk(mem', t, level, virt) == Page(leaf)
    && (forall x, v: u64 :: x in levels && levels[x] == level && (x != t || !SameBelow(v, virt, level)) ==>
          Walk(mem', x, level, v) == Walk(mem, x, level, v))
  }

  ghost predicate Installs(s: Vm, levels: map<nat, nat>, s': Vm, levels': map<nat, nat>,
                           t: nat, level: nat, virt: u64, leaf: u64)
    requires level < 4
  {
    Grows(s, levels, s', levels', level) && OnlyMaps(s.mem, s'.mem, levels, t, level, virt, leaf)
  }

  lemma LeafInstalls(s: Vm, levels: map<nat, nat>, t: nat, virt: u64, leaf: u64)
    requires Tree(s, levels) && t in levels && levels[t] == 0 && Present(leaf)
    ensures Installs(s, levels, MapFrom(s, t, 0, virt, leaf), levels, t, 0, virt, leaf)
  {
    LeafKeepsTree(s, levels, t, Index(virt, 0), leaf);
    LeafOnlyMaps(s.mem, levels, t, virt, leaf);
  }

  lemma LeafOnlyMaps(mem: Memory, levels: map<nat, nat>, t: nat, virt: u64, leaf: u64)
    requires Present(leaf)
    ensures OnlyMaps(mem, mem[t := mem[t][Index(virt, 0) := leaf]], levels, t, 0, virt, leaf)
  {
  }

  /** Replacing an entry of a bottom table keeps the tree: its entries are not pointers. */
  lemma LeafKeepsTree(s: Vm, levels: map<nat, nat>, t: nat, i: nat, leaf: u64)
    requires Tree(s, levels) && t in levels && levels[t] == 0 && i < 512
    ensures Tree(s.(mem := s.mem[t := s.mem[t][i := leaf]]), levels)
  {
  }

  /** Mapping below the next table maps here: the other entries of this level lead to other tables,
      because no table has two pointers to it. */
  lemma MapsOneLevelUp(s: Vm, levels: map<nat, nat>, mem': Memory, t: nat, level: nat, virt: u64, leaf: u64)
    requires 0 < level < 4 && Tree(s, levels) && t in levels && levels[t] == level
    requires Points(s.mem, t, Index(virt, level), level)
    requires forall f :: f in levels && levels[f] == level ==> mem'[f] == s.mem[f]
    requires OnlyMaps(s.mem, mem', levels, FrameOf(s.mem[t][Index(virt, level)]), level - 1, virt, leaf)
    ensures OnlyMaps(s.mem, mem', levels, t, level, virt, leaf)
  {
    var next := FrameOf(s.mem[t][Index(virt, level)]);
    forall x, v: u64 | x in levels && levels[x] == level && (x != t || !SameBelow(v, virt, level))
      ensures Walk(mem', x, level, v) == Walk(s.mem, x, level, v)
    {
      var i := Index(v, level);
      if Points(s.mem, x, i, level) {
        var y := FrameOf(s.mem[x][i]);
        assert y != next || !SameBelow(v, virt, level - 1);
        assert Walk(mem', y, level - 1, v) == Walk(s.mem, y, level - 1, v);
      }
    }
  }

  /** Putting an empty table first does not change what is mapped. */
  lemma MapsAfterPutting(s: Vm, levels: map<nat, nat>, mem1: Memory, levels1: map<nat, nat>, p: nat, mem': Memory,
                         t: nat, level: nat, virt: u64, leaf: u64)
    requires 0 < level < 4 && Tree(s, levels) && t in levels && levels[t] == level
    requires !Present(s.mem[t][Index(virt, level)]) && p !in s.busy && p < FRAMES
    requires PutsTable(s.mem, mem1, t, Index(virt, level), p)
    requires levels1 == levels[p := level - 1] && OnlyMaps(mem1, mem', levels1, t, level, virt, leaf)
    ensures OnlyMaps(s.mem, mem', levels, t, level, virt, leaf)
  {
    forall x, v: u64 | x in levels && levels[x] == level && (x != t || !SameBelow(v, virt, level))
      ensures Walk(mem', x, level, v) == Walk(s.mem, x, level, v)
    {
      PuttingKeepsWalks(s, levels, t, Index(virt, level), p, mem1, x, level, v);
    }
  }

  lemma GrowsAfterPutting(s: Vm, levels: map<nat, nat>, s1: Vm, p: nat, s': Vm, levels': map<nat, nat>,
                          t: nat, i: nat, level: nat)
    requires Tree(s, levels) && t in levels && levels[t] == level > 0 && i < 512
    requires p in FreePages(s.busy, s.window) && p < FRAMES && PutsTable(s.mem, s1.mem, t, i, p)
    requires s1.busy == s.busy + {p} && s1.window == s.window && s1.root == s.root
    requires Grows(s1, levels[p := level - 1], s', levels', level - 1)
    ensures Grows(s, levels, s', levels', level)
  {
    hide Tree, FreePages, FrameOf;
    TreeFacts(s, levels);
    TakingShrinksPool(s.busy, s.window, p);
  }

  lemma TakingShrinksPool(busy: set<nat>, window: nat, p: nat)
    ensures FreePages(busy + {p}, window) <= FreePages(busy, window)
    ensures forall f :: f in FreePages(busy, window) ==> f !in busy
  {
  }

  /** With enough free pages for the missing tables and no large page on the path, the walk installs
      the leaf and takes exactly the pages it was missing. */
  lemma {:induction false} MapFromInstalls(s: Vm, levels: map<nat, nat>, t: nat, level: nat, virt: u64, leaf: u64)
    returns (levels': map<nat, nat>)
    requires Tree(s, levels) && t in levels && levels[t] == level && Present(leaf)
    requires !Walk(s.mem, t, level, virt).LargePage?
    requires Missing(s.mem, t, level, virt) <= |FreePages(s.busy, s.window)|
    ensures Installs(s, levels, MapFrom(s, t, level, virt, leaf), levels', t, level, virt, leaf)
    ensures |FreePages(MapFrom(s, t, level, virt, leaf).busy, s.window)|
            == |FreePages(s.busy, s.window)| - Missing(s.mem, t, level, virt)
    decreases level, 1
  {
    var i := Index(virt, level);
    if level == 0 {
      LeafInstalls(s, levels, t, virt, leaf);
      levels' := levels;
    } else if Present(s.mem[t][i]) {
      var next := FrameOf(s.mem[t][i]);
      assert Points(s.mem, t, i, level);
      assert MapFrom(s, t, level, virt, leaf) == MapFrom(s, next, level - 1, virt, leaf);
      levels' := MapFromInstalls(s, levels, next, level - 1, virt, leaf);
      MapsOneLevelUp(s, levels, MapFrom(s, t, level, virt, leaf).mem, t, level, virt, leaf);
    } else {
      levels' := MapBelowFreshTable(s, levels, t, level, virt, leaf);
    }
  }

  lemma {:induction false} MapBelowFreshTable(s: Vm, levels: map<nat, nat>, t: nat, level: nat, virt: u64, leaf: u64)
    returns (levels': map<nat, nat>)
    requires Tree(s, levels) && t in levels && levels[t] == level && Present(leaf)
    requires 0 < level <= |FreePages(s.busy, s.window)| && !Present(s.mem[t][Index(virt, level)])
    ensures Installs(s, levels, MapFrom(s, t, level, virt, leaf), levels', t, level, virt, leaf)
    ensures |FreePages(MapFrom(s, t, level, virt, leaf).busy, s.window)| == |FreePages(s.busy, s.window)| - level
    decreases level, 0
  {
    assert level < 4 && s.window <= FRAMES;
    hide Tree, EnsureTable, FreePages, Installs;
    var p, s1, levels1 := WalkEntersFreshTable(s, levels, t, level, virt, leaf);
    levels' := MapFromInstalls(s1, levels1, p, level - 1, virt, leaf);
    var s' := MapFrom(s1, p, level - 1, virt, leaf);
    assert MapFrom(s, t, level, virt, leaf) == s';
    InstallsAfterPutting(s, levels, s1, levels1, p, s', levels', t, level, virt, leaf);
  }

  lemma InstallsAfterPutting(s: Vm, levels: map<nat, nat>, s1: Vm, levels1: map<nat, nat>, p: nat,
                             s': Vm, levels': map<nat, nat>, t: nat, level: nat, virt: u64, leaf: u64)
    requires 0 < level < 4 && Tree(s, levels) && t in levels && levels[t] == level
    requires !Present(s.mem[t][Index(virt, level)]) && p in FreePages(s.busy, s.window) && p !in s.busy && p < FRAMES
    requires PutsTable(s.mem, s1.mem, t, Index(virt, level), p)
    requires s1.busy == s.busy + {p} && s1.window == s.window && s1.root == s.root
    requires levels1 == levels[p := level - 1] && Tree(s1, levels1)
    requires Installs(s1, levels1, s', levels', p, level - 1, virt, leaf)
    ensures Installs(s, levels, s', levels', t, level, virt, leaf)
  {
    hide Tree, FreePages, OnlyMaps;
    GrowsAfterPutting(s, levels, s1, p, s', levels', t, Index(virt, level), level);
    assert FrameOf(s1.mem[t][Index(virt, level)]) == p;
    MapsOneLevelUp(s1, levels1, s'.mem, t, level, virt, leaf);
    MapsAfterPutting(s, levels, s1.mem, levels1, p, s'.mem, t, level, virt, leaf);
  }

  /** The page of virt translates to leaf and every other page as before, mapped or not. */
  ghost predicate MapsPage(mem: Memory, mem': Memory, root: nat, virt: u64, leaf: u64) {
    forall v: u64 :: Translate(mem', root, v) == if SamePage(v, virt) then Page(leaf) else Translate(mem, root, v)
  }

  /** vmm_alloc is exact. The page reads back as the frame of `phys` with `flags | 1`; every other
      page translates as before, mapped or not; the tree of tables survives; and exactly the missing
      tables are taken from the pool. */
  lemma MapPageIsExact(s: Vm, levels: map<nat, nat>, virt: u64, phys: u64, flags: u8)
    returns (levels': map<nat, nat>)
    requires Tree(s, levels)
    requires !Translate(s.mem, s.root, virt).LargePage?
    requires Missing(s.mem, s.root, 3, virt) <= |FreePages(s.busy, s.window)|
    ensures var s' := MapPage(s, virt, phys, flags);
            && Grows(s, levels, s', levels', 3)
            && MapsPage(s.mem, s'.mem, s.root, virt, LeafEntry(phys, flags))
            && |FreePages(s'.busy, s.window)| == |FreePages(s.busy, s.window)| - Missing(s.mem, s.root, 3, virt)
  {
    var leaf := LeafEntry(phys, flags);
    levels' := MapFromInstalls(s, levels, s.root, 3, virt, leaf);
    RootMapsPage(s.mem, MapPage(s, virt, phys, flags).mem, levels, s.root, virt, leaf);
  }

  lemma RootMapsPage(mem: Memory, mem': Memory, levels: map<nat, nat>, root: nat, virt: u64, leaf: u64)
    requires root in levels && levels[root] == 3 && OnlyMaps(mem, mem', levels, root, 3, virt, leaf)
    ensures MapsPage(mem, mem', root, virt, leaf)
  {
    forall v: u64
      ensures Translate(mem', root, v) == if SamePage(v, virt) then Page(leaf) else Translate(mem, root, v)
    {
      SamePageMeansSameIndices(v, virt);
      if SamePage(v, virt) {
        WalkDependsOnIndices(mem', root, 3, v, virt);
      }
    }
  }

  lemma {:induction false} WalkDependsOnIndices(mem: Memory, t: nat, level: nat, v: u64, w: u64)
    requires level < 4 && SameBelow(v, w, level)
    ensures Walk(mem, t, level, v) == Walk(mem, t, level, w)
    decreases level
  {
    if level > 0 {
      WalkDependsOnIndices(mem, FrameOf(mem[t][Index(v, level)]), level - 1, v, w);
    }
  }

  lemma SamePageTranslates(mem: Memory, root: nat, v: u64, w: u64)
    requires SamePage(v, w)
    ensures Translate(mem, root, v) == Translate(mem, root, w)
  {
    SamePageMeansSameIndices(v, w);
    WalkDependsOnIndices(mem, root, 3, v, w);
  }
}
