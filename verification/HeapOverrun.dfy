/** What becomes of the heap when a page table lies in the frames of the heap bitmap, fifteen of which nobody
    reserves: the heap takes the table's entries for blocks, and writes its marks into them. */
module HeapOverrun {
  import opened Words
  import opened Bitmap
  import opened PagePool
  import opened MemoryMap
  import opened PageTables
  import opened MappingRuns
  import opened Exhaustion
  import opened DirectMap
  import opened Boot
  import opened HeapMemory
  import Heap

  // ---- How it comes about ----------------------------------------------------------------------

  /** A walk that makes a table takes the lowest free page for the first. */
  lemma {:induction false} FirstTakenIsBusy(s: Vm, t: nat, level: nat, virt: u64, leaf: u64)
    requires s.window <= FRAMES && level < 4 && Missing(s.mem, t, level, virt) >= 1
    requires 0 in s.busy && FreePages(s.busy, s.window) != {}
    ensures Take(s.busy, s.window).addr / PAGE_SIZE in MapFrom(s, t, level, virt, leaf).busy
    decreases level
  {
    var i := Index(virt, level);
    var s1 := EnsureTable(s, t, i);
    if Present(s.mem[t][i]) {
      assert s1 == s;
      hide EnsureTable, FreePages, Index, FrameOf, Take;
      FirstTakenIsBusy(s, FrameOf(s.mem[t][i]), level - 1, virt, leaf);
    } else {
      TakeMeaning(s.busy, s.window);
      assert s1.busy == Take(s.busy, s.window).busy;
      hide EnsureTable, FreePages, Index, FrameOf, Take;
      BusyStays(s1, FrameOf(s1.mem[t][i]), level - 1, virt, leaf);
    }
  }

  /** If the next page lies in the heap bitmap (`HeapBitmapIsOverrunIff`), the next call that lacks a table
      makes it one. */
  lemma TableLandsInBitmap(s: Vm, levels: map<nat, nat>, at: nat, virt: u64, phys: u64, flags: u8)
    returns (levels': map<nat, nat>, p: Frame)
    requires Tree(s, levels) && Mappable(s, virt) && Missing(s.mem, s.root, 3, virt) >= 1
    requires InBitmap(at, Take(s.busy, s.window).addr / PAGE_SIZE)
    ensures Grows(s, levels, MapPage(s, virt, phys, flags), levels', 3)
    ensures p == Take(s.busy, s.window).addr / PAGE_SIZE && p in levels' && p in BitmapFrames(at)
  {
    hide Tree, Translate, Missing, FreePages, LeafEntry, MapFrom;
    TreeFacts(s, levels);
    TakeMeaning(s.busy, s.window);
    p := Take(s.busy, s.window).addr / PAGE_SIZE;
    FreePagesFacts(s.busy, s.window);
    hide Take;
    levels' := MapPageIsExact(s, levels, virt, phys, flags);
    NotEmpty(FreePages(s.busy, s.window), p);
    FirstTakenIsBusy(s, s.root, 3, virt, LeafEntry(phys, flags));
  }

  lemma NotEmpty(pages: set<nat>, p: nat)
    ensures |pages| >= 1 ==> pages != {}
  {
  }

  // ---- What the heap makes of it ---------------------------------------------------------------

  /** The block that bit k of word i of the bitmap's frame j stands for. */
  function BlockOfEntry(j: nat, i: nat, k: nat): nat {
    64 * (512 * j + i) + k
  }

  /** The heap reads each bit of an entry as a block. */
  lemma EntryReadsAsBlocks(m: Machine, j: nat, i: nat, k: nat)
    requires BitmapMapped(m) && j < HEAP_BITMAP_FRAMES && i < 512 && k < 64
    ensures BlockOfEntry(j, i, k) < Heap.HEAP_MAX_BLOCKS
    ensures BlockOfEntry(j, i, k) in UsedBits(m) <==> Bit(m.vm.mem[m.at + j][i], k)
  {
    hide BitmapMapped, UsedBits, Marked, Bit, BlockOfEntry;
    BlockDigits(j, i, k);
    UsedIsMarked(m);
    EntryWord(m, j, i);
    MarkedBit(BitmapWords(m.vm.mem, m.at), BlockOfEntry(j, i, k));
  }

  lemma BlockDigits(j: nat, i: nat, k: nat)
    requires j < HEAP_BITMAP_FRAMES && i < 512 && k < 64
    ensures BlockOfEntry(j, i, k) / 64 == 512 * j + i && BlockOfEntry(j, i, k) % 64 == k
    ensures BlockOfEntry(j, i, k) < Heap.HEAP_MAX_BLOCKS
    ensures (512 * j + i) / 512 == j && (512 * j + i) % 512 == i
  {
  }

  /** So the pointer to a table costs a block nobody allocated: bit 0 of a present entry is set. */
  lemma PresentEntryTakesBlock(m: Machine, j: nat, i: nat)
    requires BitmapMapped(m) && j < HEAP_BITMAP_FRAMES && i < 512
    ensures BlockOfEntry(j, i, 0) in UsedBits(m) <==> Present(m.vm.mem[m.at + j][i])
  {
    hide BitmapMapped, UsedBits;
    EntryReadsAsBlocks(m, j, i, 0);
  }

  /** The bottom table on virt's path, for a path with no table missing, and what is read there as long as the
      tables above keep their content. */
  lemma {:induction false} WalkToBottom(s: Vm, levels: map<nat, nat>, mem: Memory, t: nat, level: nat, virt: u64)
    requires Tree(s, levels) && t in levels && levels[t] == level
    requires Missing(s.mem, t, level, virt) == 0 && !Walk(s.mem, t, level, virt).LargePage?
    requires forall f :: f in levels && levels[f] > 0 ==> mem[f] == s.mem[f]
    ensures var d := DeepestTable(s.mem, t, level, virt);
            && d in levels && levels[d] == 0 && Walk(mem, t, level, virt) == Walk(mem, d, 0, virt)
    decreases level
  {
    if level > 0 {
      assert Points(s.mem, t, Index(virt, level), level);
      TreeStep(s, levels, t, Index(virt, level));
      hide Tree, Index, FrameOf;
      WalkToBottom(s, levels, mem, FrameOf(s.mem[t][Index(virt, level)]), level - 1, virt);
    }
  }

  /** And when kmalloc or kfree marks that block, it maps or unmaps a page: the one whose entry in a bottom
      table the word is. */
  lemma MarkingBlockRemapsPage(m: Machine, levels: map<nat, nat>, j: nat, virt: u64, isSet: bool) returns (m': Machine)
    requires Tree(m.vm, levels) && BitmapMapped(m) && j < HEAP_BITMAP_FRAMES
    requires Missing(m.vm.mem, m.vm.root, 3, virt) == 0 && !Translate(m.vm.mem, m.vm.root, virt).LargePage?
    requires LastTable(m.vm, virt) == m.at + j
    ensures PutBit(m, BlockOfEntry(j, Index(virt, 0), 0), isSet) == Ran(m')
    ensures var e := m.vm.mem[m.at + j][Index(virt, 0)];
            Translate(m'.vm.mem, m.vm.root, virt) == if isSet then Page(WithBit(e, 0)) else Unmapped
  {
    hide Tree, BitmapMapped, Index, Missing, PutBit, BlockOfEntry, NewWord, Walk, WithBit;
    var i, d := Index(virt, 0), m.at + j;
    var e := m.vm.mem[d][i];
    TreeFacts(m.vm, levels);
    MarkingWritesEntry(m, j, i, isSet);
    m' := WithMemory(m, SetEntry(m.vm.mem, d, i, NewWord(e, 0, isSet)));
    hide WithMemory;
    WalkToBottom(m.vm, levels, m.vm.mem, m.vm.root, 3, virt);
    WalkToBottom(m.vm, levels, SetEntry(m.vm.mem, d, i, NewWord(e, 0, isSet)), m.vm.root, 3, virt);
    BottomEntry(SetEntry(m.vm.mem, d, i, NewWord(e, 0, isSet)), d, virt);
    BitZeroIsPresent(e, isSet);
  }

  lemma MarkingWritesEntry(m: Machine, j: nat, i: nat, isSet: bool)
    requires BitmapMapped(m) && j < HEAP_BITMAP_FRAMES && i < 512
    ensures PutBit(m, BlockOfEntry(j, i, 0), isSet)
            == Ran(WithMemory(m, SetEntry(m.vm.mem, m.at + j, i, NewWord(m.vm.mem[m.at + j][i], 0, isSet))))
  {
    hide BitmapMapped, BitmapWords, NewWord, PutBit, BlockOfEntry;
    BlockDigits(j, i, 0);
    EntryWord(m, j, i);
    PutBitWrites(m, BlockOfEntry(j, i, 0), isSet);
  }

  lemma EntryWord(m: Machine, j: nat, i: nat)
    requires j < HEAP_BITMAP_FRAMES && i < 512
    ensures 512 * j + i < Heap.HEAP_MAX_BLOCKS / 64
    ensures BitmapWords(m.vm.mem, m.at)[512 * j + i] == m.vm.mem[m.at + j][i]
  {
    BlockDigits(j, i, 0);
  }

  lemma BottomEntry(mem: Memory, d: nat, virt: u64)
    ensures Walk(mem, d, 0, virt)
            == if Present(mem[d][Index(virt, 0)]) then Page(mem[d][Index(virt, 0)]) else Unmapped
  {
  }

  lemma BitZeroIsPresent(e: u64, isSet: bool)
    ensures Present(NewWord(e, 0, isSet)) == isSet && (isSet ==> NewWord(e, 0, isSet) == WithBit(e, 0))
  {
    assert Bit(WithBit(e, 0), 0) && !Bit(WithoutBit(e, 0), 0);
    hide WithBit, WithoutBit;
  }
}
