/** The memory manager itself: the page bitmap and the page tables changed in place, each table and page
    reached through the direct map, proved against the page pool and paging specifications. */
module MemoryManager {
  import opened Words
  import opened Bitmap
  import opened PagePool
  import opened PageTables
  import opened MemoryMap
  import opened DirectMap
  import opened Boot
  import opened Kernel

  /** What a step of the walk comes back with. A page fault does not come back: its handler loops. */
  datatype Pointer = PageFault | To(address: u64)

  class Manager {
    /** The page bitmap lies at physical address bitmapPhys; the array stands for those bytes. */
    var bitmap: array<u64>
    var bitmapLength: nat
    var bitmapPhys: u64
    var heapBitmapPhys: u64
    var mem: Memory
    const cr3: u64
    const hhdm: u64

    ghost predicate Valid()
      reads this
    {
      bitmap.Length == bitmapLength && 64 * bitmapLength <= FRAMES
    }

    ghost function Busy(): set<nat>
      reads this, bitmap
    {
      Marked(bitmap[..])
    }

    /** Pages in the words that the allocator scans. */
    ghost function Window(): nat
      reads this
    {
      64 * (bitmapLength / 64)
    }

    ghost function View(): Vm
      reads this, bitmap
    {
      Vm(mem, Busy(), Window(), FrameOf(cr3))
    }

    constructor (mem: Memory, cr3: u64, hhdm: u64)
      ensures this.mem == mem && this.cr3 == cr3 && this.hhdm == hhdm
      ensures Valid() && bitmapLength == 0
    {
      this.mem, this.cr3, this.hhdm := mem, cr3, hhdm;
      bitmap, bitmapLength := new u64[0], 0;
      bitmapPhys, heapBitmapPhys := 0, 0;
    }

    // ---- Physical pages ------------------------------------------------------------------------

    /** The first-free scan over bitmapLength / 64 words. */
    method PmmAlloc2() returns (addr: u64)
      requires Valid()
      modifies bitmap
      ensures Grant(addr, Busy()) == Take(old(Busy()), Window()) && Window() == 64 * (bitmapLength / 64)
      ensures addr % PAGE_SIZE == 0 && addr / PAGE_SIZE < FRAMES
    {
      hide Take, Marked, Bit, ALL_ONES;
      ghost var busy := Busy();
      for i := 0 to bitmapLength / 64
        invariant Busy() == busy
        invariant forall p: nat :: p < 64 * i ==> p in busy
      {
        if bitmap[i] == ALL_ONES {
          FullWordMarks(bitmap[..], i);
          continue;
        }
        for j := 0 to 64
          invariant Busy() == busy
          invariant forall p: nat :: p < 64 * i + j ==> p in busy
        {
          var isSet := TestBit(bitmap[i], j);
          MarkedBit(bitmap[..], 64 * i + j);
          if !isSet {
            TakeIsLeast(busy, Window(), 64 * i + j);
            LockPage(64 * i + j, bitmap);
            addr := (i * 64 + j) * PAGE_SIZE;
            return;
          }
        }
      }
      TakeIsLeast(busy, Window(), Window());
      addr := 0;
    }

    // ---- Virtual pages -------------------------------------------------------------------------

    /** One of the three identical steps of the walk: make sure entry `index` of the table at physical
        address `table` points at a table, and return that table's address. */
    method NextTable(table: u64, index: nat) returns (r: Pointer)
      requires Valid() && index < 512 && table % PAGE_SIZE == 0
      modifies this`mem, bitmap
      ensures Window() == old(Window())
      ensures match StepThrough(old(View()), hhdm, table / PAGE_SIZE, index)
              case Faulted => r == PageFault
              case Next(s, next) => View() == s && r == To(next * PAGE_SIZE)
    {
      var slot := SlotAddress(table, index);
      hide LoadAt, Direct, AddThrough;
      var entry := LoadAt(mem, FrameOf(cr3), slot);
      if entry.LoadFault? {
        return PageFault;
      }
      var present := IsPresent(entry.w);
      if present {
        var address := TableAddress(entry.w);
        r := To(address);
      } else {
        r := AddTable(slot, table / PAGE_SIZE, index);
      }
    }

    /** `&table_virt[index]`. */
    method SlotAddress(table: u64, index: nat) returns (slot: u64)
      requires table % PAGE_SIZE == 0
      ensures slot == Direct(hhdm, table / PAGE_SIZE, index)
    {
      slot := (table + hhdm + 8 * index) % TWO_64;
    }

    /** The block that makes a missing table. */
    method AddTable(slot: u64, ghost t: nat, ghost index: nat) returns (r: Pointer)
      requires Valid() && index < 512 && slot == Direct(hhdm, t, index)
      modifies this`mem, bitmap
      ensures Window() == old(Window())
      ensures match AddThrough(old(View()), hhdm, t, index)
              case Faulted => r == PageFault
              case Next(s, next) => View() == s && r == To(next * PAGE_SIZE)
    {
      var newTable := PmmAlloc2();
      var page := SlotAddress(newTable, 0);
      hide LoadAt, StoreAt, ClearAt, Direct, Take;
      var cleared := ClearAt(mem, FrameOf(cr3), page);
      if cleared.StoreFault? {
        return PageFault;
      }
      var pointer := TablePointer(newTable);
      hide TableEntry;
      var stored := StoreAt(cleared.mem, FrameOf(cr3), slot, pointer);
      if stored.StoreFault? {
        return PageFault;
      }
      mem := stored.mem;
      var entry := LoadAt(mem, FrameOf(cr3), slot);
      if entry.LoadFault? {
        return PageFault;
      }
      var address := TableAddress(entry.w);
      r := To(address);
    }

    /** The same step as part of the walk of `virt` towards `leaf`. */
    method Descend(table: u64, index: nat, ghost level: nat, ghost virt: u64, ghost leaf: u64) returns (r: Pointer)
      requires Valid() && 0 < level < 4 && index == Index(virt, level) && table % PAGE_SIZE == 0
      modifies this`mem, bitmap
      ensures Window() == old(Window()) && (r.To? ==> r.address % PAGE_SIZE == 0)
      ensures MapThrough(old(View()), hhdm, table / PAGE_SIZE, level, virt, leaf)
              == if r == PageFault then Halted
                 else MapThrough(View(), hhdm, r.address / PAGE_SIZE, level - 1, virt, leaf)
    {
      hide StepThrough;
      r := NextTable(table, index);
    }

    /** vmm_alloc. `ok` is whether it comes back. */
    method VmmAlloc(virt: u64, phys: u64, flags: u8) returns (ok: bool)
      requires Valid()
      modifies this`mem, bitmap
      ensures Window() == old(Window())
      ensures MapPageThrough(old(View()), hhdm, virt, phys, flags) == if ok then Done(View()) else Halted
    {
      hide StepThrough, StoreAt, Direct, LeafEntry, FrameOf;
      var entry := PageEntry(phys, flags);
      var pml4 := TableAddress(cr3);
      var pml4Index, pdptIndex, pdIndex, ptIndex := Indices(virt);
      ghost var goal := MapPageThrough(View(), hhdm, virt, phys, flags);
      assert goal == MapThrough(View(), hhdm, pml4 / PAGE_SIZE, 3, virt, entry);
      var pdpt := Descend(pml4, pml4Index, 3, virt, entry);
      if pdpt == PageFault {
        return false;
      }
      assert goal == MapThrough(View(), hhdm, pdpt.address / PAGE_SIZE, 2, virt, entry);
      var pd := Descend(pdpt.address, pdptIndex, 2, virt, entry);
      if pd == PageFault {
        return false;
      }
      assert goal == MapThrough(View(), hhdm, pd.address / PAGE_SIZE, 1, virt, entry);
      var pt := Descend(pd.address, pdIndex, 1, virt, entry);
      if pt == PageFault {
        return false;
      }
      assert goal == MapThrough(View(), hhdm, pt.address / PAGE_SIZE, 0, virt, entry);
      ok := WriteLeaf(pt.address, ptIndex, entry);
    }

    /** `pt_virt[pt_index] = ...`. */
    method WriteLeaf(table: u64, index: nat, entry: u64) returns (ok: bool)
      requires Valid() && index < 512 && table % PAGE_SIZE == 0
      modifies this`mem
      ensures match StoreAt(old(mem), FrameOf(cr3), Direct(hhdm, table / PAGE_SIZE, index), entry)
              case StoreFault => !ok
              case Written(mem') => ok && mem == mem'
    {
      var slot := SlotAddress(table, index);
      hide StoreAt, Direct;
      var stored := StoreAt(mem, FrameOf(cr3), slot, entry);
      ok := stored.Written?;
      if ok {
        mem := stored.mem;
      }
    }

    // ---- Building the page bitmap --------------------------------------------------------------

    /** Puts the bitmap at the start of the first usable entry that can hold it. */
    method BitmapPointer(entries: seq<Entry>)
      modifies this`bitmap, this`bitmapPhys
      ensures var home := Home(entries, bitmapLength, 0);
              if home == |entries| then bitmap == old(bitmap) && bitmapPhys == old(bitmapPhys)
              else fresh(bitmap) && bitmap.Length == bitmapLength && bitmapPhys == entries[home].base
    {
      for i := 0 to |entries|
        invariant bitmap == old(bitmap) && bitmapPhys == old(bitmapPhys)
        invariant Home(entries, bitmapLength, 0) == Home(entries, bitmapLength, i)
      {
        if entries[i].kind == USABLE && entries[i].length >= bitmapLength * 8 {
          bitmap := new u64[bitmapLength];
          bitmapPhys := entries[i].base;
          return;
        }
      }
    }

    method AllBitmap1()
      requires Valid()
      modifies bitmap
      ensures forall p: nat :: p in Busy() <==> p < 64 * bitmapLength
    {
      for i := 0 to bitmapLength
        invariant forall k :: 0 <= k < i ==> bitmap[k] == ALL_ONES
      {
        bitmap[i] := ALL_ONES;
      }
      OnesMarkEverything(bitmap[..]);
    }

    method SetUsableRam(entries: seq<Entry>)
      requires Valid() && Covers(entries, bitmapLength)
      modifies bitmap
      ensures forall p :: p in Busy() <==> p in old(Busy()) && !UsablePage(entries, p)
    {
      for i := 0 to |entries|
        invariant forall p :: p in Busy() <==> p in old(Busy()) && !UsablePage(entries[..i], p)
      {
        label Before:
        if entries[i].kind == USABLE {
          InitialisationStaysInBounds(entries, bitmapLength, i);
          var startPage := entries[i].base / PAGE_SIZE;
          var pageCount := entries[i].length / PAGE_SIZE;
          for j := 0 to pageCount
            invariant forall p :: p in Busy() <==> p in old@Before(Busy()) && !(startPage <= p < startPage + j)
          {
            FreePage(startPage + j, bitmap);
          }
        }
        OneMoreEntry(entries, i);
      }
      assert entries[..|entries|] == entries;
    }

    method ProtectBitmapSpace()
      requires Valid() && bitmapPhys / PAGE_SIZE + BitmapPages(bitmapLength) <= 64 * bitmapLength
      modifies bitmap
      ensures forall p: nat :: p in Busy() <==>
                p in old(Busy()) || bitmapPhys / PAGE_SIZE <= p < bitmapPhys / PAGE_SIZE + BitmapPages(bitmapLength)
    {
      var pos := bitmapPhys / PAGE_SIZE;
      for i := 0 to BitmapPages(bitmapLength)
        invariant forall p: nat :: p in Busy() <==> p in old(Busy()) || pos <= p < pos + i
      {
        LockPage(pos + i, bitmap);
      }
    }

    /** Reserves one page for the heap bitmap and clears the sixteen that it occupies; bytes of the page
        bitmap among them are cleared as well. */
    method HeapBitmapPointer() returns (ok: bool)
      requires Valid()
      modifies bitmap, this`mem, this`heapBitmapPhys
      ensures var g := Take(old(Busy()), Window());
              var h := g.addr / PAGE_SIZE;
              match ClearedThrough(old(mem), FrameOf(cr3), hhdm, h, HEAP_BITMAP_FRAMES)
              case StoreFault => !ok
              case Written(mem') =>
                && ok && mem == mem' && heapBitmapPhys == h * PAGE_SIZE
                && Busy() == AfterWipe(g.busy, bitmapPhys, h)
    {
      heapBitmapPhys := PmmAlloc2();
      hide Take, ClearedThrough, BitCleared;
      ok := ClearPages(heapBitmapPhys / PAGE_SIZE);
      if ok {
        WipeBits(heapBitmapPhys / PAGE_SIZE);
      }
    }

    /** memset over sixteen pages through the direct map. */
    method ClearPages(f: nat) returns (ok: bool)
      modifies this`mem
      ensures match ClearedThrough(old(mem), FrameOf(cr3), hhdm, f, HEAP_BITMAP_FRAMES)
              case StoreFault => !ok
              case Written(mem') => ok && mem == mem'
    {
      hide ClearAt;
      for k := 0 to HEAP_BITMAP_FRAMES
        invariant ClearedThrough(old(mem), FrameOf(cr3), hhdm, f, k) == Written(mem)
      {
        var cleared := ClearAt(mem, FrameOf(cr3), (hhdm + (f + k) * PAGE_SIZE) % TWO_64);
        assert ClearedThrough(old(mem), FrameOf(cr3), hhdm, f, k + 1) == cleared;
        if cleared.StoreFault? {
          FaultStays(old(mem), FrameOf(cr3), hhdm, f, k + 1, HEAP_BITMAP_FRAMES);
          return false;
        }
        mem := cleared.mem;
      }
      ok := true;
    }

    /** The same memset as seen in the page bitmap. */
    method WipeBits(h: nat)
      requires Valid()
      modifies bitmap
      ensures Busy() == AfterWipe(old(Busy()), bitmapPhys, h)
    {
      for p := 0 to 64 * bitmapLength
        invariant forall q :: q in Busy() <==> q in old(Busy()) && (q < p ==> !BitCleared(bitmapPhys, h, q))
      {
        if BitCleared(bitmapPhys, h, p) {
          FreePage(p, bitmap);
        }
      }
    }

    /** init_bitmap_pmm up to its last call: exactly the pages of `InitialBusy` are busy. */
    method BuildBitmap(entries: seq<Entry>)
      requires Bootable(entries)
      modifies this`bitmap, this`bitmapLength, this`bitmapPhys
      ensures Valid() && fresh(bitmap) && IsLength(entries, bitmapLength)
      ensures Home(entries, bitmapLength, 0) < |entries| && bitmapPhys == entries[Home(entries, bitmapLength, 0)].base
      ensures Busy() == InitialBusy(entries, bitmapLength, bitmapPhys / PAGE_SIZE)
    {
      hide UsablePage, BitmapPages, StartsFree, Marked, Covers, FRAMES;
      bitmapLength := GetBitmapLength(entries);
      BootableLength(entries, bitmapLength);
      hide Bootable, IsLength, Home;
      BitmapPointer(entries);
      AllBitmap1();
      SetUsableRam(entries);
      InitialisationStaysInBounds(entries, bitmapLength, Home(entries, bitmapLength, 0));
      ProtectBitmapSpace();
      LockPage(0, bitmap);
      BusyIsInitial(Busy(), entries, bitmapLength, bitmapPhys / PAGE_SIZE);
    }

    method InitBitmapPmm(entries: seq<Entry>, ghost ioapicBase: u64) returns (ok: bool, ghost k: Start)
      requires Bootable(entries)
      modifies this
      ensures Valid() && fresh(bitmap) && IsLength(entries, bitmapLength) && k.words == bitmapLength
      ensures StartsFrom(k, entries, old(mem), FrameOf(cr3), hhdm, ioapicBase)
      ensures InitThrough(k) == if ok then Done(View()) else Halted
      ensures ok ==> heapBitmapPhys == HeapBitmapPage(k) * PAGE_SIZE
    {
      hide ClearedThrough, Home, InitialBusy, Take, AfterWipe, IsLength, Bootable, Marked;
      BuildBitmap(entries);
      k := Start(entries, bitmapLength, bitmapPhys, mem, FrameOf(cr3), hhdm, ioapicBase);
      ok := HeapBitmapPointer();
    }

    // ---- Bring-up ------------------------------------------------------------------------------

    /** The body of the loop in kmain. */
    method BackNextPage(i: nat) returns (ok: bool)
      requires Valid() && i < HEAP_PAGES
      modifies this`mem, bitmap
      ensures Window() == old(Window())
      ensures BackThrough(old(View()), hhdm, i) == if ok then Done(View()) else Halted
    {
      hide MapPageThrough;
      var phys := PmmAlloc2();
      ok := VmmAlloc(HEAP_VIRT_START + i * PAGE_SIZE, phys, HEAP_FLAGS);
    }

    method MapDevicePages(ioapicBase: u64) returns (ok: bool)
      requires Valid()
      modifies this`mem, bitmap
      ensures Window() == old(Window())
      ensures DevicesThrough(old(View()), hhdm, ioapicBase) == if ok then Done(View()) else Halted
    {
      hide MapPageThrough;
      ok := VmmAlloc((hhdm + LAPIC_PHYS) % TWO_64, LAPIC_PHYS, DEVICE_FLAGS);
      if ok {
        ok := VmmAlloc(ioapicBase, (ioapicBase - hhdm) % TWO_64, DEVICE_FLAGS);
      }
    }

    method MapHeapPages() returns (ok: bool)
      requires Valid()
      modifies this`mem, bitmap
      ensures Window() == old(Window())
      ensures BackAllThrough(old(View()), hhdm, HEAP_PAGES) == if ok then Done(View()) else Halted
    {
      hide BackThrough;
      ghost var base := View();
      for i := 0 to HEAP_PAGES
        invariant Window() == old(Window())
        invariant BackAllThrough(base, hhdm, i) == Done(View())
      {
        ghost var before := View();
        ok := BackNextPage(i);
        assert BackAllThrough(base, hhdm, i + 1) == BackThrough(before, hhdm, i);
        if !ok {
          HaltStays(base, hhdm, i + 1, HEAP_PAGES);
          return;
        }
      }
      ok := true;
    }

    /** kmain after init_bitmap_pmm: the two device pages and the 512 heap pages. */
    method MapBootPages(ioapicBase: u64) returns (ok: bool)
      requires Valid()
      modifies this`mem, bitmap
      ensures BootThrough(old(View()), hhdm, ioapicBase) == if ok then Done(View()) else Halted
      ensures forall levels, pages, a: nat ::
                BootReady(old(View()), levels, hhdm, ioapicBase, pages) && IoapicAt(ioapicBase, hhdm, a) ==>
                  ok && BroughtUp(old(View()), View(), hhdm, a)
    {
      hide DevicesThrough, BackAllThrough, BootReady, BootMemory, BroughtUp;
      ok := MapDevicePages(ioapicBase);
      if ok {
        ok := MapHeapPages();
      }
      forall levels, pages, a: nat |
        BootReady(old(View()), levels, hhdm, ioapicBase, pages) && IoapicAt(ioapicBase, hhdm, a)
        ensures ok && BroughtUp(old(View()), View(), hhdm, a)
      {
        BootBringsUp(old(View()), levels, hhdm, ioapicBase, pages, a);
      }
    }

    /** The memory part of kmain from init_bitmap_pmm on. It comes back if the machine it starts on is as
        `KernelReady` asks, and then leaves what the separation theorem `KernelHeapIsSeparate` starts from. */
    method Kmain(entries: seq<Entry>, ioapicBase: u64) returns (ok: bool, ghost k: Start)
      requires Bootable(entries)
      modifies this
      ensures IsLength(entries, bitmapLength) && k.words == bitmapLength && 64 * k.words <= FRAMES
      ensures StartsFrom(k, entries, old(mem), FrameOf(cr3), hhdm, ioapicBase)
      ensures KmainThrough(k) == if ok then Done(View()) else Halted
      ensures forall levels, pages :: KernelReady(k, levels, pages) ==>
                ok && View() == MachineAfterKmain(k).vm && heapBitmapPhys == MachineAfterKmain(k).at * PAGE_SIZE
      ensures forall levels, pages, a: nat :: KernelReady(k, levels, pages) && IoapicAt(ioapicBase, hhdm, a) ==>
                BroughtUp(AfterInit(k), View(), hhdm, a)
    {
      hide InitThrough, BootThrough, KernelReady, BootMemory, AfterInit, HeapBitmapPage, StartsFrom, BroughtUp;
      ok, k := InitBitmapPmm(entries, ioapicBase);
      label Initialised:
      KnownAddresses(k, entries, old(mem), FrameOf(cr3), hhdm, ioapicBase);
      if ok {
        ok := MapBootPages(ioapicBase);
      }
      forall levels, pages | KernelReady(k, levels, pages)
        ensures KmainThrough(k) == Done(MachineAfterKmain(k).vm)
      {
        KmainRunsThrough(k, levels, pages);
      }
      forall levels, pages, a: nat | KernelReady(k, levels, pages) && IoapicAt(ioapicBase, hhdm, a)
        ensures BroughtUp(AfterInit(k), View(), hhdm, a)
      {
        KmainBringsUp(k, levels, pages, a);
      }
    }
  }

  /** k describes this memory map and machine, with the page bitmap in its home. */
  ghost predicate StartsFrom(k: Start, entries: seq<Entry>, mem: Memory, root: nat, hhdm: u64, ioapic: u64) {
    var home := Home(entries, k.words, 0);
    home < |entries| && k == Start(entries, k.words, entries[home].base, mem, root, hhdm, ioapic)
  }

  lemma KnownAddresses(k: Start, entries: seq<Entry>, mem: Memory, root: nat, hhdm: u64, ioapic: u64)
    requires StartsFrom(k, entries, mem, root, hhdm, ioapic)
    ensures k.hhdm == hhdm && k.ioapic == ioapic
  {
  }

  lemma {:induction false} FaultStays(mem: Memory, root: nat, hhdm: u64, f: nat, k: nat, n: nat)
    requires k <= n && ClearedThrough(mem, root, hhdm, f, k) == StoreFault
    ensures ClearedThrough(mem, root, hhdm, f, n) == StoreFault
    decreases n
  {
    hide ClearAt;
    if k < n {
      FaultStays(mem, root, hhdm, f, k, n - 1);
    }
  }

  lemma {:induction false} HaltStays(s: Vm, hhdm: u64, k: nat, n: nat)
    requires s.window <= FRAMES && k <= n <= HEAP_PAGES && BackAllThrough(s, hhdm, k) == Halted
    ensures BackAllThrough(s, hhdm, n) == Halted
    decreases n
  {
    hide BackThrough;
    if k < n {
      HaltStays(s, hhdm, k, n - 1);
    }
  }

  // ---- The bit operations of the walk ----------------------------------------------------------

  method IsPresent(entry: u64) returns (present: bool)
    ensures present <==> Present(entry)
  {
    AndPresent(entry);
    present := And(entry, PTE_PRESENT) != 0;
  }

  method TableAddress(entry: u64) returns (addr: u64)
    ensures addr == FrameOf(entry) * PAGE_SIZE
  {
    AndMaskIsFrame(entry);
    addr := And(entry, PTE_MASK);
  }

  method Indices(virt: u64) returns (pml4: nat, pdpt: nat, pd: nat, pt: nat)
    ensures pml4 == Index(virt, 3) && pdpt == Index(virt, 2) && pd == Index(virt, 1) && pt == Index(virt, 0)
  {
    AndIndex(virt);
    pml4 := And(virt / 0x80_0000_0000, 0x1FF);
    pdpt := And(virt / 0x4000_0000, 0x1FF);
    pd := And(virt / 0x20_0000, 0x1FF);
    pt := And(virt / 0x1000, 0x1FF);
  }

  method TablePointer(newTable: u64) returns (entry: u64)
    requires newTable % PAGE_SIZE == 0 && newTable / PAGE_SIZE < FRAMES
    ensures entry == TableEntry(newTable / PAGE_SIZE)
  {
    OrTableEntry(newTable / PAGE_SIZE);
    entry := Or(Or(newTable, PTE_PRESENT), PTE_WRITABLE);
  }

  method PageEntry(phys: u64, flags: u8) returns (entry: u64)
    ensures entry == LeafEntry(phys, flags)
  {
    OrLeafEntry(phys, flags);
    entry := Or(Or(And(phys, PTE_MASK), flags), 1);
  }

  lemma BusyIsInitial(busy: set<nat>, entries: seq<Entry>, words: nat, home: nat)
    requires 0 < words && home + BitmapPages(words) <= 64 * words
    requires forall p: nat :: p in busy <==>
               (p < 64 * words && !UsablePage(entries, p)) || home <= p < home + BitmapPages(words) || p == 0
    ensures busy == InitialBusy(entries, words, home)
  {
    hide UsablePage, BitmapPages;
  }
}
