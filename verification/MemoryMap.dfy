/** The bootloader's memory map and what it says about the page bitmap: how long the bitmap is, where it
    is put, which pages start out free, and that every page number touched on the way is in bounds. */
module MemoryMap {
  import opened Words
  import opened PagePool
  import opened PageTables

  const USABLE := 0

  datatype Entry = Entry(base: u64, length: u64, kind: nat)

  /** No entry ends within a page of 2^64, so neither the ends nor their rounding wrap. */
  ghost predicate NoOverflow(entries: seq<Entry>) {
    forall i :: 0 <= i < |entries| ==> entries[i].base + entries[i].length <= TWO_64 - PAGE_SIZE
  }

  /** Page p is one of the whole pages counted from a usable entry's first page. */
  ghost predicate UsablePage(entries: seq<Entry>, p: nat) {
    exists i :: 0 <= i < |entries| && PageOfEntry(entries[i], p)
  }

  ghost predicate PageOfEntry(e: Entry, p: nat) {
    e.kind == USABLE && e.base / PAGE_SIZE <= p < e.base / PAGE_SIZE + e.length / PAGE_SIZE
  }

  /** The bitmap of `words` words covers the map. */
  ghost predicate Covers(entries: seq<Entry>, words: nat) {
    forall i :: 0 <= i < |entries| ==> entries[i].base + entries[i].length <= words * 64 * PAGE_SIZE
  }

  /** `words` is the least number of 64-page words that covers the map. */
  ghost predicate IsLength(entries: seq<Entry>, words: nat) {
    && Covers(entries, words)
    && (words > 0 ==>
          exists i :: 0 <= i < |entries| && entries[i].base + entries[i].length > (words - 1) * 64 * PAGE_SIZE)
  }

  /** Where an entry ends, as the source computes it: at 64 bits. */
  function End(e: Entry): u64 {
    (e.base + e.length) % TWO_64
  }

  /** The greatest of those, or 0. */
  ghost function MaxEnd(entries: seq<Entry>): (m: u64)
    ensures forall i :: 0 <= i < |entries| ==> End(entries[i]) <= m
    ensures m == 0 || exists i :: 0 <= i < |entries| && End(entries[i]) == m
  {
    if entries == [] then 0
    else
      var m, e := MaxEnd(entries[..|entries| - 1]), End(entries[|entries| - 1]);
      if e >= m then e else m
  }

  /** Pages up to that address, in words of 64; the rounding sum wraps. */
  function WordsFor(maxAddr: u64): nat {
    ((maxAddr + PAGE_SIZE - 1) % TWO_64 / PAGE_SIZE + 63) / 64
  }

  method GetBitmapLength(entries: seq<Entry>) returns (words: nat)
    ensures words == WordsFor(MaxEnd(entries))
    ensures NoOverflow(entries) ==> IsLength(entries, words)
    ensures Covers(entries, words) <==> EndsFit(entries)
  {
    var maxAddr: u64 := 0;
    for i := 0 to |entries|
      invariant maxAddr == MaxEnd(entries[..i])
    {
      assert entries[..i + 1][..i] == entries[..i];
      var entryEnd := End(entries[i]);
      if entryEnd >= maxAddr {
        maxAddr := entryEnd;
      }
    }
    assert entries[..|entries|] == entries;
    words := WordsFor(maxAddr);
    LengthWithoutOverflow(entries);
    LengthCoversIff(entries);
  }

  /** When the length computed covers the map: no entry ends beyond 2^64, none within a page below it, and
      if one ends there exactly, whose end wraps to 0, another ends in the last 64 pages before that. */
  ghost predicate EndsFit(entries: seq<Entry>) {
    && (forall i :: 0 <= i < |entries| ==>
          entries[i].base + entries[i].length <= TWO_64 && End(entries[i]) <= TWO_64 - PAGE_SIZE)
    && ((exists i :: 0 <= i < |entries| && entries[i].base + entries[i].length == TWO_64) ==>
         exists j :: 0 <= j < |entries| && End(entries[j]) > TWO_64 - 64 * PAGE_SIZE)
  }

  lemma WordsForBounds(m: u64)
    ensures m > TWO_64 - PAGE_SIZE ==> WordsFor(m) == 0
    ensures m <= TWO_64 - PAGE_SIZE ==> m <= WordsFor(m) * 64 * PAGE_SIZE < m + 64 * PAGE_SIZE
    ensures WordsFor(m) * 64 * PAGE_SIZE <= TWO_64
  {
  }

  lemma LengthWithoutOverflow(entries: seq<Entry>)
    ensures NoOverflow(entries) ==> IsLength(entries, WordsFor(MaxEnd(entries)))
  {
    if NoOverflow(entries) {
      WordsForBounds(MaxEnd(entries));
      hide WordsFor;
      forall i | 0 <= i < |entries| ensures End(entries[i]) == entries[i].base + entries[i].length {
      }
    }
  }

  lemma LengthCoversIff(entries: seq<Entry>)
    ensures Covers(entries, WordsFor(MaxEnd(entries))) <==> EndsFit(entries)
  {
    var m := MaxEnd(entries);
    WordsForBounds(m);
    hide WordsFor, MaxEnd;
    if Covers(entries, WordsFor(m)) {
      forall i | 0 <= i < |entries|
        ensures entries[i].base + entries[i].length <= TWO_64 && End(entries[i]) <= TWO_64 - PAGE_SIZE
      {
        assert entries[i].base + entries[i].length <= WordsFor(m) * 64 * PAGE_SIZE;
      }
    }
    if EndsFit(entries) {
      forall i | 0 <= i < |entries| ensures entries[i].base + entries[i].length <= WordsFor(m) * 64 * PAGE_SIZE {
        assert End(entries[i]) <= m;
      }
    }
  }

  /** Pages the bitmap of `words` words takes up. */
  function BitmapPages(words: nat): nat {
    (words * 8 + PAGE_SIZE - 1) / PAGE_SIZE
  }

  /** The first usable entry that can hold the bitmap, or |entries|. */
  ghost function Home(entries: seq<Entry>, words: nat, from: nat): (r: nat)
    requires from <= |entries|
    ensures from <= r <= |entries|
    ensures r < |entries| ==> entries[r].kind == USABLE && entries[r].length >= words * 8
    ensures forall i :: from <= i < r ==> entries[i].kind != USABLE || entries[i].length < words * 8
    decreases |entries| - from
  {
    if from == |entries| || (entries[from].kind == USABLE && entries[from].length >= words * 8) then from
    else Home(entries, words, from + 1)
  }

  /** Freeing usable pages and locking the bitmap's own pages stays inside a bitmap that covers the map. */
  lemma InitialisationStaysInBounds(entries: seq<Entry>, words: nat, i: nat)
    requires Covers(entries, words) && i < |entries|
    ensures entries[i].base / PAGE_SIZE + entries[i].length / PAGE_SIZE <= 64 * words
    ensures words * 8 <= entries[i].length ==> entries[i].base / PAGE_SIZE + BitmapPages(words) <= 64 * words
  {
    assert entries[i].base + entries[i].length <= words * 64 * PAGE_SIZE;
  }

  /** The pages locked for the bitmap hold all its bytes exactly when the bitmap does not start so late
      in its first page that it spills over; a page-aligned start never spills. */
  lemma BitmapProtectsItselfIff(base: nat, words: nat)
    ensures (forall a: nat :: base <= a < base + words * 8 ==>
              base / PAGE_SIZE <= a / PAGE_SIZE < base / PAGE_SIZE + BitmapPages(words))
            <==> base % PAGE_SIZE + words * 8 <= BitmapPages(words) * PAGE_SIZE || words == 0
    ensures base % PAGE_SIZE == 0 ==> base % PAGE_SIZE + words * 8 <= BitmapPages(words) * PAGE_SIZE
  {
    if words > 0 {
      var last := base + words * 8 - 1;
      assert base <= last < base + words * 8;
      if base % PAGE_SIZE + words * 8 > BitmapPages(words) * PAGE_SIZE {
        assert last / PAGE_SIZE >= base / PAGE_SIZE + BitmapPages(words);
      }
    }
  }

  /** For a page-aligned entry the pages counted are exactly the pages that lie inside it. */
  lemma AlignedEntryPages(e: Entry, p: nat)
    requires e.base % PAGE_SIZE == 0
    ensures PageOfEntry(e, p)
            <==> e.kind == USABLE && e.base <= p * PAGE_SIZE && (p + 1) * PAGE_SIZE <= e.base + e.length
  {
  }

  /** A map kmain can start from: all memory within reach of page-table entries, and a nonempty usable
      entry that can hold the bitmap for all of it. */
  ghost predicate Bootable(entries: seq<Entry>) {
    && (forall i :: 0 <= i < |entries| ==> entries[i].base + entries[i].length <= FRAMES * PAGE_SIZE)
    && exists i :: 0 <= i < |entries| && HoldsBitmap(entries, entries[i])
  }

  ghost predicate HoldsBitmap(entries: seq<Entry>, e: Entry) {
    e.kind == USABLE && e.length > 0 && forall words: nat :: IsLength(entries, words) ==> words * 8 <= e.length
  }

  lemma BootableLength(entries: seq<Entry>, words: nat)
    requires Bootable(entries)
    ensures NoOverflow(entries)
    ensures IsLength(entries, words) ==> 0 < words && 64 * words <= FRAMES && Home(entries, words, 0) < |entries|
  {
    var i :| 0 <= i < |entries| && HoldsBitmap(entries, entries[i]);
  }

  lemma OneMoreEntry(entries: seq<Entry>, i: nat)
    requires i < |entries|
    ensures forall p :: UsablePage(entries[..i + 1], p) <==> UsablePage(entries[..i], p) || PageOfEntry(entries[i], p)
  {
    forall p ensures UsablePage(entries[..i + 1], p) <==> UsablePage(entries[..i], p) || PageOfEntry(entries[i], p) {
      if k :| 0 <= k < i && PageOfEntry(entries[..i][k], p) {
        assert PageOfEntry(entries[..i + 1][k], p);
      }
      if PageOfEntry(entries[i], p) {
        assert PageOfEntry(entries[..i + 1][i], p);
      }
    }
  }

  /** The pages that are busy just before the heap bitmap is taken. */
  ghost function InitialBusy(entries: seq<Entry>, words: nat, home: nat): set<nat> {
    set p: nat | p < 64 * words && !StartsFree(entries, words, home, p)
  }

  /** Free at the start: usable, not page 0, and not one of the bitmap's own pages. */
  ghost predicate StartsFree(entries: seq<Entry>, words: nat, home: nat, p: nat) {
    UsablePage(entries, p) && p != 0 && !(home <= p < home + BitmapPages(words))
  }

  /** In numbers, for any entry: pages are counted from the one its first byte lies in, as many as its length has
      whole pages. */
  lemma EntryPages(e: Entry, p: nat)
    ensures PageOfEntry(e, p)
            <==> e.kind == 0 && e.base < 4096 * (p + 1) && 4096 * (p + 1) <= e.length + e.base / 4096 * 4096
  {
  }

  /** The least number of pages for the bitmap's bytes. */
  lemma BitmapPagesAreLeast(words: nat, n: nat)
    ensures 4096 * BitmapPages(words) >= 8 * words
    ensures 4096 * n >= 8 * words ==> BitmapPages(words) <= n
  {
  }

  /** Page p lies wholly in an entry of usable memory, and no byte of the page bitmap at `base` lies in it. */
  ghost predicate InUsableMemory(entries: seq<Entry>, p: nat) {
    exists i :: && 0 <= i < |entries| && entries[i].kind == 0
                && entries[i].base <= 4096 * p && 4096 * p + 4096 <= entries[i].base + entries[i].length
  }

  ghost predicate HoldsBitmapByte(base: nat, words: nat, p: nat) {
    exists a :: base <= a < base + 8 * words && a / 4096 == p
  }

  /** On a page-aligned map these are the pages that start free, but for page 0: no other is, and no such page
      is missed. */
  lemma AlignedMapStartsFree(entries: seq<Entry>, words: nat, base: nat, p: nat)
    requires forall i :: 0 <= i < |entries| ==> entries[i].base % 4096 == 0
    requires base % 4096 == 0
    ensures StartsFree(entries, words, base / PAGE_SIZE, p)
            <==> p != 0 && InUsableMemory(entries, p) && !HoldsBitmapByte(base, words, p)
  {
    PagesOfAlignedBitmap(base, words, p);
    hide HoldsBitmapByte, BitmapPages;
    if UsablePage(entries, p) {
      var i :| 0 <= i < |entries| && PageOfEntry(entries[i], p);
      AlignedEntryPages(entries[i], p);
      assert entries[i].base <= 4096 * p;
    }
    if InUsableMemory(entries, p) {
      var i :| && 0 <= i < |entries| && entries[i].kind == 0
               && entries[i].base <= 4096 * p && 4096 * p + 4096 <= entries[i].base + entries[i].length;
      AlignedEntryPages(entries[i], p);
      assert PageOfEntry(entries[i], p);
    }
  }

  lemma PagesOfAlignedBitmap(base: nat, words: nat, p: nat)
    requires base % 4096 == 0
    ensures base / PAGE_SIZE <= p < base / PAGE_SIZE + BitmapPages(words) <==> HoldsBitmapByte(base, words, p)
  {
    if base / PAGE_SIZE <= p < base / PAGE_SIZE + BitmapPages(words) {
      assert 4096 * p < base + 8 * words && 4096 * p / 4096 == p;
    }
  }

  // ---- The heap bitmap -------------------------------------------------------------------------

  /** Frames the heap bitmap of 8192 words occupies. One of them is taken from the pool. */
  const HEAP_BITMAP_FRAMES := 16

  /** The next page the allocator gives out lies inside the heap bitmap exactly when one of the fifteen
      pages after the one reserved for it is free in the window. */
  lemma HeapBitmapIsOverrunIff(busy: set<nat>, window: nat)
    requires 0 in busy && Take(busy, window).addr != 0
    ensures var g := Take(busy, window);
            var h, next := g.addr / PAGE_SIZE, Take(g.busy, window).addr / PAGE_SIZE;
            (h <= next < h + HEAP_BITMAP_FRAMES)
            <==> exists p :: h < p < h + HEAP_BITMAP_FRAMES && p in FreePages(busy, window)
  {
    TakeMeaning(busy, window);
    var g := Take(busy, window);
    var h := g.addr / PAGE_SIZE;
    TakeMeaning(g.busy, window);
    var next := Take(g.busy, window).addr / PAGE_SIZE;
    if p :| h < p < h + HEAP_BITMAP_FRAMES && p in FreePages(busy, window) {
      assert p in FreePages(g.busy, window);
      assert next in FreePages(busy, window);
    }
    if h <= next < h + HEAP_BITMAP_FRAMES {
      assert next in FreePages(g.busy, window);
    }
  }

  /** Plain free memory after the reserved page: the first page table overlaps the heap bitmap. */
  lemma HeapBitmapOverrunExample()
    ensures Take({0}, 64) == Grant(PAGE_SIZE, {0, 1})
    ensures Take({0, 1}, 64).addr == 2 * PAGE_SIZE
  {
    assert LowestFree({0}, 0, 64) == LowestFree({0}, 1, 64);
    assert LowestFree({0, 1}, 0, 64) == LowestFree({0, 1}, 1, 64) == LowestFree({0, 1}, 2, 64);
  }

  /** Page p has its bit in a byte of a page bitmap at address `base` that clearing the heap bitmap at page
      h clears. */
  predicate BitCleared(base: nat, h: nat, p: nat) {
    h * PAGE_SIZE <= base + p / 8 < (h + HEAP_BITMAP_FRAMES) * PAGE_SIZE
  }

  /** What is left of the busy pages. */
  ghost function AfterWipe(busy: set<nat>, base: nat, h: nat): set<nat> {
    set p | p in busy && !BitCleared(base, h, p)
  }

  /** Clearing sixteen pages spares the page bitmap of `words` words exactly when the two do not overlap;
      the source does not look. */
  lemma WipeSparesBitmapIff(base: nat, words: nat, h: nat)
    requires words > 0
    ensures (forall p: nat :: p < 64 * words ==> !BitCleared(base, h, p))
            <==> base + 8 * words <= h * PAGE_SIZE || (h + HEAP_BITMAP_FRAMES) * PAGE_SIZE <= base
  {
    var b := if h * PAGE_SIZE <= base then 0 else h * PAGE_SIZE - base;
    if b < 8 * words && base < (h + HEAP_BITMAP_FRAMES) * PAGE_SIZE {
      assert BitCleared(base, h, 8 * b) && 8 * b < 64 * words;
    }
  }

  /** A page and 256 MiB right behind it. The page is too small for the page bitmap, so the bitmap goes to
      page 2 and the heap bitmap to page 1; clearing it makes every page look free, and the next call gives
      out page 0, which its caller takes for exhaustion. */
  lemma PageBitmapWipedExample()
    ensures var entries := [Entry(PAGE_SIZE, PAGE_SIZE, USABLE), Entry(2 * PAGE_SIZE, 0x1000_0000, USABLE)];
            && IsLength(entries, 1025) && Home(entries, 1025, 0) == 1
            && var g := Take(InitialBusy(entries, 1025, 2), 64 * (1025 / 64));
               && g.addr == PAGE_SIZE && AfterWipe(g.busy, 2 * PAGE_SIZE, 1) == {}
               && Take({}, 64 * (1025 / 64)) == Grant(0, {0})
  {
    var entries := [Entry(PAGE_SIZE, PAGE_SIZE, USABLE), Entry(2 * PAGE_SIZE, 0x1000_0000, USABLE)];
    var busy := InitialBusy(entries, 1025, 2);
    assert entries[1].base + entries[1].length > 1024 * 64 * PAGE_SIZE;
    assert Home(entries, 1025, 0) == Home(entries, 1025, 1) == 1;
    assert PageOfEntry(entries[0], 1);
    assert LowestFree(busy, 0, 1024) == LowestFree(busy, 1, 1024) == 1;
    assert LowestFree({}, 0, 1024) == 0;
  }

  // ---- The scan window -------------------------------------------------------------------------

  /** The bitmap's length counts 64-page words, but the scan reads length / 64 words: a page beyond that
      window is never handed out, however free it is. */
  lemma UnscannedPagesAreNeverTaken(busy: set<nat>, words: nat, n: nat, p: nat)
    requires 0 in busy && p in FreePages(busy, 64 * words) && p >= 64 * (words / 64)
    ensures p * PAGE_SIZE !in Results(busy, 64 * (words / 64), n)
  {
    RunOfTakes(busy, 64 * (words / 64), n);
    var r := Results(busy, 64 * (words / 64), n);
    forall i | 0 <= i < n ensures r[i] != p * PAGE_SIZE {
      if i < |FreePages(busy, 64 * (words / 64))| {
        assert r[i] / PAGE_SIZE in FreePages(busy, 64 * (words / 64));
      }
    }
  }

  /** Every bitmap has such pages: the allocator can report exhaustion with memory to spare. */
  lemma ExhaustedWithFreePageExample(words: nat) returns (busy: set<nat>)
    requires words >= 1
    ensures 0 in busy && FreePages(busy, 64 * words) == {64 * words - 1}
    ensures Take(busy, 64 * (words / 64)).addr == 0
  {
    busy := set p: nat | p < 64 * words - 1 && p in FreePages({}, 64 * words);
    assert FreePages(busy, 64 * (words / 64)) == {};
    TakeMeaning(busy, 64 * (words / 64));
  }
}
