/** Where the layers meet: the heap's words live in frames that the page tables map, its bitmap in sixteen
    frames reached through the direct map, and kmalloc, kfree and clients access both through virtual
    addresses. A run of the heap on this machine is a run of the abstract heap, it does not fault, and it
    disturbs nothing else. */
module HeapMemory {
  import opened Words
  import opened Bitmap
  import opened PagePool
  import opened MemoryMap
  import opened PageTables
  import opened DirectMap
  import opened Boot
  import Heap
  import HeapRuns

  /** Words and blocks of the heap's 2 MiB that kmain maps, out of the 8 MiB the bitmap covers. */
  const MAPPED_WORDS := 512 * HEAP_PAGES
  const MAPPED_BLOCKS := MAPPED_WORDS / 2

  /** The heap pages are mapped, writable, to these frames. */
  ghost predicate Mapped(vm: Vm, frames: seq<Frame>) {
    && |frames| == HEAP_PAGES
    && (forall i :: 0 <= i < HEAP_PAGES ==> Translate(vm.mem, vm.root, HeapPage(i)) == Page(TableEntry(frames[i])))
  }

  /** They are distinct busy frames, none of them frame 0 or a table. */
  ghost predicate Owned(vm: Vm, levels: map<nat, nat>, frames: seq<Frame>) {
    && (forall i :: 0 <= i < |frames| ==> frames[i] != 0 && frames[i] in vm.busy && frames[i] !in levels)
    && (forall i, j :: 0 <= i < j < |frames| ==> frames[i] != frames[j])
  }

  ghost predicate Window(vm: Vm, levels: map<nat, nat>, frames: seq<Frame>) {
    Tree(vm, levels) && Mapped(vm, frames) && Owned(vm, levels, frames)
  }

  // ---- Addresses in the window -----------------------------------------------------------------

  /** The physical byte a mapped virtual address names. */
  ghost function PhysicalByte(vm: Vm, v: u64): nat
    requires Translate(vm.mem, vm.root, v).Page?
  {
    FrameOf(Translate(vm.mem, vm.root, v).entry) * PAGE_SIZE + v % PAGE_SIZE
  }

  ghost function FrameBehind(frames: seq<Frame>, v: u64): Frame
    requires |frames| == HEAP_PAGES && InHeapWindow(v)
  {
    frames[PageNumber(v) - HEAP_PAGE_NUMBER]
  }

  lemma WindowTranslates(vm: Vm, frames: seq<Frame>, v: u64)
    requires Mapped(vm, frames) && InHeapWindow(v)
    ensures Translate(vm.mem, vm.root, v) == Page(TableEntry(FrameBehind(frames, v)))
    ensures PhysicalByte(vm, v) == FrameBehind(frames, v) * PAGE_SIZE + v % PAGE_SIZE
  {
    var i := PageNumber(v) - HEAP_PAGE_NUMBER;
    HeapPageNumber(i);
    SamePageMeansSameIndices(v, HeapPage(i));
    WalkDependsOnIndices(vm.mem, vm.root, 3, v, HeapPage(i));
  }

  /** Distinct addresses in the window, up to the 48 bits that translation reads, name distinct physical
      bytes, and none of them lies in a table or in frame 0. */
  lemma WindowBytesAreSeparate(vm: Vm, levels: map<nat, nat>, frames: seq<Frame>, v: u64, w: u64)
    requires Window(vm, levels, frames) && InHeapWindow(v) && InHeapWindow(w)
    ensures Translate(vm.mem, vm.root, v).Page? && Translate(vm.mem, vm.root, w).Page?
    ensures PhysicalByte(vm, v) == PhysicalByte(vm, w) <==> v % 0x1_0000_0000_0000 == w % 0x1_0000_0000_0000
    ensures PhysicalByte(vm, v) / PAGE_SIZE != 0 && PhysicalByte(vm, v) / PAGE_SIZE !in levels
    ensures PhysicalByte(vm, v) / PAGE_SIZE in vm.busy && PhysicalByte(vm, v) / PAGE_SIZE in frames
  {
    WindowTranslates(vm, frames, v);
    WindowTranslates(vm, frames, w);
    var f, g := FrameBehind(frames, v), FrameBehind(frames, w);
    assert f == g <==> PageNumber(v) == PageNumber(w);
    ByteInFrame(f, v);
    ByteInFrame(g, w);
  }

  lemma ByteInFrame(f: Frame, v: u64)
    ensures (f * PAGE_SIZE + v % PAGE_SIZE) / PAGE_SIZE == f
    ensures (f * PAGE_SIZE + v % PAGE_SIZE) % PAGE_SIZE == v % PAGE_SIZE
    ensures v % 0x1_0000_0000_0000 == PageNumber(v) * PAGE_SIZE + v % PAGE_SIZE
  {
  }

  function WordAddress(k: nat): u64 {
    (HEAP_VIRT_START + 8 * k) % TWO_64
  }

  lemma WordAddressPage(k: nat)
    requires k < MAPPED_WORDS
    ensures InHeapWindow(WordAddress(k)) && PageNumber(WordAddress(k)) == HEAP_PAGE_NUMBER + k / 512
    ensures WordAddress(k) % PAGE_SIZE / 8 == k % 512
  {
    var page, offset := k / 512, k % 512;
    assert WordAddress(k) == (0xF_FFF8_0000_0000 + page) * PAGE_SIZE + 8 * offset;
  }

  // ---- The machine -----------------------------------------------------------------------------

  /** Memory under its page tables, with the direct map at hhdm and the heap bitmap in the sixteen frames
      from `at` on. */
  datatype Machine = Machine(vm: Vm, hhdm: u64, at: nat)

  ghost function WithMemory(m: Machine, mem: Memory): Machine {
    m.(vm := m.vm.(mem := mem))
  }

  ghost function BitmapFrames(at: nat): set<nat> {
    set f: nat | f < at + HEAP_BITMAP_FRAMES && InBitmap(at, f)
  }

  predicate InBitmap(at: nat, f: nat) {
    at <= f < at + HEAP_BITMAP_FRAMES
  }

  /** How an operation ends: in a page fault, whose handler loops, or in a new state. */
  datatype Effect = Crashed | Ran(m: Machine)

  ghost function LoadBitmap(m: Machine, i: nat): Loaded {
    LoadAt(m.vm.mem, m.vm.root, Direct(m.hhdm, m.at, i))
  }

  ghost predicate ReadsSet(m: Machine, b: nat) {
    LoadBitmap(m, b / 64).Word? && Bit(LoadBitmap(m, b / 64).w, b % 64)
  }

  /** The blocks the machine reads as set. */
  ghost function UsedBits(m: Machine): set<nat> {
    set b: nat | b < Heap.HEAP_MAX_BLOCKS && ReadsSet(m, b)
  }

  /** The search reads the bitmap up to the word that completes the run, or to its end. */
  ghost predicate ScanFaults(m: Machine, n: nat)
    requires n >= 1
  {
    var start := Heap.FirstFit(UsedBits(m), n);
    var last := if start == Heap.HEAP_MAX_BLOCKS then Heap.HEAP_MAX_BLOCKS - 1 else start + n - 1;
    exists i: nat :: i <= last / 64 && LoadBitmap(m, i).LoadFault?
  }

  function NewWord(w: u64, k: nat, isSet: bool): u64
    requires k < 64
  {
    if isSet then WithBit(w, k) else WithoutBit(w, k)
  }

  /** `heap_bitmap[b / 64] |= 1 << (b % 64)`, or the same with `&= ~`. */
  ghost function PutBit(m: Machine, b: nat, isSet: bool): Effect {
    match LoadBitmap(m, b / 64)
    case LoadFault => Crashed
    case Word(w) =>
      match StoreAt(m.vm.mem, m.vm.root, Direct(m.hhdm, m.at, b / 64), NewWord(w, b % 64, isSet))
      case StoreFault => Crashed
      case Written(mem) => Ran(WithMemory(m, mem))
  }

  ghost function PutBits(m: Machine, start: nat, n: nat, isSet: bool): Effect {
    if n == 0 then Ran(m)
    else
      match PutBits(m, start, n - 1, isSet)
      case Crashed => Crashed
      case Ran(m1) => PutBit(m1, start + n - 1, isSet)
  }

  ghost function StoreWord(m: Machine, k: nat, value: u64): Effect {
    match StoreAt(m.vm.mem, m.vm.root, WordAddress(k), value)
    case StoreFault => Crashed
    case Written(mem) => Ran(WithMemory(m, mem))
  }

  ghost function LoadWord(m: Machine, k: nat): Loaded {
    LoadAt(m.vm.mem, m.vm.root, WordAddress(k))
  }

  /** One operation as the machine performs it. */
  ghost function MachineStep(m: Machine, op: HeapRuns.Op): Effect {
    match op
    case Alloc(amount) =>
      var n := Heap.Blocks(amount);
      var start := Heap.FirstFit(UsedBits(m), n);
      if ScanFaults(m, n) then Crashed
      else if start == Heap.HEAP_MAX_BLOCKS then Ran(m)
      else
        (match PutBits(m, start, n, true)
         case Crashed => Crashed
         case Ran(m1) => StoreWord(m1, 2 * start, n))
    case Release(s) =>
      (match LoadWord(m, 2 * s)
       case LoadFault => Crashed
       case Word(n) => PutBits(m, s, n, false))
    case Write(w, v) => StoreWord(m, w, v)
  }

  ghost function MachineRun(m: Machine, ops: seq<HeapRuns.Op>): Effect
    decreases |ops|
  {
    if ops == [] then Ran(m)
    else
      match MachineStep(m, ops[0])
      case Crashed => Crashed
      case Ran(m1) => MachineRun(m1, ops[1..])
  }

  // ---- What each access reaches ----------------------------------------------------------------

  ghost predicate BitmapMapped(m: Machine) {
    DirectMapped(m.vm, m.hhdm, BitmapFrames(m.at))
  }

  /** The heap bitmap's frames are neither tables nor behind the window. */
  ghost predicate BitmapApart(at: nat, levels: map<nat, nat>, frames: seq<Frame>) {
    forall f :: f in BitmapFrames(at) ==> f !in levels && f !in frames
  }

  /** The window is mapped, and the direct map reaches the heap bitmap, which lies apart. */
  ghost predicate Laid(m: Machine, levels: map<nat, nat>, frames: seq<Frame>) {
    Window(m.vm, levels, frames) && BitmapMapped(m) && BitmapApart(m.at, levels, frames)
  }

  /** Only frames behind the heap window and the heap bitmap may differ: same pool, same translations, same
      tables. */
  ghost predicate Undisturbed(m: Machine, m': Machine, frames: seq<Frame>) {
    && m' == WithMemory(m, m'.vm.mem)
    && (forall v: u64 :: Translate(m'.vm.mem, m.vm.root, v) == Translate(m.vm.mem, m.vm.root, v))
    && (forall f: nat :: f !in frames && f !in BitmapFrames(m.at) ==> m'.vm.mem[f] == m.vm.mem[f])
  }

  /** Writing a frame that is no table keeps all of that. */
  lemma WritingKeepsLaid(m: Machine, levels: map<nat, nat>, frames: seq<Frame>, f: nat, i: nat, value: u64)
    requires Laid(m, levels, frames) && i < 512 && (f in frames || f in BitmapFrames(m.at))
    ensures var m' := WithMemory(m, SetEntry(m.vm.mem, f, i, value));
            Laid(m', levels, frames) && Undisturbed(m, m', frames)
  {
    var m' := WithMemory(m, SetEntry(m.vm.mem, f, i, value));
    assert f !in levels;
    hide BitmapMapped, BitmapApart, Mapped, Translate, BitmapFrames;
    WritesOutsideTables(m.vm, levels, m'.vm);
    hide Tree;
    SameTranslations(m, m', frames);
  }

  lemma SameTranslations(m: Machine, m': Machine, frames: seq<Frame>)
    requires m' == WithMemory(m, m'.vm.mem)
    requires forall v: u64 :: Translate(m'.vm.mem, m.vm.root, v) == Translate(m.vm.mem, m.vm.root, v)
    ensures BitmapMapped(m) ==> BitmapMapped(m')
    ensures Mapped(m.vm, frames) ==> Mapped(m'.vm, frames)
  {
    hide Translate, Direct, HeapPage, TableEntry, BitmapFrames;
    if BitmapMapped(m) {
      forall g | g in BitmapFrames(m.at) ensures Resolve(m'.vm.mem, m.vm.root, Direct(m.hhdm, g, 0)) == Frame(g) {
        assert Resolve(m.vm.mem, m.vm.root, Direct(m.hhdm, g, 0)) == Frame(g);
      }
    }
  }

  lemma WordLocation(m: Machine, frames: seq<Frame>, k: nat)
    requires Mapped(m.vm, frames) && k < MAPPED_WORDS
    ensures Resolve(m.vm.mem, m.vm.root, WordAddress(k)) == Frame(frames[k / 512])
    ensures WordAddress(k) % PAGE_SIZE / 8 == k % 512
  {
    WordAddressPage(k);
    WindowTranslates(m.vm, frames, WordAddress(k));
    hide WordAddress, Translate, TableEntry, PageNumber, HeapPage;
  }

  lemma BitmapLocation(m: Machine, i: nat)
    requires BitmapMapped(m) && i < Heap.HEAP_MAX_BLOCKS / 64
    ensures Resolve(m.vm.mem, m.vm.root, Direct(m.hhdm, m.at, i)) == Frame(m.at + i / 512)
    ensures Direct(m.hhdm, m.at, i) % PAGE_SIZE / 8 == i % 512
  {
    hide Direct, BitmapFrames, Resolve;
    var f := m.at + i / 512;
    WordOfFrame(m.hhdm, m.at, i);
    BitmapFrame(m.at, i);
    DirectWord(m.vm.mem, m.vm.root, m.hhdm, f, i % 512);
    assert Resolve(m.vm.mem, m.vm.root, Direct(m.hhdm, f, 0)) == Frame(f);
  }

  lemma BitmapFrame(at: nat, i: nat)
    requires i < Heap.HEAP_MAX_BLOCKS / 64
    ensures at + i / 512 in BitmapFrames(at)
  {
  }

  lemma WordOfFrame(hhdm: u64, at: nat, i: nat)
    ensures Direct(hhdm, at, i) == Direct(hhdm, at + i / 512, i % 512)
  {
    assert hhdm + at * PAGE_SIZE + 8 * i == hhdm + (at + i / 512) * PAGE_SIZE + 8 * (i % 512);
  }

  /** The words of the heap bitmap as they lie in memory. */
  ghost function BitmapWords(mem: Memory, at: nat): (r: seq<u64>)
    ensures |r| == Heap.HEAP_MAX_BLOCKS / 64
  {
    seq(Heap.HEAP_MAX_BLOCKS / 64, i requires 0 <= i < Heap.HEAP_MAX_BLOCKS / 64 => mem[at + i / 512][i % 512])
  }

  /** What the machine reads through the direct map is what lies there. */
  lemma UsedIsMarked(m: Machine)
    requires BitmapMapped(m)
    ensures UsedBits(m) == Marked(BitmapWords(m.vm.mem, m.at))
    ensures forall i: nat :: i < Heap.HEAP_MAX_BLOCKS / 64 ==> LoadBitmap(m, i) == Word(BitmapWords(m.vm.mem, m.at)[i])
  {
    hide BitmapMapped, Direct, Resolve;
    forall i: nat | i < Heap.HEAP_MAX_BLOCKS / 64 ensures LoadBitmap(m, i) == Word(BitmapWords(m.vm.mem, m.at)[i]) {
      BitmapLocation(m, i);
    }
    forall b: nat | b < Heap.HEAP_MAX_BLOCKS ensures ReadsSet(m, b) <==> PageBit(BitmapWords(m.vm.mem, m.at), b) {
    }
  }

  lemma BitmapWordsAfter(mem: Memory, at: nat, f: nat, j: nat, w: u64)
    requires j < 512
    ensures forall i: nat :: i < Heap.HEAP_MAX_BLOCKS / 64 && f == at + i / 512 && j == i % 512 ==>
              BitmapWords(SetEntry(mem, f, j, w), at) == BitmapWords(mem, at)[i := w]
    ensures f !in BitmapFrames(at) ==> BitmapWords(SetEntry(mem, f, j, w), at) == BitmapWords(mem, at)
  {
    if f !in BitmapFrames(at) {
      forall i: nat | i < Heap.HEAP_MAX_BLOCKS / 64 ensures at + i / 512 != f {
      }
    }
  }

  lemma MarkedAfter(words: seq<u64>, b: nat, isSet: bool)
    requires b < 64 * |words|
    ensures Marked(words[b / 64 := NewWord(words[b / 64], b % 64, isSet)])
            == if isSet then Marked(words) + {b} else Marked(words) - {b}
  {
    hide WithBit, WithoutBit, Marked;
    InsertPage(words, b);
    RemovePage(words, b);
  }

  /** The machine with that bit set or cleared. */
  ghost function WithBlock(m: Machine, b: nat, isSet: bool): Machine
    requires b < Heap.HEAP_MAX_BLOCKS
  {
    var i := b / 64;
    var w := NewWord(BitmapWords(m.vm.mem, m.at)[i], b % 64, isSet);
    WithMemory(m, SetEntry(m.vm.mem, m.at + i / 512, i % 512, w))
  }

  lemma PutBitWrites(m: Machine, b: nat, isSet: bool)
    requires BitmapMapped(m) && b < Heap.HEAP_MAX_BLOCKS
    ensures PutBit(m, b, isSet) == Ran(WithBlock(m, b, isSet))
  {
    hide BitmapMapped, Resolve, Direct, NewWord, BitmapWords;
    BitmapLocation(m, b / 64);
    UsedIsMarked(m);
  }

  lemma BlockMarked(m: Machine, b: nat, isSet: bool)
    requires BitmapMapped(m) && b < Heap.HEAP_MAX_BLOCKS && BitmapMapped(WithBlock(m, b, isSet))
    ensures UsedBits(WithBlock(m, b, isSet)) == if isSet then UsedBits(m) + {b} else UsedBits(m) - {b}
  {
    hide BitmapMapped, UsedBits, NewWord, BitmapFrames, BitmapWords, Marked;
    var i, words := b / 64, BitmapWords(m.vm.mem, m.at);
    UsedIsMarked(m);
    UsedIsMarked(WithBlock(m, b, isSet));
    BitmapWordsAfter(m.vm.mem, m.at, m.at + i / 512, i % 512, NewWord(words[i], b % 64, isSet));
    MarkedAfter(words, b, isSet);
  }

  /** Setting or clearing a bit of the heap bitmap does just that, and disturbs nothing. */
  lemma PutBitIsExact(m: Machine, levels: map<nat, nat>, frames: seq<Frame>, b: nat, isSet: bool)
    returns (m': Machine)
    requires Laid(m, levels, frames) && b < Heap.HEAP_MAX_BLOCKS
    ensures PutBit(m, b, isSet) == Ran(m') && Laid(m', levels, frames) && Undisturbed(m, m', frames)
    ensures UsedBits(m') == if isSet then UsedBits(m) + {b} else UsedBits(m) - {b}
    ensures forall f :: f in frames ==> m'.vm.mem[f] == m.vm.mem[f]
  {
    var i := b / 64;
    var f := m.at + i / 512;
    var w := NewWord(BitmapWords(m.vm.mem, m.at)[i], b % 64, isSet);
    m' := WithBlock(m, b, isSet);
    assert m' == WithMemory(m, SetEntry(m.vm.mem, f, i % 512, w));
    BitmapFrame(m.at, i);
    LaidParts(m, levels, frames);
    assert forall g :: g in frames ==> g != f;
    hide Laid, BitmapMapped, BitmapFrames, BitmapWords, WithBlock, NewWord, UsedBits, PutBit, Undisturbed;
    PutBitWrites(m, b, isSet);
    WritingKeepsLaid(m, levels, frames, f, i % 512, w);
    LaidParts(m', levels, frames);
    BlockMarked(m, b, isSet);
  }

  lemma LaidParts(m: Machine, levels: map<nat, nat>, frames: seq<Frame>)
    requires Laid(m, levels, frames)
    ensures BitmapMapped(m) && Mapped(m.vm, frames) && Owned(m.vm, levels, frames)
    ensures forall f :: f in BitmapFrames(m.at) ==> f !in levels && f !in frames
  {
    hide Tree, Mapped, BitmapMapped;
  }

  lemma UndisturbedTwice(m: Machine, m1: Machine, m2: Machine, frames: seq<Frame>)
    requires Undisturbed(m, m1, frames) && Undisturbed(m1, m2, frames)
    ensures Undisturbed(m, m2, frames)
  {
    hide Translate;
  }

  lemma {:induction false} PutBitsIsExact(m: Machine, levels: map<nat, nat>, frames: seq<Frame>,
                                          start: nat, n: nat, isSet: bool)
    returns (m': Machine)
    requires Laid(m, levels, frames) && start + n <= Heap.HEAP_MAX_BLOCKS
    ensures PutBits(m, start, n, isSet) == Ran(m') && Laid(m', levels, frames) && Undisturbed(m, m', frames)
    ensures UsedBits(m') == if isSet then UsedBits(m) + Heap.Range(start, n) else UsedBits(m) - Heap.Range(start, n)
    ensures forall f :: f in frames ==> m'.vm.mem[f] == m.vm.mem[f]
    decreases n
  {
    hide Laid, UsedBits, PutBit;
    if n == 0 {
      m' := m;
      NothingPut(m, start, isSet, frames);
    } else {
      hide WithMemory;
      var m1 := PutBitsIsExact(m, levels, frames, start, n - 1, isSet);
      var used := UsedBits(m);
      assert PutBits(m, start, n, isSet) == PutBit(m1, start + n - 1, isSet);
      hide PutBits, Undisturbed;
      m' := PutBitIsExact(m1, levels, frames, start + n - 1, isSet);
      UndisturbedTwice(m, m1, m', frames);
      assert used + Heap.Range(start, n) == used + Heap.Range(start, n - 1) + {start + n - 1};
      assert used - Heap.Range(start, n) == used - Heap.Range(start, n - 1) - {start + n - 1};
      hide Heap.Range;
    }
  }

  lemma NothingPut(m: Machine, start: nat, isSet: bool, frames: seq<Frame>)
    ensures PutBits(m, start, 0, isSet) == Ran(m) && Undisturbed(m, m, frames)
    ensures UsedBits(m) + Heap.Range(start, 0) == UsedBits(m) == UsedBits(m) - Heap.Range(start, 0)
  {
    hide UsedBits, Translate;
  }

  lemma LoadIs(m: Machine, frames: seq<Frame>, k: nat)
    requires Mapped(m.vm, frames) && k < MAPPED_WORDS
    ensures |frames| == HEAP_PAGES && LoadWord(m, k) == Word(m.vm.mem[frames[k / 512]][k % 512])
  {
    WordLocation(m, frames, k);
    hide Resolve, WordAddress;
  }

  /** A store into the window changes that word of the window and no other, no bit, and no translation. */
  lemma StoreIsLocal(m: Machine, levels: map<nat, nat>, frames: seq<Frame>, k: nat, value: u64) returns (m': Machine)
    requires Laid(m, levels, frames) && k < MAPPED_WORDS
    ensures StoreWord(m, k, value) == Ran(m') && Laid(m', levels, frames) && Undisturbed(m, m', frames)
    ensures UsedBits(m') == UsedBits(m)
    ensures forall j: nat :: j < MAPPED_WORDS ==> LoadWord(m, j).Word?
                                                  && LoadWord(m', j) == if j == k then Word(value) else LoadWord(m, j)
  {
    m' := StoreWrites(m, levels, frames, k, value);
    hide Laid, Mapped, Undisturbed, StoreWord, LoadWord, UsedBits, BitmapFrames, WithMemory;
    LaidParts(m, levels, frames);
    LaidParts(m', levels, frames);
    BitsUntouched(m, levels, frames, m', k, value);
    WordsAfterStore(m, levels, frames, m', k, value);
  }

  lemma WordsAfterStore(m: Machine, levels: map<nat, nat>, frames: seq<Frame>, m': Machine, k: nat, value: u64)
    requires Mapped(m.vm, frames) && Mapped(m'.vm, frames) && Owned(m.vm, levels, frames) && k < MAPPED_WORDS
    requires m' == WithMemory(m, SetEntry(m.vm.mem, frames[k / 512], k % 512, value))
    ensures forall j: nat :: j < MAPPED_WORDS ==> LoadWord(m, j).Word?
                                                  && LoadWord(m', j) == if j == k then Word(value) else LoadWord(m, j)
  {
    assert |frames| == HEAP_PAGES;
    hide Mapped, LoadWord;
    forall j: nat | j < MAPPED_WORDS
      ensures LoadWord(m, j).Word? && LoadWord(m', j) == if j == k then Word(value) else LoadWord(m, j)
    {
      LoadIs(m, frames, j);
      LoadIs(m', frames, j);
    }
  }

  lemma StoreWrites(m: Machine, levels: map<nat, nat>, frames: seq<Frame>, k: nat, value: u64) returns (m': Machine)
    requires Laid(m, levels, frames) && k < MAPPED_WORDS
    ensures |frames| == HEAP_PAGES
    ensures m' == WithMemory(m, SetEntry(m.vm.mem, frames[k / 512], k % 512, value))
    ensures StoreWord(m, k, value) == Ran(m') && Laid(m', levels, frames) && Undisturbed(m, m', frames)
  {
    WordLocation(m, frames, k);
    var f := frames[k / 512];
    m' := WithMemory(m, SetEntry(m.vm.mem, f, k % 512, value));
    hide Resolve, WordAddress, Laid, Undisturbed;
    WritingKeepsLaid(m, levels, frames, f, k % 512, value);
  }

  lemma BitsUntouched(m: Machine, levels: map<nat, nat>, frames: seq<Frame>, m': Machine, k: nat, value: u64)
    requires Laid(m, levels, frames) && BitmapMapped(m') && k < MAPPED_WORDS
    requires |frames| == HEAP_PAGES && m' == WithMemory(m, SetEntry(m.vm.mem, frames[k / 512], k % 512, value))
    ensures UsedBits(m') == UsedBits(m)
  {
    assert frames[k / 512] !in BitmapFrames(m.at);
    hide Window, BitmapMapped, BitmapApart, UsedBits, BitmapFrames, BitmapWords, Marked;
    UsedIsMarked(m);
    UsedIsMarked(m');
    BitmapWordsAfter(m.vm.mem, m.at, frames[k / 512], k % 512, value);
  }

  // ---- Running the heap on the machine ---------------------------------------------------------

  /** The machine holds the heap h: the same bits, and the mapped words where the tables put them. */
  ghost predicate Holds(m: Machine, h: Heap.State) {
    && UsedBits(m) == h.used && |h.words| == Heap.HEAP_WORDS
    && forall k: nat :: k < MAPPED_WORDS ==> LoadWord(m, k) == Word(h.words[k])
  }

  lemma BitsHold(m: Machine, levels: map<nat, nat>, frames: seq<Frame>, h: Heap.State, start: nat, n: nat, isSet: bool)
    returns (m': Machine)
    requires Laid(m, levels, frames) && Holds(m, h) && start + n <= Heap.HEAP_MAX_BLOCKS
    ensures PutBits(m, start, n, isSet) == Ran(m') && Laid(m', levels, frames) && Undisturbed(m, m', frames)
    ensures Holds(m', h.(used := if isSet then h.used + Heap.Range(start, n) else h.used - Heap.Range(start, n)))
  {
    m' := PutBitsIsExact(m, levels, frames, start, n, isSet);
    hide Laid, Mapped, UsedBits, PutBits, LoadWord, Undisturbed, BitmapFrames;
    LaidParts(m, levels, frames);
    LaidParts(m', levels, frames);
    WordsUntouched(m, m', frames);
  }

  lemma WordsUntouched(m: Machine, m': Machine, frames: seq<Frame>)
    requires Mapped(m.vm, frames) && Mapped(m'.vm, frames)
    requires forall f :: f in frames ==> m'.vm.mem[f] == m.vm.mem[f]
    ensures forall k: nat :: k < MAPPED_WORDS ==> LoadWord(m', k) == LoadWord(m, k)
  {
    assert |frames| == HEAP_PAGES;
    hide Mapped, LoadWord;
    forall k: nat | k < MAPPED_WORDS ensures LoadWord(m', k) == LoadWord(m, k) {
      LoadIs(m, frames, k);
      LoadIs(m', frames, k);
    }
  }

  lemma StoreHolds(m: Machine, levels: map<nat, nat>, frames: seq<Frame>, h: Heap.State, k: nat, value: u64)
    returns (m': Machine)
    requires Laid(m, levels, frames) && Holds(m, h) && k < MAPPED_WORDS
    ensures StoreWord(m, k, value) == Ran(m') && Laid(m', levels, frames) && Undisturbed(m, m', frames)
    ensures Holds(m', h.(words := h.words[k := value]))
  {
    m' := StoreIsLocal(m, levels, frames, k, value);
    hide Laid, Undisturbed, StoreWord, UsedBits, LoadWord;
  }

  /** The operation stays inside the mapped part of the window. */
  ghost predicate StaysMapped(h: Heap.State, op: HeapRuns.Op) {
    match op
    case Alloc(amount) =>
      var start := Heap.FirstFit(h.used, Heap.Blocks(amount));
      start == Heap.HEAP_MAX_BLOCKS || start + Heap.Blocks(amount) <= MAPPED_BLOCKS
    case Release(s) => s < MAPPED_BLOCKS
    case Write(w, _) => w < MAPPED_WORDS
  }

  ghost predicate AllMapped(live: map<nat, nat>) {
    forall s :: s in live ==> s + live[s] <= MAPPED_BLOCKS
  }

  lemma ScanReads(m: Machine, n: nat)
    requires BitmapMapped(m) && n >= 1
    ensures !ScanFaults(m, n)
  {
    hide BitmapMapped, UsedBits, LoadBitmap, BitmapWords;
    UsedIsMarked(m);
  }

  lemma AllocRefines(m: Machine, levels: map<nat, nat>, frames: seq<Frame>, h: Heap.State, amount: u64)
    returns (m': Machine)
    requires Laid(m, levels, frames) && Holds(m, h) && StaysMapped(h, HeapRuns.Alloc(amount))
    ensures MachineStep(m, HeapRuns.Alloc(amount)) == Ran(m') && Laid(m', levels, frames) && Undisturbed(m, m', frames)
    ensures Holds(m', Heap.Malloc(h, amount).0)
  {
    var n := Heap.Blocks(amount);
    var start := Heap.FirstFit(h.used, n);
    ScanReads(m, n);
    m' := m;
    if start != Heap.HEAP_MAX_BLOCKS {
      var m1 := BitsHold(m, levels, frames, h, start, n, true);
      hide Laid, PutBits, StoreWord, UsedBits, LoadWord;
      m' := StoreHolds(m1, levels, frames, h.(used := h.used + Heap.Range(start, n)), 2 * start, n);
      UndisturbedTwice(m, m1, m', frames);
    }
  }

  lemma ReleaseRefines(m: Machine, levels: map<nat, nat>, frames: seq<Frame>,
                       h: Heap.State, live: map<nat, nat>, s: nat)
    returns (m': Machine)
    requires Laid(m, levels, frames) && Holds(m, h)
    requires HeapRuns.Sound(h, live) && s in live && s < MAPPED_BLOCKS
    ensures MachineStep(m, HeapRuns.Release(s)) == Ran(m') && Laid(m', levels, frames) && Undisturbed(m, m', frames)
    ensures Holds(m', HeapRuns.Step(h, live, HeapRuns.Release(s)))
  {
    HeapRuns.ReleaseIsExact(h, live, s);
    assert LoadWord(m, 2 * s) == Word(live[s]);
    assert s + live[s] <= Heap.HEAP_MAX_BLOCKS;
    hide Laid, Undisturbed, Holds, PutBits, LoadWord, HeapRuns.Sound, Heap.Free, Heap.Freeable;
    m' := BitsHold(m, levels, frames, h, s, live[s], false);
  }

  /** One heap operation on the machine does not fault, refines the abstract one, and disturbs nothing
      else. */
  lemma MachineStepRefines(m: Machine, levels: map<nat, nat>, frames: seq<Frame>,
                           h: Heap.State, live: map<nat, nat>, op: HeapRuns.Op)
    returns (m': Machine)
    requires Laid(m, levels, frames) && Holds(m, h)
    requires HeapRuns.Sound(h, live) && HeapRuns.Enabled(live, op) && StaysMapped(h, op)
    ensures MachineStep(m, op) == Ran(m') && Laid(m', levels, frames) && Undisturbed(m, m', frames)
    ensures Holds(m', HeapRuns.Step(h, live, op))
    ensures AllMapped(live) ==> AllMapped(HeapRuns.StepLive(h, live, op))
  {
    hide Laid, Holds, Undisturbed;
    match op
    case Alloc(amount) => m' := AllocRefines(m, levels, frames, h, amount);
    case Release(s) => m' := ReleaseRefines(m, levels, frames, h, live, s);
    case Write(w, v) => m' := StoreHolds(m, levels, frames, h, w, v);
  }

  /** If there is room, kmalloc sets the bits, and it remains to store the header. */
  lemma AllocSetsBits(m: Machine, levels: map<nat, nat>, frames: seq<Frame>, amount: u64) returns (m1: Machine)
    requires Laid(m, levels, frames)
    ensures var n := Heap.Blocks(amount);
            var start := Heap.FirstFit(UsedBits(m), n);
            if start == Heap.HEAP_MAX_BLOCKS then MachineStep(m, HeapRuns.Alloc(amount)) == Ran(m)
            else
              && start + n <= Heap.HEAP_MAX_BLOCKS
              && Laid(m1, levels, frames) && Undisturbed(m, m1, frames)
              && UsedBits(m1) == UsedBits(m) + Heap.Range(start, n)
              && MachineStep(m, HeapRuns.Alloc(amount)) == StoreWord(m1, 2 * start, n)
  {
    var n := Heap.Blocks(amount);
    var start := Heap.FirstFit(UsedBits(m), n);
    assert start != Heap.HEAP_MAX_BLOCKS ==> start + n <= Heap.HEAP_MAX_BLOCKS;
    LaidParts(m, levels, frames);
    hide Laid, Undisturbed, UsedBits, PutBits, StoreWord, ScanFaults, Heap.FirstFit, Heap.Blocks;
    ScanReads(m, n);
    m1 := m;
    if start != Heap.HEAP_MAX_BLOCKS {
      m1 := PutBitsIsExact(m, levels, frames, start, n, true);
    }
  }

  /** Of the heap's 8 MiB of addresses nothing is mapped but the 2 MiB of the window. */
  ghost predicate OnlyWindowMapped(m: Machine) {
    forall k: nat :: MAPPED_WORDS <= k < Heap.HEAP_WORDS ==> Resolve(m.vm.mem, m.vm.root, WordAddress(k)) == Fault
  }

  /** kmalloc faults exactly when the first fit starts beyond the 2 MiB that kmain maps of the heap's
      8 MiB: the header's store then reaches no page. */
  lemma AllocFaultsIff(m: Machine, levels: map<nat, nat>, frames: seq<Frame>, amount: u64)
    requires Laid(m, levels, frames) && OnlyWindowMapped(m)
    ensures MachineStep(m, HeapRuns.Alloc(amount)).Crashed?
            <==> MAPPED_BLOCKS <= Heap.FirstFit(UsedBits(m), Heap.Blocks(amount)) < Heap.HEAP_MAX_BLOCKS
  {
    hide Laid, Undisturbed, UsedBits, OnlyWindowMapped, Heap.FirstFit, Heap.Blocks, MachineStep, StoreWord, PutBits;
    var m1 := AllocSetsBits(m, levels, frames, amount);
    var start := Heap.FirstFit(UsedBits(m), Heap.Blocks(amount));
    if start != Heap.HEAP_MAX_BLOCKS {
      HeaderFaultsIff(m, m1, levels, frames, 2 * start, Heap.Blocks(amount));
    }
  }

  lemma HeaderFaultsIff(m: Machine, m1: Machine, levels: map<nat, nat>, frames: seq<Frame>, k: nat, value: u64)
    requires k < Heap.HEAP_WORDS && Laid(m1, levels, frames) && Undisturbed(m, m1, frames) && OnlyWindowMapped(m)
    ensures StoreWord(m1, k, value).Crashed? <==> k >= MAPPED_WORDS
  {
    hide OnlyWindowMapped, WordAddress, Translate, Tree, Direct;
    if k < MAPPED_WORDS {
      var m2 := StoreWrites(m1, levels, frames, k, value);
    } else {
      hide Laid;
      StillUnmapped(m, m1, frames, k);
    }
  }

  lemma StillUnmapped(m: Machine, m1: Machine, frames: seq<Frame>, k: nat)
    requires Undisturbed(m, m1, frames) && OnlyWindowMapped(m) && MAPPED_WORDS <= k < Heap.HEAP_WORDS
    ensures Resolve(m1.vm.mem, m1.vm.root, WordAddress(k)) == Fault
  {
    hide WordAddress, Translate;
    assert Resolve(m.vm.mem, m.vm.root, WordAddress(k)) == Fault;
  }

  /** A request whose first fit starts in the mapped part is served. */
  lemma AllocServed(m: Machine, levels: map<nat, nat>, frames: seq<Frame>, amount: u64) returns (m': Machine)
    requires Laid(m, levels, frames) && Heap.FirstFit(UsedBits(m), Heap.Blocks(amount)) < MAPPED_BLOCKS
    ensures MachineStep(m, HeapRuns.Alloc(amount)) == Ran(m') && Laid(m', levels, frames) && Undisturbed(m, m', frames)
    ensures var n := Heap.Blocks(amount);
            var start := Heap.FirstFit(UsedBits(m), n);
            start + n <= Heap.HEAP_MAX_BLOCKS && UsedBits(m') == UsedBits(m) + Heap.Range(start, n)
  {
    hide Laid, Undisturbed, UsedBits, Heap.FirstFit, Heap.Blocks, Heap.Range, MachineStep, StoreWord, LoadWord;
    var m1 := AllocSetsBits(m, levels, frames, amount);
    var start := Heap.FirstFit(UsedBits(m), Heap.Blocks(amount));
    m' := StoreIsLocal(m1, levels, frames, 2 * start, Heap.Blocks(amount));
    UndisturbedTwice(m, m1, m', frames);
  }

  /** But kmalloc looks at the header only: its caller can reach every word of the payload if and only if the
      allocation ends in the mapped part. */
  lemma PayloadMappedIff(m: Machine, levels: map<nat, nat>, frames: seq<Frame>, amount: u64) returns (m': Machine)
    requires Laid(m, levels, frames) && OnlyWindowMapped(m)
    requires Heap.FirstFit(UsedBits(m), Heap.Blocks(amount)) < MAPPED_BLOCKS
    ensures MachineStep(m, HeapRuns.Alloc(amount)) == Ran(m')
    ensures var n := Heap.Blocks(amount);
            var start := Heap.FirstFit(UsedBits(m), n);
            (forall w: nat :: 2 * (start + 1) <= w < 2 * (start + n) ==> LoadWord(m', w).Word?)
            <==> start + n <= MAPPED_BLOCKS
  {
    hide Laid, Undisturbed, UsedBits, Heap.FirstFit, Heap.Blocks, Heap.Range, MachineStep, OnlyWindowMapped;
    m' := AllocServed(m, levels, frames, amount);
    WordsReachedIff(m, m', levels, frames);
    hide LoadWord;
    assert !LoadWord(m', MAPPED_WORDS).Word?;
  }

  lemma WordsReachedIff(m: Machine, m': Machine, levels: map<nat, nat>, frames: seq<Frame>)
    requires Laid(m', levels, frames) && Undisturbed(m, m', frames) && OnlyWindowMapped(m)
    ensures forall w: nat :: w < Heap.HEAP_WORDS ==> (LoadWord(m', w).Word? <==> w < MAPPED_WORDS)
  {
    hide Laid, Undisturbed, OnlyWindowMapped, Resolve, WordAddress, Mapped, BitmapFrames;
    LaidParts(m', levels, frames);
    forall w: nat | w < Heap.HEAP_WORDS ensures LoadWord(m', w).Word? <==> w < MAPPED_WORDS {
      if w < MAPPED_WORDS {
        LoadIs(m', frames, w);
      } else {
        StillUnmapped(m, m', frames, w);
      }
    }
  }

  // ---- Requests at the end of the mapped part --------------------------------------------------

  lemma FitsBehind(used: set<nat>, start: nat, n: nat)
    requires used == Heap.Range(0, start) && n >= 1 && start + n <= Heap.HEAP_MAX_BLOCKS
    ensures Heap.FirstFit(used, n) == start
  {
    forall st | 0 <= st < start ensures !Heap.ClearRun(used, st, n) {
      assert st in used;
    }
    Heap.FirstFitUnique(used, n, start);
  }

  /** On a fresh heap a request for 4 MiB is served, although the end of its payload is not mapped. */
  lemma HugePayloadExample(m: Machine, levels: map<nat, nat>, frames: seq<Frame>) returns (m': Machine)
    requires Laid(m, levels, frames) && OnlyWindowMapped(m) && UsedBits(m) == {}
    ensures MachineStep(m, HeapRuns.Alloc(0x40_0000)) == Ran(m')
    ensures exists w: nat :: w < 2 * Heap.Blocks(0x40_0000) && !LoadWord(m', w).Word?
  {
    hide Laid, UsedBits, OnlyWindowMapped, MachineStep, LoadWord, Heap.FirstFit;
    assert Heap.Blocks(0x40_0000) == 262145;
    assert {} == Heap.Range(0, 0);
    FitsBehind({}, 0, 262145);
    m' := PayloadMappedIff(m, levels, frames, 0x40_0000);
  }

  const FILLING: u64 := 0x1F_FFF0

  /** On a fresh heap a request for 2 MiB less a header fills the mapped part, and the next one faults. */
  lemma HeaderFaultExample(m: Machine, levels: map<nat, nat>, frames: seq<Frame>)
    requires Laid(m, levels, frames) && OnlyWindowMapped(m) && UsedBits(m) == {}
    ensures MachineRun(m, [HeapRuns.Alloc(FILLING), HeapRuns.Alloc(1)]) == Crashed
  {
    hide Laid, UsedBits, OnlyWindowMapped, MachineStep, Undisturbed, Heap.FirstFit;
    FillingBlocks();
    hide Heap.Blocks;
    FitsBehind({}, 0, MAPPED_BLOCKS);
    var m1 := AllocServed(m, levels, frames, FILLING);
    FitsBehind(UsedBits(m1), MAPPED_BLOCKS, 2);
    UnmappedStays(m, m1, frames);
    AllocFaultsIff(m1, levels, frames, 1);
    var ops := [HeapRuns.Alloc(FILLING), HeapRuns.Alloc(1)];
    assert ops[1..] == [HeapRuns.Alloc(1)] && ops[1..][0] == HeapRuns.Alloc(1);
  }

  lemma FillingBlocks()
    ensures Heap.Blocks(FILLING) == MAPPED_BLOCKS && Heap.Blocks(1) == 2
    ensures Heap.Range(0, 0) == {} && {} + Heap.Range(0, MAPPED_BLOCKS) == Heap.Range(0, MAPPED_BLOCKS)
  {
  }

  lemma UnmappedStays(m: Machine, m1: Machine, frames: seq<Frame>)
    requires Undisturbed(m, m1, frames) && OnlyWindowMapped(m)
    ensures OnlyWindowMapped(m1)
  {
    hide Undisturbed, Resolve, WordAddress;
    forall k: nat | MAPPED_WORDS <= k < Heap.HEAP_WORDS ensures Resolve(m1.vm.mem, m1.vm.root, WordAddress(k)) == Fault {
      StillUnmapped(m, m1, frames, k);
    }
  }

  // ---- Whole runs ------------------------------------------------------------------------------

  /** Every operation of the run is one its client may perform and stays in the mapped part. */
  ghost predicate RunsMapped(h: Heap.State, live: map<nat, nat>, ops: seq<HeapRuns.Op>)
    requires HeapRuns.Sound(h, live)
    decreases |ops|
  {
    ops != [] ==>
      && HeapRuns.Enabled(live, ops[0]) && StaysMapped(h, ops[0])
      && (HeapRuns.StepKeepsSound(h, live, ops[0]);
          RunsMapped(HeapRuns.Step(h, live, ops[0]), HeapRuns.StepLive(h, live, ops[0]), ops[1..]))
  }

  /** Any run of kmalloc, kfree and payload writes in the mapped window faults nowhere, refines the abstract
      run, and afterwards all tables, all translations, the page pool and all frames outside the window and
      the heap bitmap are as they were. */
  lemma {:induction false} MachineRunRefines(m: Machine, levels: map<nat, nat>, frames: seq<Frame>,
                                             h: Heap.State, live: map<nat, nat>, ops: seq<HeapRuns.Op>)
    returns (m': Machine)
    requires Laid(m, levels, frames) && Holds(m, h)
    requires HeapRuns.Sound(h, live) && AllMapped(live) && RunsMapped(h, live, ops)
    ensures MachineRun(m, ops) == Ran(m') && Laid(m', levels, frames) && Undisturbed(m, m', frames)
    ensures var r := HeapRuns.Run(h, live, ops);
            r.Reached? && HeapRuns.Sound(r.h, r.live) && Holds(m', r.h) && AllMapped(r.live)
    decreases |ops|
  {
    if ops == [] {
      m' := m;
    } else {
      hide Laid, Undisturbed, Holds, HeapRuns.Sound, AllMapped, MachineStep, StaysMapped;
      HeapRuns.StepKeepsSound(h, live, ops[0]);
      var m1 := MachineStepRefines(m, levels, frames, h, live, ops[0]);
      m' := MachineRunRefines(m1, levels, frames,
                              HeapRuns.Step(h, live, ops[0]), HeapRuns.StepLive(h, live, ops[0]), ops[1..]);
      UndisturbedTwice(m, m1, m', frames);
    }
  }

  // ---- From the bring-up on --------------------------------------------------------------------

  /** The heap bitmap as the bring-up finds it: sixteen cleared frames that cannot be handed out, are no
      tables and are direct-mapped. */
  ghost predicate BitmapReady(s: Vm, levels: map<nat, nat>, pages: set<nat>, at: nat) {
    forall f :: f in BitmapFrames(at) ==>
      f in pages && f !in FreePages(s.busy, s.window) && f !in levels && s.mem[f] == ZeroTable()
  }

  lemma BootGivesWindow(s: Vm, base: Vm, vm: Vm, levels: map<nat, nat>, frames: seq<Frame>)
    requires 0 in s.busy && |frames| == HEAP_PAGES && Tree(vm, levels)
    requires FreshFrames(s, vm, levels, frames) && WindowBacked(base, vm, frames)
    ensures Window(vm, levels, frames)
  {
    hide Tree, Translate, TableEntry, HeapPage;
  }

  lemma BootLaysOut(s: Vm, levels0: map<nat, nat>, vm: Vm, levels: map<nat, nat>, frames: seq<Frame>,
                    hhdm: u64, pages: set<nat>, at: nat)
    requires GrewFrom(s, levels0, vm, levels) && FreshFrames(s, vm, levels, frames) && Window(vm, levels, frames)
    requires Reaches(vm, levels, hhdm, pages) && BitmapReady(s, levels0, pages, at)
    ensures Laid(Machine(vm, hhdm, at), levels, frames)
    ensures forall f :: f in BitmapFrames(at) ==> vm.mem[f] == ZeroTable()
  {
    hide Tree, Window, BitmapFrames, Direct, Translate;
  }

  lemma ClearedBitmapReadsEmpty(m: Machine, levels: map<nat, nat>, frames: seq<Frame>)
    requires Laid(m, levels, frames)
    requires forall f :: f in BitmapFrames(m.at) ==> m.vm.mem[f] == ZeroTable()
    ensures UsedBits(m) == {}
  {
    hide Laid, UsedBits, BitmapFrames, BitmapMapped, Marked;
    LaidParts(m, levels, frames);
    UsedIsMarked(m);
    var words := BitmapWords(m.vm.mem, m.at);
    forall i: nat | i < |words| ensures words[i] == 0 {
      BitmapFrame(m.at, i);
    }
    ZerosMarkNothing(words);
  }

  /** The heap that the machine holds after heap_bitmap_pointer: no bit set, the words of the mapped part
      as memory has them, and anything beyond. */
  ghost function InitialHeap(m: Machine, beyond: seq<u64>): (h: Heap.State)
    requires |beyond| == Heap.HEAP_WORDS - MAPPED_WORDS
    ensures HeapRuns.Sound(h, map[])
  {
    var words := seq(MAPPED_WORDS, k requires 0 <= k < MAPPED_WORDS =>
                       var r := LoadWord(m, k); if r.Word? then r.w else 0) + beyond;
    HeapRuns.EmptyHeapIsSound(words);
    Heap.State({}, words)
  }

  lemma InitialHeapHeld(m: Machine, levels: map<nat, nat>, frames: seq<Frame>, beyond: seq<u64>)
    requires Laid(m, levels, frames) && UsedBits(m) == {} && |beyond| == Heap.HEAP_WORDS - MAPPED_WORDS
    ensures Holds(m, InitialHeap(m, beyond))
  {
    assert Mapped(m.vm, frames);
    hide Laid, Mapped, UsedBits, LoadWord;
    forall k: nat | k < MAPPED_WORDS ensures LoadWord(m, k) == Word(InitialHeap(m, beyond).words[k]) {
      LoadIs(m, frames, k);
    }
  }

  /** After the bring-up the machine holds an empty heap. */
  lemma BootedMachine(s: Vm, levels0: map<nat, nat>, hhdm: u64, ioapic: u64, pages: set<nat>, at: nat, beyond: seq<u64>)
    returns (levels: map<nat, nat>, frames: seq<Frame>)
    requires BootReady(s, levels0, hhdm, ioapic, pages) && BitmapReady(s, levels0, pages, at)
    requires |beyond| == Heap.HEAP_WORDS - MAPPED_WORDS
    ensures var m := Machine(BootMemory(s, hhdm, ioapic), hhdm, at);
            && Laid(m, levels, frames) && Holds(m, InitialHeap(m, beyond))
            && GrewFrom(s, levels0, m.vm, levels) && Reaches(m.vm, levels, hhdm, pages)
    ensures BootThrough(s, hhdm, ioapic) == Done(BootMemory(s, hhdm, ioapic))
    ensures forall f :: f in frames ==> f in FreePages(s.busy, s.window)
  {
    assert s.window <= FRAMES && 0 in s.busy;
    hide BootReady, BootMemory, BootThrough, WindowBacked, Tree, Reaches;
    levels, frames := BootMapsEverything(s, levels0, hhdm, ioapic, pages);
    var m := Machine(BootMemory(s, hhdm, ioapic), hhdm, at);
    BootGivesWindow(s, MapDevices(s, hhdm, ioapic), m.vm, levels, frames);
    BootLaysOut(s, levels0, m.vm, levels, frames, hhdm, pages, at);
    hide Laid, BitmapReady, BitmapFrames, UsedBits, Holds, InitialHeap;
    ClearedBitmapReadsEmpty(m, levels, frames);
    InitialHeapHeld(m, levels, frames, beyond);
  }

  // ---- Separation ------------------------------------------------------------------------------

  /** Byte v of the heap's address range belongs to the payload of the live allocation at s. */
  ghost predicate PayloadByte(live: map<nat, nat>, s: nat, v: u64) {
    && s in live
    && HEAP_VIRT_START + 16 * (s + 1) <= v < HEAP_VIRT_START + 16 * (s + live[s])
  }

  lemma PayloadInWindow(live: map<nat, nat>, s: nat, v: u64)
    requires AllMapped(live) && PayloadByte(live, s, v)
    ensures InHeapWindow(v)
    ensures v % 0x1_0000_0000_0000 == v - 0xFFFF_0000_0000_0000
  {
  }

  /** Both bytes are mapped, distinct addresses are distinct physical bytes, and the byte at v lies in a
      busy frame that is one of `free`, is not frame 0, not a table and not part of the heap bitmap. */
  ghost predicate SeparateBytes(m: Machine, levels: map<nat, nat>, free: set<nat>, v: u64, w: u64) {
    && Translate(m.vm.mem, m.vm.root, v).Page? && Translate(m.vm.mem, m.vm.root, w).Page?
    && (PhysicalByte(m.vm, v) == PhysicalByte(m.vm, w) <==> v == w)
    && var f := PhysicalByte(m.vm, v) / PAGE_SIZE;
       f != 0 && f !in levels && f !in BitmapFrames(m.at) && f in m.vm.busy && f in free
  }

  lemma PayloadsAreSeparate(m: Machine, levels: map<nat, nat>, frames: seq<Frame>, free: set<nat>,
                            live: map<nat, nat>, a: nat, v: u64, b: nat, w: u64)
    requires Laid(m, levels, frames) && AllMapped(live)
    requires forall f :: f in frames ==> f in free
    requires PayloadByte(live, a, v) && PayloadByte(live, b, w)
    ensures SeparateBytes(m, levels, free, v, w)
  {
    hide Translate, Tree, DirectMapped, BitmapFrames;
    PayloadInWindow(live, a, v);
    PayloadInWindow(live, b, w);
    WindowBytesAreSeparate(m.vm, levels, frames, v, w);
  }

  /** A run of the heap from its initial state, within the mapped part, that leaves `live` allocated. */
  ghost predicate HeapRunLeaves(m: Machine, beyond: seq<u64>, ops: seq<HeapRuns.Op>, live: map<nat, nat>)
    requires |beyond| == Heap.HEAP_WORDS - MAPPED_WORDS
  {
    && RunsMapped(InitialHeap(m, beyond), map[], ops)
    && var r := HeapRuns.Run(InitialHeap(m, beyond), map[], ops);
       r.Reached? && r.live == live
  }

  /** What holds after the bring-up and a run: the tables are sound, apart from the heap bitmap and still
      direct-mapped along with all of `pages`; the tables added were free before; and nothing was written but
      tables, pages that were free, and the heap bitmap. */
  ghost predicate StillSound(s: Vm, levels0: map<nat, nat>, m: Machine, levels: map<nat, nat>, pages: set<nat>) {
    && Tree(m.vm, levels) && Reaches(m.vm, levels, m.hhdm, pages)
    && (forall f :: f in levels ==> f !in BitmapFrames(m.at) && (f in levels0 || f in FreePages(s.busy, s.window)))
    && (forall f: nat :: f !in levels && f !in BitmapFrames(m.at) && f !in FreePages(s.busy, s.window) ==>
          m.vm.mem[f] == s.mem[f])
  }

  lemma RunStillSound(s: Vm, levels0: map<nat, nat>, m: Machine, m': Machine, levels: map<nat, nat>,
                      frames: seq<Frame>, pages: set<nat>)
    requires GrewFrom(s, levels0, m.vm, levels) && Reaches(m.vm, levels, m.hhdm, pages)
    requires Laid(m', levels, frames) && Undisturbed(m, m', frames)
    requires forall f :: f in frames ==> f in FreePages(s.busy, s.window)
    ensures StillSound(s, levels0, m', levels, pages) && m'.hhdm == m.hhdm && m'.at == m.at
  {
    hide Tree, Direct, Translate, FreePages, BitmapFrames;
    ReachesAfter(m.vm, levels, m.hhdm, pages, m'.vm, levels);
  }

  /** The separation theorem. After the bring-up of kmain and any run of the heap in the mapped window, with
      every access through the page tables and none faulting, payload bytes of live allocations at distinct
      addresses are distinct physical bytes; each lies in a page that was free before the bring-up and is
      busy now, which is not frame 0, not a page table (`levels` lists all tables of the tree) and not part
      of the heap bitmap. No page locked beforehand, such as the page bitmap's own, is hit. */
  lemma PayloadsArePhysicallySeparate(s: Vm, levels0: map<nat, nat>, hhdm: u64, ioapic: u64, pages: set<nat>, at: nat,
                                      beyond: seq<u64>, ops: seq<HeapRuns.Op>, live: map<nat, nat>,
                                      a: nat, v: u64, b: nat, w: u64)
    returns (levels: map<nat, nat>, m': Machine)
    requires BootReady(s, levels0, hhdm, ioapic, pages) && BitmapReady(s, levels0, pages, at)
    requires |beyond| == Heap.HEAP_WORDS - MAPPED_WORDS
    requires HeapRunLeaves(Machine(BootMemory(s, hhdm, ioapic), hhdm, at), beyond, ops, live)
    requires PayloadByte(live, a, v) && PayloadByte(live, b, w)
    ensures BootThrough(s, hhdm, ioapic) == Done(BootMemory(s, hhdm, ioapic))
    ensures MachineRun(Machine(BootMemory(s, hhdm, ioapic), hhdm, at), ops) == Ran(m')
    ensures StillSound(s, levels0, m', levels, pages) && m'.hhdm == hhdm && m'.at == at
    ensures SeparateBytes(m', levels, FreePages(s.busy, s.window), v, w)
  {
    assert s.window <= FRAMES;
    hide BootReady, BitmapReady, BootMemory, Laid, Holds, GrewFrom, Reaches, PayloadByte, Undisturbed, AllMapped;
    var frames;
    levels, frames := BootedMachine(s, levels0, hhdm, ioapic, pages, at, beyond);
    var m := Machine(BootMemory(s, hhdm, ioapic), hhdm, at);
    NothingLiveIsMapped();
    m' := MachineRunRefines(m, levels, frames, InitialHeap(m, beyond), map[], ops);
    hide MachineRun, InitialHeap, BootThrough;
    RunStillSound(s, levels0, m, m', levels, frames, pages);
    PayloadsAreSeparate(m', levels, frames, FreePages(s.busy, s.window), live, a, v, b, w);
  }

  lemma NothingLiveIsMapped()
    ensures AllMapped(map[])
  {
  }

  // ---- kmain's own allocations -----------------------------------------------------------------

  const TWO_REQUESTS: seq<HeapRuns.Op> := [HeapRuns.Alloc(16), HeapRuns.Alloc(2)]

  /** The two requests kmain ends with, on a fresh heap: two blocks each, one after the other. */
  lemma TwoRequestsExample(m: Machine, beyond: seq<u64>)
    requires |beyond| == Heap.HEAP_WORDS - MAPPED_WORDS
    ensures HeapRunLeaves(m, beyond, TWO_REQUESTS, map[0 := 2, 2 := 2])
    ensures PayloadByte(map[0 := 2, 2 := 2], 0, HEAP_VIRT_START + 16)
    ensures PayloadByte(map[0 := 2, 2 := 2], 2, HEAP_VIRT_START + 48)
  {
    hide HeapRuns.Sound, InitialHeap, Heap.FirstFit, Heap.Range, LoadWord;
    var h := InitialHeap(m, beyond);
    InitialHeapIsEmpty(m, beyond);
    var h1 := OneRequest(h, map[], 16, 0, TWO_REQUESTS);
    var rest := TWO_REQUESTS[1..];
    assert rest == [HeapRuns.Alloc(2)];
    assert map[][0 := 2] == map[0 := 2];
    var h2 := OneRequest(h1, map[0 := 2], 2, 2, rest);
    assert rest[1..] == [];
    assert map[0 := 2][2 := 2] == map[0 := 2, 2 := 2];
  }

  lemma InitialHeapIsEmpty(m: Machine, beyond: seq<u64>)
    requires |beyond| == Heap.HEAP_WORDS - MAPPED_WORDS
    ensures InitialHeap(m, beyond).used == Heap.Range(0, 0)
  {
  }

  /** A request for two blocks, when the first `start` blocks are set and no others. */
  lemma OneRequest(h: Heap.State, live: map<nat, nat>, amount: u64, start: nat, ops: seq<HeapRuns.Op>)
    returns (h': Heap.State)
    requires HeapRuns.Sound(h, live) && h.used == Heap.Range(0, start) && start < 16
    requires Heap.Blocks(amount) == 2 && ops != [] && ops[0] == HeapRuns.Alloc(amount)
    ensures HeapRuns.Sound(h', live[start := 2]) && h'.used == Heap.Range(0, start + 2)
    ensures RunsMapped(h, live, ops) <==> RunsMapped(h', live[start := 2], ops[1..])
    ensures HeapRuns.Run(h, live, ops) == HeapRuns.Run(h', live[start := 2], ops[1..])
  {
    FitsBehind(h.used, start, 2);
    hide HeapRuns.Sound, Heap.FirstFit, Heap.Blocks;
    HeapRuns.StepKeepsSound(h, live, ops[0]);
    h' := HeapRuns.Step(h, live, ops[0]);
    assert HeapRuns.StepLive(h, live, ops[0]) == live[start := 2];
    RangeTwoMore(start);
  }

  lemma RangeTwoMore(start: nat)
    ensures Heap.Range(0, start) + Heap.Range(start, 2) == Heap.Range(0, start + 2)
  {
  }
}
