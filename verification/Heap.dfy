/** The kernel heap: leftmost first fit over a bitmap of 16-byte blocks, with the block count of each
    allocation stored in its first block. `State` is the meaning, `KernelHeap` the implementation. */
module Heap {
  import opened Words
  import opened Bitmap

  const HEAP_VIRT_START: u64 := 0xFFFF_8000_0000_0000
  const BLOCK_SIZE := 16
  const HEAP_MAX_BLOCKS := 8192 * 64

  /** Two words to a block. */
  const HEAP_WORDS := 2 * HEAP_MAX_BLOCKS

  /** Blocks with their bit set, and the words of the heap window from HEAP_VIRT_START. */
  datatype State = State(used: set<nat>, words: seq<u64>)

  // ---- Searching -------------------------------------------------------------------------------

  /** The blocks of a request: its 16-byte units rounded up, plus the header. The sum wraps. */
  function Blocks(amount: u64): (n: nat)
    ensures 1 <= n
  {
    (amount + BLOCK_SIZE - 1) % TWO_64 / BLOCK_SIZE + 1
  }

  ghost function Range(start: nat, n: nat): (r: set<nat>)
    ensures forall b :: b in r <==> start <= b < start + n
  {
    if n == 0 then {} else Range(start, n - 1) + {start + n - 1}
  }

  ghost predicate ClearRun(used: set<nat>, start: nat, n: nat) {
    forall b :: start <= b < start + n ==> b !in used
  }

  /** The least start, from `from` on, of n clear blocks; HEAP_MAX_BLOCKS if there is none. */
  ghost function FitFrom(used: set<nat>, n: nat, from: nat): (r: nat)
    requires n >= 1
    ensures r == HEAP_MAX_BLOCKS || (from <= r && r + n <= HEAP_MAX_BLOCKS && ClearRun(used, r, n))
    ensures forall st :: from <= st && st + n <= HEAP_MAX_BLOCKS && st < r ==> !ClearRun(used, st, n)
    decreases HEAP_MAX_BLOCKS - from
  {
    if from + n > HEAP_MAX_BLOCKS then HEAP_MAX_BLOCKS
    else if ClearRun(used, from, n) then from
    else FitFrom(used, n, from + 1)
  }

  ghost function FirstFit(used: set<nat>, n: nat): nat
    requires n >= 1
  {
    FitFrom(used, n, 0)
  }

  /** First fit is the only answer that is clear and has nothing clear before it. */
  lemma FirstFitUnique(used: set<nat>, n: nat, start: nat)
    requires n >= 1
    requires start + n <= HEAP_MAX_BLOCKS && ClearRun(used, start, n)
    requires forall st :: 0 <= st < start ==> !ClearRun(used, st, n)
    ensures FirstFit(used, n) == start
  {
    var r := FirstFit(used, n);
    assert r <= start;
  }

  lemma NoFitUnique(used: set<nat>, n: nat)
    requires n >= 1
    requires forall st: nat :: st + n <= HEAP_MAX_BLOCKS ==> !ClearRun(used, st, n)
    ensures FirstFit(used, n) == HEAP_MAX_BLOCKS
  {
  }

  // ---- Operations ------------------------------------------------------------------------------

  function PointerOf(start: nat): u64
    requires start < HEAP_MAX_BLOCKS
  {
    HEAP_VIRT_START + start * BLOCK_SIZE + BLOCK_SIZE
  }

  ghost function MallocAt(h: State, n: nat, start: nat): State
    requires 1 <= n && start + n <= HEAP_MAX_BLOCKS && |h.words| == HEAP_WORDS
  {
    State(h.used + Range(start, n), h.words[2 * start := n])
  }

  /** The new state and the pointer, 0 for NULL. */
  ghost function Malloc(h: State, amount: u64): (State, u64)
    requires |h.words| == HEAP_WORDS
  {
    var n := Blocks(amount);
    var start := FirstFit(h.used, n);
    if start == HEAP_MAX_BLOCKS then (h, 0) else (MallocAt(h, n, start), PointerOf(start))
  }

  /** The block a pointer's header lies in, as kfree computes it. */
  function BlockOf(p: u64): nat
    requires p >= HEAP_VIRT_START + BLOCK_SIZE
  {
    (p - BLOCK_SIZE - HEAP_VIRT_START) / BLOCK_SIZE
  }

  /** What kfree can be handed without running off the heap: NULL, or a block-aligned pointer whose
      header names blocks inside the heap. */
  predicate Freeable(h: State, p: u64)
    requires |h.words| == HEAP_WORDS
  {
    p != 0 ==>
      && p >= HEAP_VIRT_START + BLOCK_SIZE && p % BLOCK_SIZE == 0
      && BlockOf(p) < HEAP_MAX_BLOCKS
      && BlockOf(p) + h.words[2 * BlockOf(p)] <= HEAP_MAX_BLOCKS
  }

  ghost function Free(h: State, p: u64): State
    requires |h.words| == HEAP_WORDS && Freeable(h, p)
  {
    if p == 0 then h else h.(used := h.used - Range(BlockOf(p), h.words[2 * BlockOf(p)]))
  }

  lemma PointerRoundTrip(start: nat)
    requires start < HEAP_MAX_BLOCKS
    ensures PointerOf(start) != 0 && PointerOf(start) % BLOCK_SIZE == 0 && BlockOf(PointerOf(start)) == start
  {
  }

  /** A request is served with at least as much payload as it asked for exactly when the rounding sum
      does not wrap: amounts above 2^64 - 16 get a small allocation. */
  lemma PayloadCoversAmountIff(amount: u64)
    ensures BLOCK_SIZE * (Blocks(amount) - 1) >= amount <==> amount <= TWO_64 - BLOCK_SIZE
  {
  }

  /** And with no more than that: the blocks are the least number, header included, whose payload covers the
      amount; a request whose rounding sum wraps gets a header and nothing else. */
  lemma BlocksAreLeast(amount: u64, n: nat)
    ensures amount <= 0x1_0000_0000_0000_0000 - 16 ==>
              && 16 * (Blocks(amount) - 1) >= amount && 16 * (Blocks(amount) - 1) < amount + 16
              && (n >= 1 && 16 * (n - 1) >= amount ==> Blocks(amount) <= n)
    ensures amount > 0x1_0000_0000_0000_0000 - 16 ==> Blocks(amount) == 1
  {
  }

  lemma WrappedRequestExample()
    ensures Blocks(0xFFFF_FFFF_FFFF_FFFF) == 1 && Blocks(24) == 3
  {
  }

  /** What kfree does with any pointer it can be handed, live or stale: with the header's 64-bit word at p - 16,
      it clears as many blocks as that word says, from the header's own on, and changes nothing else. */
  lemma FreeClearsNamedBlocks(h: State, p: u64)
    requires |h.words| == HEAP_WORDS && Freeable(h, p)
    ensures Free(h, p).words == h.words
    ensures p == 0 ==> Free(h, p) == h
    ensures p != 0 ==>
              var offset := p - 16 - 0xFFFF_8000_0000_0000;
              && 0 <= offset < 0x80_0000
              && forall b: nat :: b in Free(h, p).used
                   <==> b in h.used && !(offset / 16 <= b < offset / 16 + h.words[offset / 8])
  {
    if p != 0 {
      assert (p - 16 - 0xFFFF_8000_0000_0000) / 8 == 2 * BlockOf(p);
    }
  }

  /** kmalloc finds room, but stores the header in a word that is not mapped. */
  ghost predicate HeaderFaults(h: State, amount: u64, mapped: nat) {
    var start := FirstFit(h.used, Blocks(amount));
    start != HEAP_MAX_BLOCKS && 2 * start >= mapped
  }

  /** It has marked the blocks by then. */
  ghost function AfterHeaderFault(h: State, amount: u64): State {
    h.(used := h.used + Range(FirstFit(h.used, Blocks(amount)), Blocks(amount)))
  }

  class KernelHeap {
    const bitmap: array<u64>
    /** The heap's address range. Only the first `mapped` words can be accessed; the others fault. */
    const words: array<u64>
    const mapped: nat

    ghost predicate Valid()
      reads this
    {
      bitmap.Length == HEAP_MAX_BLOCKS / 64 && words.Length == HEAP_WORDS && bitmap != words && mapped <= HEAP_WORDS
    }

    ghost function View(): State
      reads this, bitmap, words
    {
      State(Marked(bitmap[..]), words[..])
    }

    /** The heap bitmap starts out cleared; the window holds whatever its frames held. */
    constructor (window: array<u64>, mapped: nat)
      requires window.Length == HEAP_WORDS && mapped <= HEAP_WORDS
      ensures Valid() && fresh(bitmap) && words == window && this.mapped == mapped
      ensures View() == State({}, window[..])
    {
      bitmap := new u64[HEAP_MAX_BLOCKS / 64](_ => 0);
      words := window;
      this.mapped := mapped;
      new;
      ZerosMarkNothing(bitmap[..]);
    }

    /** The source's one-pass search: `found` counts the clear blocks just before block i, `start` is
        where they begin. `ok` is whether it comes back. */
    method Kmalloc(amount: u64) returns (ok: bool, p: u64)
      requires Valid()
      modifies bitmap, words
      ensures ok <==> !HeaderFaults(old(View()), amount, mapped)
      ensures if ok then (View(), p) == Malloc(old(View()), amount) else View() == AfterHeaderFault(old(View()), amount)
    {
      hide Blocks, Bit, Marked;
      var blocks := Blocks(amount);
      var found, start := 0, 0;
      ghost var used := Marked(bitmap[..]);
      var i := 0;
      while i < HEAP_MAX_BLOCKS
        invariant 0 <= i <= HEAP_MAX_BLOCKS
        invariant View() == old(View()) && used == Marked(bitmap[..])
        invariant 0 <= found < blocks && found <= i
        invariant found > 0 ==> start == i - found
        invariant ClearRun(used, i - found, found)
        invariant i == found || i - found - 1 in used
        invariant forall st: nat :: st + blocks <= i ==> !ClearRun(used, st, blocks)
      {
        var isSet := TestBit(bitmap[i / 64], i % 64);
        MarkedBit(bitmap[..], i);
        if !isSet {
          if found == 0 {
            start := i;
          }
          found := found + 1;
          if found == blocks {
            FirstFitUnique(used, blocks, start);
            ok, p := Claim(start, blocks);
            return;
          }
        } else {
          found := 0;
        }
        i := i + 1;
      }
      NoFitUnique(used, blocks);
      ok, p := true, 0;
    }

    /** Marks the blocks found, writes the header and returns the address after it. */
    method Claim(start: nat, blocks: nat) returns (ok: bool, p: u64)
      requires Valid() && 1 <= blocks && start + blocks <= HEAP_MAX_BLOCKS
      modifies bitmap, words
      ensures ok <==> 2 * start < mapped
      ensures if ok then View() == MallocAt(old(View()), blocks, start) && p == PointerOf(start)
              else View() == old(View()).(used := old(View()).used + Range(start, blocks))
    {
      for k := 0 to blocks
        invariant Marked(bitmap[..]) == old(Marked(bitmap[..])) + Range(start, k)
        invariant words[..] == old(words[..])
      {
        LockPage(start + k, bitmap);
      }
      p := 0;
      ok := 2 * start < mapped;
      if !ok {
        return;
      }
      words[2 * start] := blocks;
      p := HEAP_VIRT_START + start * BLOCK_SIZE + BLOCK_SIZE;
    }

    method Kfree(p: u64) returns (ok: bool)
      requires Valid() && Freeable(View(), p)
      modifies bitmap
      ensures ok <==> p == 0 || 2 * BlockOf(p) < mapped
      ensures View() == if ok then Free(old(View()), p) else old(View())
    {
      ok := true;
      if p == 0 {
        return;
      }
      var virtAddr := p - BLOCK_SIZE;
      ok := (virtAddr - HEAP_VIRT_START) / 8 < mapped;
      if !ok {
        return;
      }
      var blocksFree := words[(virtAddr - HEAP_VIRT_START) / 8];
      var bitIdx := (virtAddr - HEAP_VIRT_START) / BLOCK_SIZE;
      ClearBlocks(bitIdx, blocksFree);
    }

    method ClearBlocks(start: nat, n: nat)
      requires Valid() && start + n <= HEAP_MAX_BLOCKS
      modifies bitmap
      ensures Marked(bitmap[..]) == old(Marked(bitmap[..])) - Range(start, n) && words[..] == old(words[..])
    {
      for i := 0 to n
        invariant Marked(bitmap[..]) == old(Marked(bitmap[..])) - Range(start, i)
        invariant words[..] == old(words[..])
      {
        FreePage(start + i, bitmap);
      }
    }
  }
}
