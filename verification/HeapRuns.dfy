/** Safety of the heap over every run of allocations, frees and writes into live payloads. */
module HeapRuns {
  import opened Words
  import opened Heap

  /** `live` maps the first block of each live allocation to its block count. */
  ghost predicate Owns(live: map<nat, nat>, s: nat, b: nat) {
    s in live && s <= b < s + live[s]
  }

  /** The invariant: live allocations lie inside the heap and apart from each other, each still has its
      own block count in its header, and the set bits are exactly the blocks of live allocations. */
  ghost predicate Sound(h: State, live: map<nat, nat>) {
    && |h.words| == HEAP_WORDS
    && (forall s :: s in live ==> 1 <= live[s] && s + live[s] <= HEAP_MAX_BLOCKS && h.words[2 * s] == live[s])
    && (forall s, t, b :: Owns(live, s, b) && Owns(live, t, b) ==> s == t)
    && (forall b :: b in h.used <==> exists s :: Owns(live, s, b))
  }

  /** Word w lies in the payload of the live allocation at s: after its header block. */
  ghost predicate PayloadWord(live: map<nat, nat>, s: nat, w: nat) {
    s in live && 2 * (s + 1) <= w < 2 * (s + live[s])
  }

  datatype Op = Alloc(amount: u64) | Release(start: nat) | Write(word: nat, value: u64)

  /** Clients free live allocations and write inside live payloads. */
  ghost predicate Enabled(live: map<nat, nat>, op: Op) {
    match op
    case Alloc(_) => true
    case Release(s) => s in live
    case Write(w, _) => exists s :: PayloadWord(live, s, w)
  }

  ghost function Step(h: State, live: map<nat, nat>, op: Op): State
    requires Sound(h, live) && Enabled(live, op)
  {
    match op
    case Alloc(amount) => Malloc(h, amount).0
    case Release(s) => LivePointerIsFreeable(h, live, s); Free(h, PointerOf(s))
    case Write(w, v) => h.(words := h.words[w := v])
  }

  ghost function StepLive(h: State, live: map<nat, nat>, op: Op): map<nat, nat>
    requires Enabled(live, op)
  {
    match op
    case Alloc(amount) =>
      var start := FirstFit(h.used, Blocks(amount));
      if start == HEAP_MAX_BLOCKS then live else live[start := Blocks(amount)]
    case Release(s) => live - {s}
    case Write(_, _) => live
  }

  lemma LivePointerIsFreeable(h: State, live: map<nat, nat>, s: nat)
    requires Sound(h, live) && s in live
    ensures s < HEAP_MAX_BLOCKS && Freeable(h, PointerOf(s))
  {
    PointerRoundTrip(s);
  }

  lemma ClearStartIsNotLive(h: State, live: map<nat, nat>, start: nat, n: nat)
    requires Sound(h, live) && n >= 1 && ClearRun(h.used, start, n)
    ensures start !in live
  {
    assert start !in h.used;
    assert !Owns(live, start, start);
  }

  lemma AllocKeepsSound(h: State, live: map<nat, nat>, amount: u64)
    requires Sound(h, live)
    ensures Sound(Malloc(h, amount).0, StepLive(h, live, Alloc(amount)))
  {
    var n := Blocks(amount);
    var start := FirstFit(h.used, n);
    if start != HEAP_MAX_BLOCKS {
      var live', h' := live[start := n], MallocAt(h, n, start);
      ClearStartIsNotLive(h, live, start, n);
      forall s, b ensures Owns(live', s, b) <==> (s == start && b in Range(start, n)) || Owns(live, s, b) {
      }
      forall s, b | Owns(live, s, b) ensures b !in Range(start, n) {
        assert b in h.used;
      }
      forall b ensures b in h'.used <==> exists s :: Owns(live', s, b) {
        if b in h'.used {
          if b in h.used {
            var s :| Owns(live, s, b);
            assert Owns(live', s, b);
          } else {
            assert Owns(live', start, b);
          }
        }
      }
    }
  }

  /** kfree of a live pointer recovers its start from the address and its size from the header, and
      clears exactly that allocation's bits. */
  lemma ReleaseIsExact(h: State, live: map<nat, nat>, s: nat)
    requires Sound(h, live) && s in live
    ensures s < HEAP_MAX_BLOCKS && Freeable(h, PointerOf(s))
    ensures Free(h, PointerOf(s)) == h.(used := h.used - Range(s, live[s]))
    ensures Sound(Free(h, PointerOf(s)), live - {s})
  {
    LivePointerIsFreeable(h, live, s);
    PointerRoundTrip(s);
    var live', h' := live - {s}, Free(h, PointerOf(s));
    forall t, b ensures Owns(live', t, b) <==> t != s && Owns(live, t, b) {
    }
    forall b ensures b in h'.used <==> exists t :: Owns(live', t, b) {
      if b in h'.used {
        var t :| Owns(live, t, b);
        assert Owns(live', t, b);
      }
      if t :| Owns(live', t, b) {
        assert Owns(live, t, b);
        if b in Range(s, live[s]) {
          assert Owns(live, s, b);
        }
      }
    }
  }

  /** A client's write inside its payload hits no header, its own or another's. */
  lemma WriteKeepsSound(h: State, live: map<nat, nat>, w: nat, v: u64)
    requires Sound(h, live) && Enabled(live, Write(w, v))
    ensures Sound(h.(words := h.words[w := v]), live)
  {
    var s :| PayloadWord(live, s, w);
    forall t | t in live ensures 2 * t != w {
      if 2 * t == w {
        assert Owns(live, s, t) && Owns(live, t, t);
      }
    }
  }

  lemma StepKeepsSound(h: State, live: map<nat, nat>, op: Op)
    requires Sound(h, live) && Enabled(live, op)
    ensures Sound(Step(h, live, op), StepLive(h, live, op))
  {
    match op
    case Alloc(amount) => AllocKeepsSound(h, live, amount);
    case Release(s) => ReleaseIsExact(h, live, s);
    case Write(w, v) => WriteKeepsSound(h, live, w, v);
  }

  // ---- Runs ------------------------------------------------------------------------------------

  /** The outcome of a run, or None if some operation was not one its client may perform. */
  datatype Outcome = Stuck | Reached(h: State, live: map<nat, nat>)

  ghost function Run(h: State, live: map<nat, nat>, ops: seq<Op>): Outcome
    requires Sound(h, live)
    decreases |ops|
  {
    if ops == [] then Reached(h, live)
    else if !Enabled(live, ops[0]) then Stuck
    else
      StepKeepsSound(h, live, ops[0]);
      Run(Step(h, live, ops[0]), StepLive(h, live, ops[0]), ops[1..])
  }

  /** Total blocks of the live allocations. */
  ghost function TotalBlocks(live: map<nat, nat>): nat {
    if live == map[] then 0
    else
      var s :| s in live;
      live[s] + TotalBlocks(live - {s})
  }

  lemma {:induction false} TotalWithout(live: map<nat, nat>, s: nat)
    requires s in live
    ensures TotalBlocks(live) == live[s] + TotalBlocks(live - {s})
    decreases |live|
  {
    var t :| t in live && TotalBlocks(live) == live[t] + TotalBlocks(live - {t});
    if t != s {
      TotalWithout(live - {t}, s);
      TotalWithout(live - {s}, t);
      assert live - {t} - {s} == live - {s} - {t};
    }
  }

  lemma {:induction false} RangeSize(start: nat, n: nat)
    ensures |Range(start, n)| == n
  {
    if n > 0 {
      RangeSize(start, n - 1);
    }
  }

  /** Conservation: the number of set bits is the sum of the live block counts. */
  lemma {:induction false} SetBitsAreLiveBlocks(h: State, live: map<nat, nat>)
    requires Sound(h, live)
    ensures |h.used| == TotalBlocks(live)
    decreases |live|
  {
    if live == map[] {
      assert h.used == {} by {
        forall b ensures b !in h.used {
        }
      }
    } else {
      var s :| s in live;
      LivePointerIsFreeable(h, live, s);
      ReleaseIsExact(h, live, s);
      SetBitsAreLiveBlocks(Free(h, PointerOf(s)), live - {s});
      TotalWithout(live, s);
      RangeSize(s, live[s]);
      assert Range(s, live[s]) <= h.used by {
        forall b | b in Range(s, live[s]) ensures b in h.used {
          assert Owns(live, s, b);
        }
      }
    }
  }

  /** Every run from the empty heap that its clients play by the rules ends sound, with as many set bits
      as live blocks; if nothing is live any more, the bitmap is clear. */
  lemma {:induction false} RunIsSound(h: State, live: map<nat, nat>, ops: seq<Op>)
    requires Sound(h, live)
    ensures var r := Run(h, live, ops);
            r.Reached? ==>
              && Sound(r.h, r.live) && |r.h.used| == TotalBlocks(r.live)
              && (r.live == map[] ==> r.h.used == {})
    decreases |ops|
  {
    if ops == [] {
      SetBitsAreLiveBlocks(h, live);
    } else if Enabled(live, ops[0]) {
      StepKeepsSound(h, live, ops[0]);
      RunIsSound(Step(h, live, ops[0]), StepLive(h, live, ops[0]), ops[1..]);
    }
  }

  lemma EmptyHeapIsSound(words: seq<u64>)
    requires |words| == HEAP_WORDS
    ensures Sound(State({}, words), map[])
  {
  }

  // ---- What callers get ------------------------------------------------------------------------

  /** The blocks a request for this amount takes: its 16-byte units, rounded up, and one for the header; just
      the header if rounding up wraps at 2^64. */
  function UnitsAndHeader(amount: u64): nat {
    if amount > 0x1_0000_0000_0000_0000 - 16 then 1
    else if amount % 16 == 0 then amount / 16 + 1
    else amount / 16 + 2
  }

  lemma BlocksAreUnitsAndHeader(amount: u64)
    ensures Blocks(amount) == UnitsAndHeader(amount)
  {
    BlocksAreLeast(amount, 1);
  }

  /** kmalloc fails exactly when the heap's 524288 blocks have no clear run that long, and then changes nothing. A
      pointer it returns is 16-byte aligned and starts a live allocation that lies inside the heap, at
      the least possible block; it is the address of that allocation's first payload word, and the payload
      covers the amount if rounding up did not wrap. The run's blocks become used, its first word holds their
      number, and nothing else changes. */
  lemma AllocMeaning(h: State, live: map<nat, nat>, amount: u64)
    requires Sound(h, live)
    ensures var (h', p) := Malloc(h, amount);
            var n := UnitsAndHeader(amount);
            && (p == 0 <==> forall st: nat :: st + n <= 524288 ==> !ClearRun(h.used, st, n))
            && (p == 0 ==> h' == h)
            && (p != 0 ==>
                  && p % 16 == 0 && p >= 0xFFFF_8000_0000_0010
                  && var s := (p - 0xFFFF_8000_0000_0010) / 16;
                     && s !in live && FirstRun(h.used, s, n)
                     && StepLive(h, live, Alloc(amount)) == live[s := n]
                     && (amount <= 0x1_0000_0000_0000_0000 - 16 ==> 16 * (n - 1) >= amount)
                     && (forall b: nat :: b in h'.used <==> b in h.used || s <= b < s + n)
                     && h'.words == h.words[2 * s := n])
  {
    BlocksAreUnitsAndHeader(amount);
    hide Blocks, Sound, FitFrom;
    var n := UnitsAndHeader(amount);
    var start := FirstFit(h.used, n);
    if start != HEAP_MAX_BLOCKS {
      PointerRoundTrip(start);
      ClearStartIsNotLive(h, live, start, n);
    }
  }

  /** kmalloc faults exactly when the first run that is long enough starts at or beyond word `mapped` of the window.
      That run is marked by then and stays so, although no caller ever learns of it. */
  lemma HeaderFaultMeaning(h: State, amount: u64, mapped: nat)
    ensures var n := UnitsAndHeader(amount);
            && (HeaderFaults(h, amount, mapped) <==>
                  exists s: nat :: FirstRun(h.used, s, n) && 2 * s >= mapped)
            && (HeaderFaults(h, amount, mapped) ==>
                  && AfterHeaderFault(h, amount).words == h.words
                  && forall s: nat, b: nat :: FirstRun(h.used, s, n) ==>
                       (b in AfterHeaderFault(h, amount).used <==> b in h.used || s <= b < s + n))
  {
    BlocksAreUnitsAndHeader(amount);
    var n := UnitsAndHeader(amount);
    hide Blocks, UnitsAndHeader;
    var start := FirstFit(h.used, n);
    if start != HEAP_MAX_BLOCKS {
      assert FirstRun(h.used, start, n);
    }
    forall s: nat | FirstRun(h.used, s, n) ensures s == start {
      FirstFitUnique(h.used, n, s);
    }
  }

  /** The n blocks from s on are clear, inside the heap, and no earlier n in a row are clear. */
  ghost predicate FirstRun(used: set<nat>, s: nat, n: nat) {
    s + n <= 524288 && ClearRun(used, s, n) && forall st: nat :: st < s ==> !ClearRun(used, st, n)
  }

  /** Two neighbouring allocations, freed in either order, serve a request of their combined size
      although nothing merges them: the bitmap has no memory of the old boundary. */
  lemma FreedNeighboursServeCombinedRequest(h: State, live: map<nat, nat>, a: nat, b: nat, amount: u64)
    requires Sound(h, live) && a in live && b in live && a + live[a] == b
    requires Blocks(amount) <= live[a] + live[b]
    ensures var r1 := Run(h, live, [Release(a), Release(b)]);
            var r2 := Run(h, live, [Release(b), Release(a)]);
            && r1.Reached? && r1 == r2 && |r1.h.words| == HEAP_WORDS
            && Malloc(r1.h, amount).1 != 0 && FirstFit(r1.h.used, Blocks(amount)) <= a
  {
    ReleaseTwo(h, live, a, b);
    ReleaseTwo(h, live, b, a);
    var used := h.used - Range(a, live[a]) - Range(b, live[b]);
    assert used == h.used - Range(b, live[b]) - Range(a, live[a]);
    assert live - {a} - {b} == live - {b} - {a};
    assert ClearRun(used, a, Blocks(amount));
  }

  lemma ReleaseTwo(h: State, live: map<nat, nat>, a: nat, b: nat)
    requires Sound(h, live) && a in live && b in live && a != b
    ensures Run(h, live, [Release(a), Release(b)])
            == Reached(h.(used := h.used - Range(a, live[a]) - Range(b, live[b])), live - {a} - {b})
  {
    var ops := [Release(a), Release(b)];
    ReleaseIsExact(h, live, a);
    StepKeepsSound(h, live, ops[0]);
    var h1, live1 := Step(h, live, ops[0]), live - {a};
    ReleaseIsExact(h1, live1, b);
    StepKeepsSound(h1, live1, ops[1]);
    assert ops[1..] == [Release(b)];
    assert ops[1..][1..] == [];
    assert Run(h1, live1, ops[1..]) == Run(Step(h1, live1, Release(b)), live1 - {b}, []);
  }

  // ---- Payloads are kept -----------------------------------------------------------------------

  /** No operation frees the allocation at s or writes its word w. */
  predicate LeavesAlone(ops: seq<Op>, s: nat, w: nat) {
    forall i :: 0 <= i < |ops| ==> ops[i] != Release(s) && !(ops[i].Write? && ops[i].word == w)
  }

  lemma StepKeepsPayload(h: State, live: map<nat, nat>, op: Op, s: nat, w: nat)
    requires Sound(h, live) && Enabled(live, op) && PayloadWord(live, s, w)
    requires op != Release(s) && !(op.Write? && op.word == w)
    ensures w < |h.words| && |Step(h, live, op).words| == |h.words|
    ensures Step(h, live, op).words[w] == h.words[w]
    ensures s in StepLive(h, live, op) && StepLive(h, live, op)[s] == live[s]
  {
    match op
    case Alloc(amount) =>
      var n := Blocks(amount);
      var start := FirstFit(h.used, n);
      if start != HEAP_MAX_BLOCKS {
        ClearStartIsNotLive(h, live, start, n);
        assert start !in h.used;
        assert !Owns(live, s, start);
      }
    case Release(t) => ReleaseIsExact(h, live, t);
    case Write(_, _) =>
  }

  /** What a client wrote stays there: over any run the words of a payload change only where a client writes
      them, as long as the allocation is not freed. */
  lemma {:induction false} RunKeepsPayload(h: State, live: map<nat, nat>, ops: seq<Op>, s: nat, w: nat)
    requires Sound(h, live) && PayloadWord(live, s, w) && LeavesAlone(ops, s, w)
    ensures var r := Run(h, live, ops);
            r.Reached? ==>
              && w < |h.words| == |r.h.words| && r.h.words[w] == h.words[w]
              && s in r.live && r.live[s] == live[s]
    decreases |ops|
  {
    if ops != [] && Enabled(live, ops[0]) {
      StepKeepsSound(h, live, ops[0]);
      StepKeepsPayload(h, live, ops[0], s, w);
      RunKeepsPayload(Step(h, live, ops[0]), StepLive(h, live, ops[0]), ops[1..], s, w);
    }
  }
}
