/** The physical page allocator seen through the set of busy pages: `Take` is what one call of
    the allocator does, and the lemmas say what every run of calls does. */
module PagePool {
  const PAGE_SIZE := 4096

  ghost function FreePages(busy: set<nat>, window: nat): set<nat>
  {
    set p: nat | p < window && p !in busy
  }

  /** The lowest free page at or after `from`, or `window` if there is none. */
  ghost function LowestFree(busy: set<nat>, from: nat, window: nat): (r: nat)
    requires from <= window
    ensures from <= r <= window
    ensures r < window ==> r !in busy
    ensures forall p :: from <= p < r ==> p in busy
    decreases window - from
  {
    if from == window || from !in busy then from else LowestFree(busy, from + 1, window)
  }

  /** What one allocation gives out: a physical address (0 when nothing is free) and the new busy set. */
  datatype Grant = Grant(addr: nat, busy: set<nat>)

  ghost function Take(busy: set<nat>, window: nat): Grant
  {
    var p := LowestFree(busy, 0, window);
    if p == window then Grant(0, busy) else Grant(p * PAGE_SIZE, busy + {p})
  }

  /** With page 0 locked, address 0 means exactly that the window is full; any other result is
      the least free page, which was not busy before and is now. */
  lemma TakeMeaning(busy: set<nat>, window: nat)
    requires 0 in busy
    ensures Take(busy, window).addr == 0 <==> FreePages(busy, window) == {}
    ensures Take(busy, window).addr == 0 ==> Take(busy, window).busy == busy
    ensures Take(busy, window).addr != 0 ==>
              var p := Take(busy, window).addr / PAGE_SIZE;
              && Take(busy, window).addr == p * PAGE_SIZE
              && p in FreePages(busy, window)
              && (forall q :: q in FreePages(busy, window) ==> p <= q)
              && Take(busy, window).busy == busy + {p}
              && FreePages(busy + {p}, window) == FreePages(busy, window) - {p}
              && |FreePages(busy + {p}, window)| == |FreePages(busy, window)| - 1
  {
    var p := LowestFree(busy, 0, window);
    if p < window {
      assert p in FreePages(busy, window);
      assert FreePages(busy + {p}, window) == FreePages(busy, window) - {p};
    } else {
      assert forall q :: q in FreePages(busy, window) ==> q in busy;
    }
  }

  /** Page 0 or not, a call finds the one free page with none below it, and leaves a full window as it is. */
  lemma TakeIsLeast(busy: set<nat>, window: nat, p: nat)
    requires p <= window && (p < window ==> p !in busy) && forall q: nat :: q < p ==> q in busy
    ensures Take(busy, window) == if p < window then Grant(4096 * p, busy + {p}) else Grant(0, busy)
  {
    assert LowestFree(busy, 0, window) == p;
  }

  /** The results of n calls in a row. */
  ghost function Results(busy: set<nat>, window: nat, n: nat): (r: seq<nat>)
    ensures |r| == n
    decreases n
  {
    if n == 0 then []
    else [Take(busy, window).addr] + Results(Take(busy, window).busy, window, n - 1)
  }

  ghost function PagesOf(results: seq<nat>): set<nat>
  {
    set i: nat | i < |results| && results[i] != 0 :: results[i] / PAGE_SIZE
  }

  /** A run of n calls without frees: as many calls succeed as there were free pages (or n, if that
      is less), they come first, their addresses strictly increase and name pages that were free;
      every later call returns 0. */
  lemma {:induction false} RunOfTakes(busy: set<nat>, window: nat, n: nat)
    requires 0 in busy
    ensures forall i :: 0 <= i < n ==> (Results(busy, window, n)[i] != 0 <==> i < |FreePages(busy, window)|)
    ensures forall i :: 0 <= i < n && i < |FreePages(busy, window)| ==>
              && Results(busy, window, n)[i] / PAGE_SIZE in FreePages(busy, window)
              && Results(busy, window, n)[i] % PAGE_SIZE == 0
    ensures forall i, j :: 0 <= i < j < n && j < |FreePages(busy, window)| ==>
              Results(busy, window, n)[i] < Results(busy, window, n)[j]
    decreases n
  {
    if n > 0 {
      TakeMeaning(busy, window);
      var g := Take(busy, window);
      var r, rest := Results(busy, window, n), Results(g.busy, window, n - 1);
      RunOfTakes(g.busy, window, n - 1);
      assert r == [g.addr] + rest;
      if g.addr != 0 {
        forall j | 0 < j < n && j < |FreePages(busy, window)| ensures r[0] < r[j] {
          assert rest[j - 1] / PAGE_SIZE in FreePages(g.busy, window);
        }
      }
    }
  }

  /** Enough calls hand out every free page, each exactly once (the addresses are distinct by
      `RunOfTakes`) and nothing else. */
  lemma {:induction false} RunExhaustsPool(busy: set<nat>, window: nat, n: nat)
    requires 0 in busy
    requires |FreePages(busy, window)| <= n
    ensures PagesOf(Results(busy, window, n)) == FreePages(busy, window)
    decreases n
  {
    var r, free := Results(busy, window, n), FreePages(busy, window);
    if n > 0 {
      TakeMeaning(busy, window);
      var g := Take(busy, window);
      var rest := Results(g.busy, window, n - 1);
      RunExhaustsPool(g.busy, window, n - 1);
      assert forall i :: 0 < i < n ==> r[i] == rest[i - 1];
      forall p: nat ensures p in PagesOf(r) <==> p in free {
        if p in PagesOf(rest) {
          var i: nat :| i < |rest| && rest[i] != 0 && rest[i] / PAGE_SIZE == p;
          assert r[i + 1] == rest[i];
        }
        if g.addr != 0 && p == g.addr / PAGE_SIZE {
          assert r[0] == g.addr;
        }
        if p in PagesOf(r) {
          var i: nat :| i < |r| && r[i] != 0 && r[i] / PAGE_SIZE == p;
          if i > 0 {
            assert rest[i - 1] == r[i];
          }
        }
      }
    }
  }
}
