/** Bitmaps packed into 64-bit words: page p is bit p % 64 of word p / 64, and a set bit means
    unavailable. The physical page allocator and the kernel heap both use this layout. */
module Bitmap {
  import opened Words

  const ALL_ONES: u64 := TWO_64 - 1

  predicate PageBit(words: seq<u64>, p: nat)
    requires p < 64 * |words|
  {
    Bit(words[p / 64], p % 64)
  }

  /** The pages whose bit is set: the meaning of a bitmap. */
  ghost function Marked(words: seq<u64>): set<nat>
  {
    set p: nat | p < 64 * |words| && PageBit(words, p)
  }

  lemma MarkedBit(words: seq<u64>, p: nat)
    requires p < 64 * |words|
    ensures p in Marked(words) <==> Bit(words[p / 64], p % 64)
  {
  }

  /** The source's test of one bit, `word & (1 << j)`. */
  method TestBit(word: u64, j: nat) returns (isSet: bool)
    requires j < 64
    ensures isSet <==> Bit(word, j)
  {
    AndOneShifted(word, j);
    isSet := And(word, Shl(1, j)) != 0;
  }

  /** `word | (1 << k)` and `word & ~(1 << k)`. */
  function WithBit(word: u64, k: nat): (r: u64)
    requires k < 64
    ensures forall j: nat :: j < 64 ==> (Bit(r, j) <==> j == k || Bit(word, j))
  {
    OneShiftedFits(k);
    OrFits(word, Shl(1, k));
    assert forall j: nat :: j < 64 ==> (Bit(Or(word, Shl(1, k)), j) <==> j == k || Bit(word, j)) by {
      forall j: nat | j < 64 ensures Bit(Or(word, Shl(1, k)), j) <==> j == k || Bit(word, j) {
        BitOfOr(word, Shl(1, k), j);
        BitOfOneShifted(k, j);
      }
    }
    Or(word, Shl(1, k))
  }

  function WithoutBit(word: u64, k: nat): (r: u64)
    requires k < 64
    ensures forall j: nat :: j < 64 ==> (Bit(r, j) <==> j != k && Bit(word, j))
  {
    OneShiftedFits(k);
    assert forall j: nat :: j < 64 ==> (Bit(And(word, Not(Shl(1, k))), j) <==> j != k && Bit(word, j)) by {
      forall j: nat | j < 64 ensures Bit(And(word, Not(Shl(1, k))), j) <==> j != k && Bit(word, j) {
        BitOfAnd(word, Not(Shl(1, k)), j);
        BitOfNot(Shl(1, k), j);
        BitOfOneShifted(k, j);
      }
    }
    And(word, Not(Shl(1, k)))
  }

  /** `bitmap[page / 64] |= 1 << (page % 64)` adds exactly this page to the set of marked pages. */
  method LockPage(page: nat, words: array<u64>)
    requires page < 64 * words.Length
    modifies words
    ensures Marked(words[..]) == old(Marked(words[..])) + {page}
  {
    var arrayIndex, bitIndex := page / 64, page % 64;
    InsertPage(words[..], page);
    words[arrayIndex] := WithBit(words[arrayIndex], bitIndex);
    assert words[..] == old(words[..])[arrayIndex := words[arrayIndex]];
  }

  lemma InsertPage(words: seq<u64>, page: nat)
    requires page < 64 * |words|
    ensures Marked(words[page / 64 := WithBit(words[page / 64], page % 64)]) == Marked(words) + {page}
  {
    hide WithBit;
  }

  /** `bitmap[page / 64] &= ~(1 << (page % 64))` removes exactly this page. */
  method FreePage(page: nat, words: array<u64>)
    requires page < 64 * words.Length
    modifies words
    ensures Marked(words[..]) == old(Marked(words[..])) - {page}
  {
    var arrayIndex, bitIndex := page / 64, page % 64;
    RemovePage(words[..], page);
    words[arrayIndex] := WithoutBit(words[arrayIndex], bitIndex);
    assert words[..] == old(words[..])[arrayIndex := words[arrayIndex]];
  }

  lemma RemovePage(words: seq<u64>, page: nat)
    requires page < 64 * |words|
    ensures Marked(words[page / 64 := WithoutBit(words[page / 64], page % 64)]) == Marked(words) - {page}
  {
    hide WithoutBit;
  }

  /** A word of ones marks all of its 64 pages, so skipping it skips no clear bit. */
  lemma FullWord(j: nat)
    requires j < 64
    ensures Bit(ALL_ONES, j)
  {
    NoBitInZero(j);
    BitOfNot(0, j);
  }

  lemma FullWordMarks(words: seq<u64>, i: nat)
    requires i < |words| && words[i] == ALL_ONES
    ensures forall p: nat :: 64 * i <= p < 64 * (i + 1) ==> p in Marked(words)
  {
    forall p: nat | 64 * i <= p < 64 * (i + 1) ensures PageBit(words, p) {
      FullWord(p % 64);
    }
  }

  lemma OnesMarkEverything(words: seq<u64>)
    requires forall i :: 0 <= i < |words| ==> words[i] == ALL_ONES
    ensures forall p: nat :: p in Marked(words) <==> p < 64 * |words|
  {
    forall p: nat | p < 64 * |words| ensures PageBit(words, p) {
      FullWord(p % 64);
    }
  }

  lemma ZerosMarkNothing(words: seq<u64>)
    requires forall i :: 0 <= i < |words| ==> words[i] == 0
    ensures Marked(words) == {}
  {
    forall p: nat | p < 64 * |words| ensures !PageBit(words, p) {
      NoBitInZero(p % 64);
    }
  }

  // ---- The bitmap as bytes ---------------------------------------------------------------------

  /** Byte m of the bitmap as it lies in memory, the least significant of each word first. */
  function ByteOf(words: seq<u64>, m: nat): nat
    requires m < 8 * |words|
  {
    And(Shr(words[m / 8], 8 * (m % 8)), 0xFF)
  }

  /** Page p has its bit in byte p / 8: clearing that byte frees it, and clearing others does not. */
  lemma PageLiesInByte(words: seq<u64>, p: nat)
    requires p < 64 * |words|
    ensures p in Marked(words) <==> Bit(ByteOf(words, p / 8), p % 8)
  {
    var w, m := words[p / 64], p / 8 % 8;
    assert p / 8 / 8 == p / 64 && p % 64 == 8 * m + p % 8;
    hide Bit, And, Shr;
    BitAbove(w, 8 * m, p % 8);
    BitOfAnd(Shr(w, 8 * m), 0xFF, p % 8);
    LowByteBits(p % 8);
  }

  lemma {:induction false} BitAbove(x: nat, j: nat, k: nat)
    ensures Bit(x, j + k) <==> Bit(Shr(x, j), k)
  {
    if j > 0 {
      BitAbove(x, j - 1, k + 1);
    }
  }

  lemma LowByteBits(k: nat)
    requires k < 8
    ensures Bit(0xFF, k)
  {
    assert Shl(1, 8) == 2 * Shl(1, 7) == 0x100;
    hide Shl, Bit;
    NoBitInZero(k);
    BitOfComplement(0, k, 8);
  }
}
