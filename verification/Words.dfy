/** 64-bit machine words as bounded integers, with the bitwise operators the kernel applies to
    addresses and page-table entries. A shift right by k is a division by 2^k. */
module Words {
  const TWO_64: int := 0x1_0000_0000_0000_0000

  type u64 = x: int | 0 <= x < TWO_64
  type u8 = x: int | 0 <= x < 256

  /** Bitwise and, one binary digit at a time. */
  function And(x: nat, y: nat): (r: nat)
    ensures r <= x && r <= y
  {
    if x == 0 || y == 0 then 0
    else (if x % 2 == 1 && y % 2 == 1 then 1 else 0) + 2 * And(x / 2, y / 2)
  }

  /** Bitwise or, one binary digit at a time. */
  function Or(x: nat, y: nat): (r: nat)
    ensures r <= x + y
  {
    if x == 0 then y
    else if y == 0 then x
    else (if x % 2 == 1 || y % 2 == 1 then 1 else 0) + 2 * Or(x / 2, y / 2)
  }

  /** Shift left, without a width limit. */
  function Shl(x: nat, k: nat): (r: nat)
    ensures x <= r
  {
    if k == 0 then x else 2 * Shl(x, k - 1)
  }

  /** Shift right. */
  function Shr(n: nat, k: nat): nat
  {
    if k == 0 then n else Shr(n, k - 1) / 2
  }

  /** Bitwise complement of a 64-bit word. */
  function Not(x: u64): (r: u64)
  {
    TWO_64 - 1 - x
  }

  /** Binary digit k of x, the independent reading that the bitwise operators are proved against. */
  predicate Bit(x: nat, k: nat)
  {
    if k == 0 then x % 2 == 1 else Bit(x / 2, k - 1)
  }

  lemma {:induction false} BitOfAnd(x: nat, y: nat, k: nat)
    ensures Bit(And(x, y), k) <==> Bit(x, k) && Bit(y, k)
  {
    if x == 0 || y == 0 {
      NoBitInZero(k);
    } else if k > 0 {
      BitOfAnd(x / 2, y / 2, k - 1);
    }
  }

  lemma {:induction false} BitOfOr(x: nat, y: nat, k: nat)
    ensures Bit(Or(x, y), k) <==> Bit(x, k) || Bit(y, k)
  {
    if x == 0 || y == 0 {
      NoBitInZero(k);
    } else if k > 0 {
      BitOfOr(x / 2, y / 2, k - 1);
    }
  }

  lemma {:induction false} BitOfComplement(x: nat, k: nat, n: nat)
    requires x < Shl(1, n) && k < n
    ensures Bit(Shl(1, n) - 1 - x, k) <==> !Bit(x, k)
  {
    if k > 0 {
      BitOfComplement(x / 2, k - 1, n - 1);
    }
  }

  lemma BitOfNot(x: u64, k: nat)
    requires k < 64
    ensures Bit(Not(x), k) <==> !Bit(x, k)
  {
    ShlBySixtyFour();
    BitOfComplement(x, k, 64);
  }

  lemma {:induction false} BitOfOneShifted(j: nat, k: nat)
    ensures Bit(Shl(1, j), k) <==> j == k
  {
    if j == 0 && k > 0 {
      NoBitInZero(k - 1);
    } else if j > 0 && k > 0 {
      BitOfOneShifted(j - 1, k - 1);
    }
  }

  lemma {:induction false} NoBitInZero(k: nat)
    ensures !Bit(0, k)
  {
    if k > 0 {
      NoBitInZero(k - 1);
    }
  }

  /** Masking with a single bit is nonzero exactly when that bit is set. */
  lemma {:induction false} AndOneShifted(x: nat, j: nat)
    ensures And(x, Shl(1, j)) != 0 <==> Bit(x, j)
  {
    if x == 0 {
      NoBitInZero(j);
    } else if j > 0 {
      AndOneShifted(x / 2, j - 1);
    } else {
      assert And(x / 2, 0) == 0;
    }
  }

  lemma {:induction false} ShlMonotone(j: nat, k: nat)
    requires j <= k
    ensures Shl(1, j) <= Shl(1, k)
  {
    if j < k {
      ShlMonotone(j, k - 1);
    }
  }

  lemma {:induction false} OrStaysBelow(x: nat, y: nat, n: nat)
    requires x < Shl(1, n) && y < Shl(1, n)
    ensures Or(x, y) < Shl(1, n)
  {
    if n > 0 && x != 0 && y != 0 {
      OrStaysBelow(x / 2, y / 2, n - 1);
    }
  }

  /** A 64-bit word or of a 64-bit word is a 64-bit word again, as is a single shifted bit. */
  lemma OneShiftedFits(j: nat)
    requires j < 64
    ensures Shl(1, j) < TWO_64
  {
    ShlMonotone(j, 63);
    ShlBySixtyFour();
  }

  lemma OrFits(x: u64, y: u64)
    ensures Or(x, y) < TWO_64
  {
    ShlBySixtyFour();
    OrStaysBelow(x, y, 64);
  }

  /** Masking with n ones keeps the low n bits: r is what is left below 2^n. */
  lemma {:induction false} AndOnes(q: nat, r: nat, n: nat)
    requires r < Shl(1, n)
    ensures And(Shl(q, n) + r, Shl(1, n) - 1) == r
  {
    hide And;
    if n > 0 {
      AndOnes(q, r / 2, n - 1);
      var a, b := Shl(q, n - 1), Shl(1, n - 1);
      assert Shl(q, n) == 2 * a && Shl(1, n) == 2 * b;
      AndOdd(a, r, b - 1);
    } else {
      AndZero(Shl(q, 0) + r);
    }
  }

  lemma AndZero(x: nat)
    ensures And(x, 0) == 0 && And(0, x) == 0
  {
  }

  /** An odd mask keeps the lowest digit and acts on the digits above it. */
  lemma AndOdd(a: nat, r: nat, b: nat)
    ensures And(2 * a + r, 2 * b + 1) == r % 2 + 2 * And(a + r / 2, b)
  {
    assert (2 * a + r) / 2 == a + r / 2 && (2 * a + r) % 2 == r % 2;
    assert (2 * b + 1) / 2 == b;
    AndZero(b);
    AndZero(a + r / 2);
  }

  /** A mask shifted left by k ignores the low k bits and acts on the rest in place. */
  lemma {:induction false} AndShifted(f: nat, m: nat, low: nat, k: nat)
    requires low < Shl(1, k)
    ensures And(Shl(f, k) + low, Shl(m, k)) == Shl(And(f, m), k)
  {
    hide And;
    if k > 0 {
      AndShifted(f, m, low / 2, k - 1);
      var a, b := Shl(f, k - 1), Shl(m, k - 1);
      assert Shl(f, k) == 2 * a && Shl(m, k) == 2 * b;
      AndEven(a, low, b);
    }
  }

  /** An even mask acts on the digits above the lowest. */
  lemma AndEven(a: nat, low: nat, b: nat)
    ensures And(2 * a + low, 2 * b) == 2 * And(a + low / 2, b)
  {
    assert (2 * a + low) / 2 == a + low / 2;
    AndZero(b);
    AndZero(a + low / 2);
  }

  /** Oring a value below 2^k into a multiple of 2^k adds it. */
  lemma {:induction false} OrBelow(a: nat, y: nat, k: nat)
    requires y < Shl(1, k)
    ensures Or(Shl(a, k), y) == Shl(a, k) + y
  {
    if k > 0 {
      OrBelow(a, y / 2, k - 1);
    }
  }

  /** Oring flags in one after the other is oring in their union. */
  lemma {:induction false} OrAssociates(x: nat, y: nat, z: nat)
    ensures Or(Or(x, y), z) == Or(x, Or(y, z))
  {
    if x != 0 && y != 0 && z != 0 {
      OrAssociates(x / 2, y / 2, z / 2);
      OrDigits(x, y);
      OrDigits(y, z);
      OrDigits(Or(x, y), z);
      OrDigits(x, Or(y, z));
    }
  }

  /** The low digit of x | y, and the digits above it. */
  lemma OrDigits(x: nat, y: nat)
    ensures Or(x, y) % 2 == (if x % 2 == 1 || y % 2 == 1 then 1 else 0)
    ensures Or(x, y) / 2 == Or(x / 2, y / 2)
  {
  }

  /** Oring bit 0 in makes the value odd and changes nothing above. */
  lemma OrOne(x: nat)
    ensures Or(x, 1) == x - x % 2 + 1
  {
    assert Or(x / 2, 0) == x / 2;
  }

  lemma {:induction false} ShlSplits(x: nat, j: nat, k: nat)
    ensures Shl(x, j + k) == Shl(Shl(x, j), k)
  {
    if k > 0 {
      ShlSplits(x, j, k - 1);
    }
  }

  lemma ShlByTwelve(x: nat)
    ensures Shl(x, 12) == 4096 * x
  {
    ShlSplits(x, 3, 3);
    ShlSplits(x, 6, 3);
    ShlSplits(x, 9, 3);
    ShlByThree(x);
    ShlByThree(8 * x);
    ShlByThree(64 * x);
    ShlByThree(512 * x);
  }

  lemma ShlByThree(x: nat)
    ensures Shl(x, 3) == 8 * x
  {
    assert Shl(x, 1) == 2 * x;
  }

  /** x & 0x1FF, the nine-bit index of one paging level. */
  lemma AndNineOnes(x: nat)
    ensures And(x, 0x1FF) == x % 512
  {
    forall y: nat ensures Shl(y, 9) == 512 * y {
      ShlSplits(y, 3, 3);
      ShlSplits(y, 6, 3);
      ShlByThree(y);
      ShlByThree(8 * y);
      ShlByThree(64 * y);
    }
    AndOnes(x / 512, x % 512, 9);
  }

  lemma ShlByForty(x: nat)
    ensures Shl(x, 40) == 0x100_0000_0000 * x
  {
    ShlSplits(x, 12, 12);
    ShlSplits(x, 24, 12);
    ShlSplits(x, 36, 3);
    ShlByTwelve(x);
    ShlByTwelve(0x1000 * x);
    ShlByTwelve(0x100_0000 * x);
    ShlByThree(0x10_0000_0000 * x);
    assert Shl(x, 40) == 2 * Shl(x, 39);
  }

  lemma ShlBySixtyFour()
    ensures Shl(1, 64) == TWO_64
    ensures Shl(1, 63) == TWO_64 / 2
  {
    ShlByForty(1);
    ShlSplits(1, 40, 12);
    ShlByTwelve(0x100_0000_0000);
    ShlSplits(1, 52, 12);
    ShlByTwelve(0x10_0000_0000_0000);
    assert Shl(1, 64) == 2 * Shl(1, 63);
  }

  lemma AndFortyOnes(f: nat)
    ensures And(f, 0xFF_FFFF_FFFF) == f % 0x100_0000_0000
  {
    var q, r := f / 0x100_0000_0000, f % 0x100_0000_0000;
    hide And;
    ShlByForty(q);
    ShlByForty(1);
    AndOnes(q, r, 40);
  }

  /** x & 0x000FFFFFFFFFF000, the physical frame address of a page-table entry. */
  lemma AndFrameMask(x: nat)
    ensures And(x, 0x000F_FFFF_FFFF_F000) == x / 4096 % 0x100_0000_0000 * 4096
  {
    var f := x / 4096;
    hide And;
    AndFortyOnes(f);
    ShlByTwelve(1);
    ShlByTwelve(f);
    ShlByTwelve(f % 0x100_0000_0000);
    ShlByTwelve(0xFF_FFFF_FFFF);
    hide Shl;
    AndShifted(f, 0xFF_FFFF_FFFF, x % 4096, 12);
  }

  /** f | y for a page-aligned f and flags y below the page size. */
  lemma OrFlags(f: nat, y: nat)
    requires y < 4096
    ensures Or(f * 4096, y) == f * 4096 + y
  {
    ShlByTwelve(1);
    ShlByTwelve(f);
    OrBelow(f, y, 12);
  }
}
