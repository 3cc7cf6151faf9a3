/**
 Arithmetic on 32-bit machine words, as the numbers they stand for.
 */
module Words {
  import opened Dyadic
  import opened Machine

  /** a - b in unsigned 32-bit arithmetic. */
  function Sub32(a: int, b: int): (r: nat)
    ensures 0 <= a - b < WORD ==> r == a - b
    ensures a - b < 0 <= a - b + WORD ==> r == a - b + WORD
  {
    (a - b) % WORD
  }

  lemma Pow2Small(k: nat)
    requires k < MAX_ORDER
    ensures Pow2(k) <= 1024
  {
    assert k == 0 || k == 1 || k == 2 || k == 3 || k == 4 || k == 5 || k == 6 || k == 7 || k == 8 || k == 9 || k == 10;
  }

  /** a ^ b, bit by bit. */
  function Xor(a: nat, b: nat): nat {
    if a == 0 && b == 0 then 0 else 2 * Xor(a / 2, b / 2) + (if a % 2 == b % 2 then 0 else 1)
  }

  /** a & b, bit by bit. */
  function And(a: nat, b: nat): nat {
    if a == 0 || b == 0 then 0 else 2 * And(a / 2, b / 2) + (if a % 2 == 1 && b % 2 == 1 then 1 else 0)
  }

  /** n with bit k the other way. */
  function FlipBit(n: nat, k: nat): int {
    if Shr(n, k) % 2 == 0 then n + Pow2(k) else n - Pow2(k)
  }

  /** n without its bits below k. */
  function ClearLow(n: nat, k: nat): nat {
    Shl(Shr(n, k), k)
  }

  lemma {:induction false} XorZero(a: nat)
    ensures Xor(a, 0) == a
  {
    if a > 0 { XorZero(a / 2); }
  }

  lemma XorHalves(a: nat, b: nat)
    ensures Xor(a, b) == 2 * Xor(a / 2, b / 2) + (if a % 2 == b % 2 then 0 else 1)
  {
  }

  lemma FlipUpper(n: nat, k: nat)
    requires k > 0
    ensures FlipBit(n, k) == 2 * FlipBit(n / 2, k - 1) + n % 2
  {
  }

  lemma FlipLowest(n: nat)
    ensures FlipBit(n, 0) == 2 * (n / 2) + (if n % 2 == 1 then 0 else 1)
  {
  }

  lemma {:induction false} XorBit(n: nat, k: nat)
    ensures Xor(n, Pow2(k)) == FlipBit(n, k)
  {
    XorHalves(n, Pow2(k));
    if k == 0 {
      XorZero(n / 2);
      FlipLowest(n);
    } else {
      XorBit(n / 2, k - 1);
      FlipUpper(n, k);
    }
  }

  /** A mask of w ones keeps every number below 2^w. */
  lemma {:induction false} AndOnes(n: nat, w: nat)
    requires n < Pow2(w)
    ensures And(n, Pow2(w) - 1) == n
  {
    if w > 0 && n > 0 { AndOnes(n / 2, w - 1); }
  }

  lemma {:induction false} AndMask(n: nat, k: nat, w: nat)
    requires n < Pow2(w) && k <= w
    ensures Pow2(k) <= Pow2(w) && And(n, Pow2(w) - Pow2(k)) == ClearLow(n, k)
  {
    if k == 0 {
      AndOnes(n, w);
    } else {
      AndMask(n / 2, k - 1, w - 1);
    }
  }

  lemma WordIsPow2()
    ensures Pow2(32) == WORD
  {
    assert Pow2(8) == 256;
    assert Pow2(16) == 0x1_0000;
    assert Pow2(24) == 0x100_0000;
  }

  /** With mask = ~0UL << k, page_idx ^ -mask is page_idx with bit k the other way: the first page of the buddy. */
  lemma BuddyByXor(pageIdx: nat, mask: nat, k: nat)
    requires k < MAX_ORDER && mask == WORD - Pow2(k)
    ensures Xor(pageIdx, Sub32(0, mask)) == FlipBit(pageIdx, k)
  {
    Pow2Small(k);
    XorBit(pageIdx, k);
  }

  /** page_idx & mask is page_idx without its bits below k: the first page of its block of order k. */
  lemma BlockByAnd(pageIdx: nat, mask: nat, k: nat)
    requires pageIdx < WORD && k < MAX_ORDER && mask == WORD - Pow2(k)
    ensures And(pageIdx, mask) == ClearLow(pageIdx, k)
  {
    WordIsPow2();
    AndMask(pageIdx, k, 32);
  }
}
