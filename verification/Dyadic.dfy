/**
 Dyadic blocks of pages, the arithmetic behind the buddy page allocator (kernel/mm.c).

 Block j of order k is the set of the 2^k pages p with p >> k == j.  Its two halves are the
 blocks 2j and 2j+1 of order k-1, and its parent is block j/2 of order k+1.
 */
module Dyadic {

  const MAX_ORDER: nat := 11

  /** 1 << k */
  function Pow2(k: nat): (r: nat)
    ensures r > 0
  {
    if k == 0 then 1 else 2 * Pow2(k - 1)
  }

  /** p >> k */
  function Shr(p: nat, k: nat): nat {
    if k == 0 then p else Shr(p / 2, k - 1)
  }

  /** j << k */
  function Shl(j: nat, k: nat): nat {
    if k == 0 then j else 2 * Shl(j, k - 1)
  }

  /** Every page of block j of order k is in free. */
  ghost predicate Whole(free: set<nat>, k: nat, j: nat) {
    forall p: nat :: Shr(p, k) == j ==> p in free
  }

  /** Block j of order k is wholly free, and no wholly free block of a higher order contains it. */
  ghost predicate Maximal(free: set<nat>, k: nat, j: nat) {
    k < MAX_ORDER && Whole(free, k, j) && (k < MAX_ORDER - 1 ==> !Whole(free, k + 1, j / 2))
  }

  /** The pages of block j of order k. */
  ghost function Pages(k: nat, j: nat): set<nat> {
    set p: nat | p < Shl(j + 1, k) && Shr(p, k) == j
  }

  /** The other half of the parent of j. */
  function BuddyOf(j: nat): nat {
    if j % 2 == 0 then j + 1 else j - 1
  }

  lemma {:induction false} ShrStep(p: nat, k: nat)
    ensures Shr(p, k + 1) == Shr(p, k) / 2
  {
    if k > 0 { ShrStep(p / 2, k - 1); }
  }

  lemma {:induction false} ShrOfShl(j: nat, k: nat)
    ensures Shr(Shl(j, k), k) == j
  {
    if k > 0 { ShrOfShl(j, k - 1); }
  }

  lemma {:induction false} ShlAdd(j: nat, d: nat, k: nat)
    ensures Shl(j + d, k) == Shl(j, k) + Shl(d, k)
  {
    if k > 0 { ShlAdd(j, d, k - 1); }
  }

  lemma {:induction false} ShlMono(i: nat, j: nat, k: nat)
    requires i <= j
    ensures Shl(i, k) <= Shl(j, k)
  {
    if k > 0 { ShlMono(i, j, k - 1); }
  }

  lemma {:induction false} ShlUnit(k: nat)
    ensures Shl(1, k) == Pow2(k)
  {
    if k > 0 { ShlUnit(k - 1); }
  }

  lemma {:induction false} ShlStep(j: nat, k: nat)
    ensures Shl(j, k + 1) == Shl(2 * j, k)
  {
    if k > 0 { ShlStep(j, k - 1); }
  }

  /** The pages whose index shifts to j are exactly the interval that starts at j << k. */
  lemma {:induction false} ShrInterval(p: nat, k: nat, j: nat)
    ensures Shr(p, k) == j <==> Shl(j, k) <= p < Shl(j + 1, k)
  {
    if k > 0 { ShrInterval(p / 2, k - 1, j); }
  }

  lemma {:induction false} ShrMono(p: nat, q: nat, k: nat, m: nat)
    requires k <= m && Shr(p, k) == Shr(q, k)
    ensures Shr(p, m) == Shr(q, m)
    decreases m
  {
    if k < m {
      ShrMono(p, q, k, m - 1);
      ShrStep(p, m - 1);
      ShrStep(q, m - 1);
    }
  }

  lemma PagesMember(k: nat, j: nat)
    ensures forall p: nat :: p in Pages(k, j) <==> Shr(p, k) == j
  {
    forall p: nat ensures p in Pages(k, j) <==> Shr(p, k) == j {
      ShrInterval(p, k, j);
    }
  }

  lemma {:induction false} ShlIsProduct(j: nat, k: nat)
    ensures Shl(j, k) == j * Pow2(k)
  {
    if k > 0 { ShlIsProduct(j, k - 1); }
  }

  /** A block is the pages between two multiples of its size. */
  lemma PagesInterval(k: nat, j: nat)
    ensures forall p: nat :: p in Pages(k, j) <==> j * Pow2(k) <= p < j * Pow2(k) + Pow2(k)
  {
    PagesMember(k, j);
    forall p: nat ensures Shr(p, k) == j <==> j * Pow2(k) <= p < j * Pow2(k) + Pow2(k) {
      ShrInterval(p, k, j);
      ShlIsProduct(j, k);
      ShlIsProduct(j + 1, k);
    }
  }

  lemma {:induction false} PagesSize(k: nat, j: nat)
    ensures |Pages(k, j)| == Pow2(k)
  {
    PagesMember(k, j);
    if k == 0 {
      assert Pages(0, j) == {j} by { assert forall p: nat :: Shr(p, 0) == p; }
    } else {
      PagesSize(k - 1, 2 * j);
      PagesSize(k - 1, 2 * j + 1);
      PagesHalves(k - 1, j);
    }
  }

  lemma PagesHalves(k: nat, i: nat)
    ensures Pages(k + 1, i) == Pages(k, 2 * i) + Pages(k, 2 * i + 1)
    ensures Pages(k, 2 * i) !! Pages(k, 2 * i + 1)
  {
    PagesMember(k, 2 * i);
    PagesMember(k, 2 * i + 1);
    PagesMember(k + 1, i);
    forall p: nat ensures Shr(p, k + 1) == Shr(p, k) / 2 { ShrStep(p, k); }
  }

  /** A block is whole exactly when both its halves are. */
  lemma WholeSplit(free: set<nat>, k: nat, i: nat)
    ensures Whole(free, k + 1, i) <==> Whole(free, k, 2 * i) && Whole(free, k, 2 * i + 1)
  {
    forall p: nat ensures Shr(p, k + 1) == Shr(p, k) / 2 { ShrStep(p, k); }
  }

  /** A whole block below the top order lies in a maximal one. */
  lemma {:induction false} MaximalAbove(free: set<nat>, k: nat, j: nat) returns (c: nat, i: nat)
    requires k < MAX_ORDER && Whole(free, k, j)
    ensures k <= c && Maximal(free, c, i)
    ensures Shr(j, c - k) == i
    decreases MAX_ORDER - k
  {
    if k < MAX_ORDER - 1 && Whole(free, k + 1, j / 2) {
      c, i := MaximalAbove(free, k + 1, j / 2);
    } else {
      c, i := k, j;
    }
  }

  /** g with block b of order k added or taken away: the two sets agree outside that block. */
  ghost predicate Differ(g: set<nat>, h: set<nat>, k: nat, b: nat) {
    && (forall p: nat :: Shr(p, k) == b ==> p !in g && p in h)
    && (forall p: nat :: Shr(p, k) != b ==> (p in g <==> p in h))
  }

  lemma NonemptyBlock(free: set<nat>, k: nat, j: nat)
    requires forall p: nat :: Shr(p, k) == j ==> p !in free
    ensures !Whole(free, k, j)
  {
    ShrOfShl(j, k);
  }

  /** Below the merged block, wholeness changes only inside it. */
  lemma WholeSame(g: set<nat>, h: set<nat>, k: nat, b: nat, m: nat, j: nat)
    requires Differ(g, h, k, b) && m <= k
    requires forall p: nat :: Shr(p, m) == j ==> Shr(p, k) != b
    ensures Whole(g, m, j) <==> Whole(h, m, j)
  {
  }

  /** A block of order m <= k that has one page in block b of order k lies in it. */
  lemma BlockIn(k: nat, m: nat, p: nat)
    requires m <= k
    ensures forall q: nat :: Shr(q, m) == Shr(p, m) ==> Shr(q, k) == Shr(p, k)
  {
    forall q: nat | Shr(q, m) == Shr(p, m) ensures Shr(q, k) == Shr(p, k) {
      ShrMono(p, q, m, k);
    }
  }

  /** Above an order at which the buddy is not whole, adding the block changes nothing. */
  lemma WholeAbove(g: set<nat>, h: set<nat>, k: nat, b: nat, m: nat, j: nat)
    requires Differ(g, h, k, b) && k < m && !Whole(g, k, BuddyOf(b))
    ensures Whole(g, m, j) <==> Whole(h, m, j)
  {
    if Whole(h, m, j) && !Whole(g, m, j) {
      var p: nat :| Shr(p, m) == j && p !in g;
      assert Shr(p, k) == b;
      var q: nat :| Shr(q, k) == BuddyOf(b) && q !in g;
      ShrStep(p, k);
      ShrStep(q, k);
      ShrMono(p, q, k + 1, m);
    }
  }

  /** Inside the block, below its order, nothing is maximal on either side. */
  lemma MaximalInside(g: set<nat>, h: set<nat>, k: nat, b: nat, m: nat, p: nat)
    requires Differ(g, h, k, b) && m < k < MAX_ORDER && Shr(p, k) == b
    ensures !Maximal(g, m, Shr(p, m)) && !Maximal(h, m, Shr(p, m))
  {
    BlockIn(k, m + 1, p);
    ShrStep(p, m);
    assert p !in g;
    assert Whole(h, m + 1, Shr(p, m) / 2);
  }

  /** Outside it, nothing changes. */
  lemma MaximalOutside(g: set<nat>, h: set<nat>, k: nat, b: nat, m: nat, j: nat)
    requires Differ(g, h, k, b) && m < k < MAX_ORDER
    requires forall p: nat :: Shr(p, m) == j ==> Shr(p, k) != b
    ensures Maximal(g, m, j) <==> Maximal(h, m, j)
  {
    var p := Shl(j, m);
    ShrOfShl(j, m);
    ShrStep(p, m);
    BlockIn(k, m + 1, p);
    WholeSame(g, h, k, b, m, j);
    WholeSame(g, h, k, b, m + 1, j / 2);
  }

  /**
   The step every list operation of the allocator rests on: when the buddy of block b of order k is
   not whole (or k is the top order), adding the block to the free pages adds exactly that block to
   the maximal blocks, and taking it away again removes exactly that one.
   */
  lemma MaximalChange(g: set<nat>, h: set<nat>, k: nat, b: nat, m: nat, j: nat)
    requires Differ(g, h, k, b) && k < MAX_ORDER
    requires k < MAX_ORDER - 1 ==> !Whole(g, k, BuddyOf(b))
    ensures Maximal(h, m, j) <==> Maximal(g, m, j) || (m == k && j == b)
    ensures !Maximal(g, k, b)
  {
    NonemptyBlock(g, k, b);
    if m < k {
      if p: nat :| Shr(p, m) == j && Shr(p, k) == b {
        MaximalInside(g, h, k, b, m, p);
      } else {
        MaximalOutside(g, h, k, b, m, j);
      }
    } else {
      if k < MAX_ORDER - 1 {
        WholeAbove(g, h, k, b, m + 1, j / 2);
        if m > k { WholeAbove(g, h, k, b, m, j); }
      }
      if m == k {
        if j != b {
          WholeSame(g, h, k, b, m, j);
        } else if k < MAX_ORDER - 1 {
          WholeSplit(h, k, b / 2);
          WholeSame(g, h, k, b, k, BuddyOf(b));
        }
      }
    }
  }
}
