/**
 The representation of the buddy page allocator (kernel/mm.c) as a function of the set of free
 pages: what the eleven free lists and the bitmaps must hold, and how one list insertion or removal
 together with one bit flip moves them from one set of free pages to another.
 */
module BuddyState {
  import opened Dyadic
  import opened Links
  import opened Machine
  import opened Sequences
  import opened Words

  /** The link of page p: the eleven list heads come first. */
  function LinkOf(p: nat): nat {
    MAX_ORDER + p
  }

  /** Page p is the first page of a maximal free block of order k. */
  ghost predicate Heads(free: set<nat>, k: nat, p: nat) {
    p == Shl(Shr(p, k), k) && Maximal(free, k, Shr(p, k))
  }

  /** Free list k holds exactly the first pages of the maximal free blocks of order k. */
  ghost predicate ListsOk(lists: seq<seq<nat>>, free: set<nat>) {
    && |lists| == MAX_ORDER
    && (forall k, x :: 0 <= k < MAX_ORDER && x in lists[k] ==> MAX_ORDER <= x)
    && (forall k: nat, p: nat :: k < MAX_ORDER ==> (LinkOf(p) in lists[k] <==> Heads(free, k, p)))
  }

  // ------------------------------------------------------------------ bitmaps

  function LongAlign(x: nat): nat {
    (x + 3) / 4 * 4
  }

  /** The bytes buddy_system_init reserves for the bitmap of order k. */
  function MapBytes(n: nat, k: nat): nat
    requires 0 < n
  {
    LongAlign(Shr(n - 1, k + 4) + 1)
  }

  /** Where the bitmap of order k starts: they follow one another. */
  function MapStart(n: nat, k: nat): nat
    requires 0 < n
  {
    if k == 0 then 0 else MapStart(n, k - 1) + MapBytes(n, k - 1)
  }

  /** Pair i of order k has a page below n in it. */
  predicate PairInRange(n: nat, k: nat, i: nat)
    requires 0 < n
  {
    i <= Shr(n - 1, k + 1)
  }

  function BitOfByte(b: bv8, i: nat): bool
    requires i < 8
  {
    (b >> i) & 1 == 1
  }

  function FlipBitOfByte(b: bv8, i: nat): bv8
    requires i < 8
  {
    b ^ (1 << i)
  }

  lemma FlipOneBit(b: bv8, i: nat, j: nat)
    requires i < 8 && j < 8
    ensures BitOfByte(FlipBitOfByte(b, i), j) == if i == j then !BitOfByte(b, j) else BitOfByte(b, j)
  {
    assert i == 0 || i == 1 || i == 2 || i == 3 || i == 4 || i == 5 || i == 6 || i == 7;
    assert j == 0 || j == 1 || j == 2 || j == 3 || j == 4 || j == 5 || j == 6 || j == 7;
  }

  lemma {:induction false} MapStartMono(n: nat, k: nat, m: nat)
    requires 0 < n && k <= m
    ensures MapStart(n, k) <= MapStart(n, m)
    decreases m
  {
    if k < m { MapStartMono(n, k, m - 1); }
  }

  /** Every bit an in-range pair uses is inside the bytes reserved for its order. */
  lemma PairFits(n: nat, k: nat, i: nat)
    requires 0 < n && PairInRange(n, k, i)
    ensures i / 8 < MapBytes(n, k)
  {
    ShrStep(n - 1, k + 1);
    ShrStep(n - 1, k + 2);
    ShrStep(n - 1, k + 3);
  }

  /** The bit of pair i of order k. */
  ghost function PairBit(bits: seq<bv8>, n: nat, k: nat, i: nat): bool
    requires 0 < n && |bits| == MapStart(n, MAX_ORDER)
    requires k < MAX_ORDER && PairInRange(n, k, i)
  {
    PairFits(n, k, i);
    MapStartMono(n, k + 1, MAX_ORDER);
    BitOfByte(bits[MapStart(n, k) + i / 8], i % 8)
  }

  /** bits with the bit of pair i of order k flipped. */
  ghost function Flipped(bits: seq<bv8>, n: nat, k: nat, i: nat): (r: seq<bv8>)
    requires 0 < n && |bits| == MapStart(n, MAX_ORDER)
    requires k < MAX_ORDER && PairInRange(n, k, i)
    ensures |r| == |bits|
  {
    PairFits(n, k, i);
    MapStartMono(n, k + 1, MAX_ORDER);
    var at := MapStart(n, k) + i / 8;
    bits[at := FlipBitOfByte(bits[at], i % 8)]
  }

  /** The bits of different pairs are different bits. */
  lemma PairPlaces(n: nat, k: nat, i: nat, m: nat, j: nat)
    requires 0 < n && PairInRange(n, k, i) && PairInRange(n, m, j)
    requires MapStart(n, k) + i / 8 == MapStart(n, m) + j / 8
    ensures k == m && (i % 8 == j % 8 ==> i == j)
  {
    PairFits(n, k, i);
    PairFits(n, m, j);
    if m < k {
      MapStartMono(n, m + 1, k);
    } else if k < m {
      MapStartMono(n, k + 1, m);
    }
  }

  /** Flipping the bit of one pair changes no other pair's bit, of any order. */
  lemma FlipOnePair(bits: seq<bv8>, n: nat, k: nat, i: nat, m: nat, j: nat)
    requires 0 < n && |bits| == MapStart(n, MAX_ORDER)
    requires k < MAX_ORDER && PairInRange(n, k, i)
    requires m < MAX_ORDER && PairInRange(n, m, j)
    ensures PairBit(Flipped(bits, n, k, i), n, m, j)
         == if m == k && j == i then !PairBit(bits, n, m, j) else PairBit(bits, n, m, j)
  {
    PairFits(n, k, i);
    PairFits(n, m, j);
    MapStartMono(n, k + 1, MAX_ORDER);
    MapStartMono(n, m + 1, MAX_ORDER);
    if MapStart(n, k) + i / 8 == MapStart(n, m) + j / 8 {
      PairPlaces(n, k, i, m, j);
      FlipOneBit(bits[MapStart(n, k) + i / 8], i % 8, j % 8);
    }
  }

  /** A pair's bit is set exactly when one of the two buddies, and not the other, is listed. */
  ghost predicate BitsOk(bits: seq<bv8>, n: nat, free: set<nat>) {
    && 0 < n && |bits| == MapStart(n, MAX_ORDER)
    && forall k: nat, i: nat :: k < MAX_ORDER - 1 && PairInRange(n, k, i) ==>
         (PairBit(bits, n, k, i) <==> (Maximal(free, k, 2 * i) != Maximal(free, k, 2 * i + 1)))
  }

  // ------------------------------------------------------------------ one step

  /** h is g with block b of order k added, and that block does not merge with its buddy. */
  ghost predicate Adds(g: set<nat>, h: set<nat>, k: nat, b: nat) {
    k < MAX_ORDER && Differ(g, h, k, b) && (k < MAX_ORDER - 1 ==> !Whole(g, k, BuddyOf(b)))
  }

  lemma AddsHeads(g: set<nat>, h: set<nat>, k: nat, b: nat, m: nat, p: nat)
    requires Adds(g, h, k, b)
    ensures Heads(h, m, p) <==> Heads(g, m, p) || (m == k && p == Shl(b, k))
    ensures !Heads(g, k, Shl(b, k))
  {
    MaximalChange(g, h, k, b, m, Shr(p, m));
    MaximalChange(g, h, k, b, k, b);
    ShrOfShl(b, k);
  }

  lemma ListInsertStep(lists: seq<seq<nat>>, g: set<nat>, h: set<nat>, k: nat, b: nat)
    requires ListsOk(lists, g) && Adds(g, h, k, b)
    ensures ListsOk(lists[k := Inserted(lists[k], 0, LinkOf(Shl(b, k)))], h)
  {
    InsertedMembers(lists[k], 0, LinkOf(Shl(b, k)));
    forall m: nat, p: nat ensures Heads(h, m, p) <==> Heads(g, m, p) || (m == k && p == Shl(b, k)) {
      AddsHeads(g, h, k, b, m, p);
    }
  }

  lemma ListRemoveStep(lists: seq<seq<nat>>, g: set<nat>, h: set<nat>, k: nat, b: nat, i: nat)
    requires ListsOk(lists, h) && Adds(g, h, k, b)
    requires i < |lists[k]| && lists[k][i] == LinkOf(Shl(b, k)) && NoRepeats(lists[k])
    ensures ListsOk(lists[k := Without(lists[k], i)], g)
  {
    RemovedMembers(lists[k], i);
    forall m: nat, p: nat ensures Heads(g, m, p) <==> Heads(h, m, p) && !(m == k && p == Shl(b, k)) {
      AddsHeads(g, h, k, b, m, p);
    }
  }

  /** Flipping the pair's bit follows the free set in both directions. */
  lemma BitStep(bits: seq<bv8>, n: nat, g: set<nat>, h: set<nat>, k: nat, b: nat)
    requires Adds(g, h, k, b) && k < MAX_ORDER - 1
    requires 0 < n && |bits| == MapStart(n, MAX_ORDER) && PairInRange(n, k, b / 2)
    ensures BitsOk(bits, n, g) ==> BitsOk(Flipped(bits, n, k, b / 2), n, h)
    ensures BitsOk(bits, n, h) ==> BitsOk(Flipped(bits, n, k, b / 2), n, g)
  {
    MaximalChange(g, h, k, b, k, b);
    forall m: nat, i: nat | m < MAX_ORDER - 1 && PairInRange(n, m, i)
      ensures PairBit(Flipped(bits, n, k, b / 2), n, m, i)
           == if m == k && i == b / 2 then !PairBit(bits, n, m, i) else PairBit(bits, n, m, i)
      ensures (Maximal(h, m, 2 * i) != Maximal(h, m, 2 * i + 1))
           == if m == k && i == b / 2 then Maximal(g, m, 2 * i) == Maximal(g, m, 2 * i + 1)
                                      else Maximal(g, m, 2 * i) != Maximal(g, m, 2 * i + 1)
    {
      FlipOnePair(bits, n, k, b / 2, m, i);
      MaximalChange(g, h, k, b, m, 2 * i);
      MaximalChange(g, h, k, b, m, 2 * i + 1);
    }
  }

  /** The top order has no bit to flip. */
  lemma TopBitStep(bits: seq<bv8>, n: nat, g: set<nat>, h: set<nat>, b: nat)
    requires Adds(g, h, MAX_ORDER - 1, b)
    ensures BitsOk(bits, n, g) <==> BitsOk(bits, n, h)
  {
    forall m: nat, i: nat | m < MAX_ORDER - 1
      ensures Maximal(h, m, i) <==> Maximal(g, m, i)
    {
      MaximalChange(g, h, MAX_ORDER - 1, b, m, i);
    }
  }

  /** A page that is not free is on no list. */
  lemma UnlistedWhenUsed(lists: seq<seq<nat>>, free: set<nat>, p: nat)
    requires ListsOk(lists, free) && p !in free
    ensures forall k :: 0 <= k < MAX_ORDER ==> LinkOf(p) !in lists[k]
  {
  }

  lemma {:induction false} ShrLe(p: nat, q: nat, k: nat)
    requires p <= q
    ensures Shr(p, k) <= Shr(q, k)
  {
    if k > 0 { ShrLe(p / 2, q / 2, k - 1); }
  }

  /** The pair of a block with a page below n in it is in range. */
  lemma BlockInRange(n: nat, k: nat, p: nat)
    requires p < n
    ensures PairInRange(n, k, Shr(p, k) / 2)
  {
    ShrStep(p, k);
    ShrLe(p, n - 1, k + 1);
  }

  /** Merging with a whole buddy: the buddy leaves the free set, and the pending block grows to the parent. */
  lemma MergeUp(g: set<nat>, target: set<nat>, k: nat, j: nat)
    requires k < MAX_ORDER - 1 && Differ(g, target, k, j) && Whole(g, k, BuddyOf(j))
    ensures Adds(g - Pages(k, BuddyOf(j)), g, k, BuddyOf(j))
    ensures Differ(g - Pages(k, BuddyOf(j)), target, k + 1, j / 2)
  {
    var g' := g - Pages(k, BuddyOf(j));
    PagesMember(k, BuddyOf(j));
    forall p: nat ensures Shr(p, k + 1) == Shr(p, k) / 2 { ShrStep(p, k); }
    assert !Whole(g', k, j) by {
      assert forall p: nat :: Shr(p, k) == j ==> p !in g';
      NonemptyBlock(g', k, j);
    }
    assert BuddyOf(BuddyOf(j)) == j;
  }

  /** Splitting: of a block that is not free, the lower half can be added, and the upper half stays out. */
  lemma SplitDown(g: set<nat>, k: nat, j: nat)
    requires k < MAX_ORDER - 1 && (forall p: nat :: Shr(p, k + 1) == j ==> p !in g)
    ensures Adds(g, g + Pages(k, 2 * j), k, 2 * j)
    ensures forall p: nat :: Shr(p, k) == 2 * j + 1 ==> p !in g + Pages(k, 2 * j)
  {
    PagesMember(k, 2 * j);
    forall p: nat ensures Shr(p, k + 1) == Shr(p, k) / 2 { ShrStep(p, k); }
    NonemptyBlock(g, k, 2 * j + 1);
  }

  /** A pair with one half wholly used has its bit set exactly when the other half is free. */
  lemma PairTest(bits: seq<bv8>, n: nat, g: set<nat>, k: nat, j: nat)
    requires BitsOk(bits, n, g) && k < MAX_ORDER - 1 && PairInRange(n, k, j / 2)
    requires forall p: nat :: Shr(p, k) == j ==> p !in g
    ensures PairBit(bits, n, k, j / 2) <==> Whole(g, k, BuddyOf(j))
  {
    NonemptyBlock(g, k, j);
    WholeSplit(g, k, j / 2);
  }

  /** At boot nothing is free: empty lists and clear bits. */
  lemma EmptyOk(bits: seq<bv8>, n: nat)
    requires 0 < n && |bits| == MapStart(n, MAX_ORDER) && forall i :: 0 <= i < |bits| ==> bits[i] == 0
    ensures ListsOk(seq(MAX_ORDER, _ => []), {}) && BitsOk(bits, n, {})
  {
    forall k: nat, j: nat ensures !Maximal({}, k, j) { NonemptyBlock({}, k, j); }
    forall k: nat, i: nat | k < MAX_ORDER && PairInRange(n, k, i) ensures !PairBit(bits, n, k, i) {
      PairFits(n, k, i);
      MapStartMono(n, k + 1, MAX_ORDER);
      assert forall b: nat :: b < 8 ==> !BitOfByte(0, b);
    }
  }

  lemma {:induction false} BoundedSize(s: set<nat>, n: nat)
    requires forall p :: p in s ==> p < n
    ensures |s| <= n
  {
    if n > 0 {
      BoundedSize(s - {n - 1}, n - 1);
    } else {
      assert s == {};
    }
  }

  /** A whole buddy of a used block is listed. */
  lemma BuddyListed(lists: seq<seq<nat>>, g: set<nat>, k: nat, j: nat)
    requires ListsOk(lists, g) && k < MAX_ORDER - 1 && Whole(g, k, BuddyOf(j))
    requires forall p: nat :: Shr(p, k) == j ==> p !in g
    ensures LinkOf(Shl(BuddyOf(j), k)) in lists[k]
  {
    NonemptyBlock(g, k, j);
    WholeSplit(g, k, j / 2);
    ShrOfShl(BuddyOf(j), k);
    assert Heads(g, k, Shl(BuddyOf(j), k));
  }

  // ------------------------------------------------------------------ free_pages, one turn of its loop

  /**
   Lists and bits describe g, which is target without block j of order k, and all of that block is
   still to be put on a list.
   */
  ghost predicate Pending(lists: seq<seq<nat>>, bits: seq<bv8>, n: nat, g: set<nat>, target: set<nat>, k: nat, j: nat) {
    ListsOk(lists, g) && BitsOk(bits, n, g) && Differ(g, target, k, j) && k < MAX_ORDER && Shl(j, k) < n
  }

  lemma PendingPair(lists: seq<seq<nat>>, bits: seq<bv8>, n: nat, g: set<nat>, target: set<nat>, k: nat, j: nat)
    requires Pending(lists, bits, n, g, target, k, j)
    ensures PairInRange(n, k, j / 2)
  {
    ShrOfShl(j, k);
    BlockInRange(n, k, Shl(j, k));
  }

  lemma PendingStarts(lists: seq<seq<nat>>, bits: seq<bv8>, n: nat, free: set<nat>, k: nat, page: nat)
    requires ListsOk(lists, free) && BitsOk(bits, n, free) && k < MAX_ORDER && page == Shl(Shr(page, k), k)
    requires forall p :: p in Pages(k, Shr(page, k)) ==> p < n && p !in free
    ensures Pending(lists, bits, n, free, free + Pages(k, Shr(page, k)), k, Shr(page, k))
    ensures Shr(page, 1 + k) == Shr(page, k) / 2
  {
    PagesMember(k, Shr(page, k));
    ShrStep(page, k);
  }

  /** The bit was clear: the block stays at this order. */
  lemma PendingStops(lists: seq<seq<nat>>, bits: seq<bv8>, n: nat, g: set<nat>, target: set<nat>, k: nat, j: nat)
    requires Pending(lists, bits, n, g, target, k, j) && k < MAX_ORDER - 1
    requires PairInRange(n, k, j / 2) && !PairBit(bits, n, k, j / 2)
    ensures Adds(g, target, k, j) && BitsOk(Flipped(bits, n, k, j / 2), n, target)
  {
    PairTest(bits, n, g, k, j);
    BitStep(bits, n, g, target, k, j);
  }

  /** The bit was set: the buddy is whole, and without it the block is pending one order up. */
  lemma PendingGrows(n: nat, g: set<nat>, target: set<nat>, k: nat, j: nat)
    requires Differ(g, target, k, j) && k < MAX_ORDER - 1 && Shl(j, k) < n && Whole(g, k, BuddyOf(j))
    ensures Adds(g - Pages(k, BuddyOf(j)), g, k, BuddyOf(j))
    ensures Differ(g - Pages(k, BuddyOf(j)), target, k + 1, j / 2) && Shl(j / 2, k + 1) < n
  {
    MergeUp(g, target, k, j);
    ShlStep(j / 2, k);
    ShlMono(j / 2 * 2, j, k);
  }

  lemma PendingMerges(lists: seq<seq<nat>>, bits: seq<bv8>, n: nat, g: set<nat>, target: set<nat>, k: nat, j: nat)
    requires Pending(lists, bits, n, g, target, k, j) && k < MAX_ORDER - 1
    requires PairInRange(n, k, j / 2) && PairBit(bits, n, k, j / 2)
    ensures LinkOf(Shl(BuddyOf(j), k)) in lists[k]
    ensures Adds(g - Pages(k, BuddyOf(j)), g, k, BuddyOf(j))
    ensures BitsOk(Flipped(bits, n, k, j / 2), n, g - Pages(k, BuddyOf(j)))
    ensures Differ(g - Pages(k, BuddyOf(j)), target, k + 1, j / 2) && Shl(j / 2, k + 1) < n
  {
    assert Whole(g, k, BuddyOf(j)) by { PairTest(bits, n, g, k, j); }
    assert LinkOf(Shl(BuddyOf(j), k)) in lists[k] by { BuddyListed(lists, g, k, j); }
    PendingGrows(n, g, target, k, j);
    assert BuddyOf(j) / 2 == j / 2;
    BitStep(bits, n, g - Pages(k, BuddyOf(j)), g, k, BuddyOf(j));
  }

  /** The list without the link of the block's first page. */
  ghost predicate BuddyOff(l: seq<nat>, link: nat, l': seq<nat>) {
    exists i: nat :: i < |l| && l[i] == link && l' == Without(l, i)
  }

  /** The block of `page` has grown from order a to order b: below b its buddies went off their lists, and no list else changed. */
  ghost predicate Climbed(lists: seq<seq<nat>>, page: nat, a: nat, b: nat, lists': seq<seq<nat>>) {
    && |lists| == |lists'| == MAX_ORDER
    && forall c: nat :: c < MAX_ORDER ==>
                          if a <= c < b then BuddyOff(lists[c], LinkOf(Shl(BuddyOf(Shr(page, c)), c)), lists'[c])
                          else lists'[c] == lists[c]
  }

  /** One turn more or, without a buddy to merge with, not. */
  lemma ClimbsOn(lists: seq<seq<nat>>, page: nat, a: nat, b: nat, was: seq<seq<nat>>, now: seq<seq<nat>>, merged: bool)
    requires Climbed(lists, page, a, b, was) && a <= b < MAX_ORDER == |now|
    requires if merged then BuddyOff(was[b], LinkOf(Shl(BuddyOf(Shr(page, b)), b)), now[b]) && now == was[b := now[b]]
             else now == was
    ensures Climbed(lists, page, a, if merged then b + 1 else b, now)
    ensures Shr(page, b + 1) == Shr(page, b) / 2
  {
    ShrStep(page, b);
  }

  /** The block of `page` has grown from order a to order b, and is the first one on list b. */
  ghost predicate Landed(lists: seq<seq<nat>>, page: nat, a: nat, b: nat, lists': seq<seq<nat>>) {
    && |lists| == |lists'| == MAX_ORDER && a <= b < MAX_ORDER
    && Climbed(lists, page, a, b, lists'[b := lists[b]])
    && lists'[b] == Inserted(lists[b], 0, LinkOf(Shl(Shr(page, b), b)))
  }

  ghost predicate LandsSomewhere(lists: seq<seq<nat>>, page: nat, order: nat, lists': seq<seq<nat>>) {
    exists k: nat :: Landed(lists, page, order, k, lists')
  }

  /** Putting the block on the list of its order completes the representation. */
  lemma PendingLands(lists: seq<seq<nat>>, g: set<nat>, target: set<nat>, k: nat, j: nat)
    requires ListsOk(lists, g) && Adds(g, target, k, j)
    ensures forall m :: 0 <= m < MAX_ORDER ==> LinkOf(Shl(j, k)) !in lists[m]
    ensures ListsOk(lists[k := Inserted(lists[k], 0, LinkOf(Shl(j, k)))], target)
  {
    ShrOfShl(j, k);
    UnlistedWhenUsed(lists, g, Shl(j, k));
    ListInsertStep(lists, g, target, k, j);
  }

  /** free_page_count -= ~0UL << order, in 32-bit arithmetic. */
  lemma CountAdds(free: set<nat>, n: nat, k: nat, j: nat)
    requires n <= 0x10_0000 && (forall p :: p in free ==> p < n) && k < MAX_ORDER && free !! Pages(k, j)
    ensures |free + Pages(k, j)| == Sub32(|free|, WORD - Pow2(k))
  {
    PagesSize(k, j);
    Pow2Small(k);
    BoundedSize(free, n);
    assert |free + Pages(k, j)| == |free| + Pow2(k);
  }

  /** What free_pages starts from: lists and bits still without the block, and the count with it. */
  lemma FreeStarts(lists: seq<seq<nat>>, bits: seq<bv8>, n: nat, free: set<nat>, k: nat, page: nat)
    requires ListsOk(lists, free) && BitsOk(bits, n, free) && k < MAX_ORDER && page == Shl(Shr(page, k), k)
    requires n <= 0x10_0000 && forall p :: p in free ==> p < n
    requires forall p :: p in Pages(k, Shr(page, k)) ==> p < n && p !in free
    ensures Pending(lists, bits, n, free, free + Pages(k, Shr(page, k)), k, Shr(page, k))
    ensures |free + Pages(k, Shr(page, k))| == Sub32(|free|, WORD - Pow2(k))
    ensures forall p :: p in free + Pages(k, Shr(page, k)) ==> p < n
  {
    PendingStarts(lists, bits, n, free, k, page);
    CountAdds(free, n, k, Shr(page, k));
  }

  // ------------------------------------------------------------------ _alloc_pages

  /** Every list from order a up to, and without, order b is empty. */
  ghost predicate NoneListed(lists: seq<seq<nat>>, a: nat, b: nat)
    requires |lists| == MAX_ORDER
  {
    forall k :: a <= k < b && k < MAX_ORDER ==> lists[k] == []
  }

  /** Lists empty from an order on means no aligned run of that order is free. */
  lemma NothingWhole(lists: seq<seq<nat>>, free: set<nat>, a: nat, j: nat)
    requires ListsOk(lists, free) && a < MAX_ORDER && NoneListed(lists, a, MAX_ORDER)
    ensures !Whole(free, a, j)
  {
    if Whole(free, a, j) {
      var c, i := MaximalAbove(free, a, j);
      ShrOfShl(i, c);
      assert Heads(free, c, Shl(i, c));
    }
  }

  /** Taking a maximal block out of the free pages takes exactly that block off its list. */
  lemma TakeMaximal(free: set<nat>, k: nat, j: nat)
    requires Maximal(free, k, j)
    ensures Adds(free - Pages(k, j), free, k, j)
  {
    PagesMember(k, j);
    if k < MAX_ORDER - 1 {
      WholeSplit(free, k, j / 2);
      assert !Whole(free, k, BuddyOf(j));
      var p: nat :| Shr(p, k) == BuddyOf(j) && p !in free;
    }
  }

  /** The first page of a listed block. */
  lemma HeadBlock(lists: seq<seq<nat>>, free: set<nat>, k: nat)
    requires ListsOk(lists, free) && k < MAX_ORDER && lists[k] != []
    ensures MAX_ORDER <= lists[k][0]
    ensures var p := lists[k][0] - MAX_ORDER; p == Shl(Shr(p, k), k) && Maximal(free, k, Shr(p, k))
  {
    assert lists[k][0] in lists[k];
    assert LinkOf(lists[k][0] - MAX_ORDER) == lists[k][0];
  }

  /**
   The state of expand: block j of order k is held and not yet handed on; lists and bits describe
   the free pages g, which are those of target together with what lies in the block below.
   */
  ghost predicate Held(lists: seq<seq<nat>>, bits: seq<bv8>, n: nat, g: set<nat>, k: nat, j: nat) {
    && ListsOk(lists, g) && BitsOk(bits, n, g) && k < MAX_ORDER
    && (forall p: nat :: Shr(p, k) == j ==> p < n && p !in g)
  }

  /** Where the halves of a block are. */
  lemma HalfAddresses(k: nat, j: nat)
    ensures Shl(j + 1, k + 1) == Shl(2 * j + 2, k)
    ensures Shl(j, k + 1) == Shl(2 * j, k) && Shl(2 * j + 1, k) == Shl(j, k + 1) + Pow2(k)
    ensures Shr(Shl(j, k + 1), 1 + k) == j && Shr(Shl(2 * j, k), k) == 2 * j
  {
    ShlStep(j + 1, k);
    ShlStep(j, k);
    ShlAdd(2 * j, 1, k);
    ShlUnit(k);
    ShrOfShl(j, 1 + k);
    ShrOfShl(2 * j, k);
  }

  /** One turn of expand: the lower half goes on a list, the upper half is kept. */
  lemma HeldSplits(lists: seq<seq<nat>>, bits: seq<bv8>, n: nat, g: set<nat>, k: nat, j: nat)
    requires Held(lists, bits, n, g, k + 1, j)
    ensures Adds(g, g + Pages(k, 2 * j), k, 2 * j)
    ensures PairInRange(n, k, j) && Shl(2 * j, k) < n
    ensures BitsOk(Flipped(bits, n, k, j), n, g + Pages(k, 2 * j))
    ensures forall p: nat :: Shr(p, k) == 2 * j + 1 ==> p < n && p !in g + Pages(k, 2 * j)
  {
    SplitDown(g, k, j);
    var p := Shl(2 * j, k);
    HalfAddresses(k, j);
    BlockInRange(n, k, p);
    assert 2 * j / 2 == j;
    BitStep(bits, n, g, g + Pages(k, 2 * j), k, 2 * j);
    forall q: nat | Shr(q, k) == 2 * j + 1 ensures Shr(q, k + 1) == j { ShrStep(q, k); }
  }

  /** The first block of a list, taken off it and with its pair's bit flipped, is held. */
  lemma TakeStep(lists: seq<seq<nat>>, bits: seq<bv8>, n: nat, free: set<nat>, k: nat, page: nat)
    requires ListsOk(lists, free) && BitsOk(bits, n, free) && k < MAX_ORDER && lists[k] != [] && NoRepeats(lists[k])
    requires forall p :: p in free ==> p < n
    requires page == Shl(Shr(page, k), k) && LinkOf(page) == lists[k][0] && Maximal(free, k, Shr(page, k))
    ensures PairInRange(n, k, Shr(page, 1 + k))
    ensures var bits' := if k == MAX_ORDER - 1 then bits else Flipped(bits, n, k, Shr(page, 1 + k));
            Held(lists[k := Without(lists[k], 0)], bits', n, free - Pages(k, Shr(page, k)), k, Shr(page, k))
  {
    var j := Shr(page, k);
    ShrStep(page, k);
    TakeMaximal(free, k, j);
    BlockInRange(n, k, page);
    ListRemoveStep(lists, free - Pages(k, j), free, k, j, 0);
    if k == MAX_ORDER - 1 {
      TopBitStep(bits, n, free - Pages(k, j), free, j);
    } else {
      BitStep(bits, n, free - Pages(k, j), free, k, j);
    }
  }

  /**
   The block of order `order` at page is the last one inside the block that was first on list k, and k
   is the smallest sufficient order with a listed block.
   */
  ghost predicate FromList(lists: seq<seq<nat>>, page: nat, order: nat, k: nat) {
    && |lists| == MAX_ORDER && order <= k < MAX_ORDER
    && NoneListed(lists, order, k) && lists[k] != []
    && LinkOf(Shl(Shr(page, k), k)) == lists[k][0]
    && page + Pow2(order) == Shl(Shr(page, k) + 1, k)
  }

  /** What is left of a first listed block once expand has put the rest of it back. */
  lemma AllocFinishes(lists: seq<seq<nat>>, free: set<nat>, order: nat, k: nat, page: nat, last: nat, g: set<nat>, j: nat)
    requires |lists| == MAX_ORDER && order <= k < MAX_ORDER
    requires NoneListed(lists, order, k) && lists[k] != [] && LinkOf(page) == lists[k][0]
    requires page == Shl(Shr(page, k), k) && Maximal(free, k, Shr(page, k))
    requires page <= last == Shl(j, order) && Shl(j + 1, order) == Shl(Shr(page, k) + 1, k)
    requires g + Pages(order, j) == free - Pages(k, Shr(page, k)) + Pages(k, Shr(page, k))
    requires forall p: nat :: Shr(p, order) == j ==> p !in g
    ensures last == Shl(Shr(last, order), order) && Whole(free, order, Shr(last, order))
    ensures g == free - Pages(order, Shr(last, order)) && Pages(order, Shr(last, order)) <= free
    ensures FromList(lists, last, order, k)
    ensures |g| == |free| - Pow2(order)
  {
    ShrOfShl(j, order);
    PagesSize(order, j);
    assert |g + Pages(order, j)| == |g| + |Pages(order, j)|;
    PagesMember(order, j);
    PagesMember(k, Shr(page, k));
    assert Pages(k, Shr(page, k)) <= free;
    assert g + Pages(order, j) == free;
    ShlAdd(j, 1, order);
    ShlUnit(order);
    ShrInterval(last, k, Shr(page, k));
  }
}
