/**
 The buddy page allocator of kernel/mm.c: eleven free lists, one bit per pair of buddies, a counter.

 The ghost field free is the set of free pages.  Valid() says that lists, bits and counter are the
 function of free that BuddyState describes; each operation says how free changes.
 */
module Buddy {
  import opened Dyadic
  import opened Links
  import opened BuddyState
  import opened Machine
  import opened Sequences
  import opened Words

  datatype PageResult = NoPage | Page(idx: nat)

  /** BUG_MSG stops the machine; Wild is a read behind the array of free areas. */
  datatype Allocation = Stopped | Wild | Granted(idx: nat)

  /** An aligned run of 2^order pages is free. */
  ghost predicate CanServe(free: set<nat>, order: nat) {
    order < MAX_ORDER && exists j: nat :: Whole(free, order, j)
  }

  lemma FlipBitOfBlock(j: nat, k: nat)
    ensures FlipBit(Shl(j, k), k) == Shl(BuddyOf(j), k)
  {
    ShrOfShl(j, k);
    ShlUnit(k);
    if j % 2 == 0 { ShlAdd(j, 1, k); } else { ShlAdd(j - 1, 1, k); }
  }

  lemma ClearLowOfBlock(j: nat, k: nat)
    ensures ClearLow(Shl(j, k), k + 1) == Shl(j / 2, k + 1)
  {
    ShrOfShl(j, k);
    ShrStep(Shl(j, k), k);
  }

  /** What free_pages keeps in its variables about block j of order k. */
  predicate At(pageIdx: nat, bitmapIdx: nat, mask: int, k: nat, j: nat) {
    k < MAX_ORDER && pageIdx == Shl(j, k) && bitmapIdx == j / 2 && mask == WORD - Pow2(k)
  }

  /** page_idx ^ -mask is the first page of the block's buddy. */
  lemma BuddyAt(pageIdx: nat, bitmapIdx: nat, mask: int, k: nat, j: nat)
    requires At(pageIdx, bitmapIdx, mask, k, j)
    ensures Xor(pageIdx, Sub32(0, mask)) == Shl(BuddyOf(j), k)
  {
    Pow2Small(k);
    FlipBitOfBlock(j, k);
    BuddyByXor(pageIdx, mask, k);
  }

  lemma AtParent(pageIdx: nat, bitmapIdx: nat, mask: int, k: nat, j: nat)
    requires At(pageIdx, bitmapIdx, mask, k, j) && k < MAX_ORDER - 1 && pageIdx < WORD
    ensures At(And(pageIdx, mask * 2 % WORD), bitmapIdx / 2, mask * 2 % WORD, k + 1, j / 2)
    ensures And(pageIdx, mask * 2 % WORD) <= pageIdx
  {
    ClearLowOfBlock(j, k);
    Pow2Small(k + 1);
    BlockByAnd(pageIdx, mask * 2 % WORD, k + 1);
    ShlMono(2 * (j / 2), j, k);
    ShlStep(j / 2, k);
  }

  /** The pages from a up to, and without, b. */
  ghost function Range(a: nat, b: nat): (r: set<nat>)
    ensures forall p :: p in r <==> a <= p < b
  {
    if a >= b then {} else Range(a, b - 1) + {b - 1}
  }

  /** What one turn of the loop of free_pages does to the lists: the buddy of block j goes off list k, or there is none. */
  ghost predicate Merged(lists: seq<seq<nat>>, k: nat, j: nat, merged: bool, lists': seq<seq<nat>>) {
    && |lists| == |lists'| == MAX_ORDER && k < MAX_ORDER
    && if merged then BuddyOff(lists[k], LinkOf(Shl(BuddyOf(j), k)), lists'[k]) && lists' == lists[k := lists'[k]]
       else lists' == lists
  }

  /** The first block left list k, and no list else changed but those from `order` up to k. */
  ghost predicate FirstGone(lists: seq<seq<nat>>, order: nat, k: nat, lists': seq<seq<nat>>) {
    && |lists| == |lists'| == MAX_ORDER && k < MAX_ORDER && lists[k] != [] && lists'[k] == Without(lists[k], 0)
    && forall c :: 0 <= c < MAX_ORDER && !(order <= c <= k) ==> lists'[c] == lists[c]
  }

  class PageAllocator {
    const pageCount: nat
    const links: LinkTable
    const bits: array<bv8>
    var freePageCount: nat
    ghost var free: set<nat>

    ghost predicate Parts()
      reads this, links
    {
      && 0 < pageCount <= 0x10_0000
      && links.heads == MAX_ORDER && links.next.Length == LinkOf(pageCount)
      && bits.Length == MapStart(pageCount, MAX_ORDER)
      && links.next != links.prev && bits as object != links.next && bits as object != links.prev
    }

    ghost predicate Valid()
      reads this, links, links.next, links.prev, bits
    {
      && Parts() && links.Valid()
      && (forall p :: p in free ==> p < pageCount)
      && freePageCount == |free|
      && ListsOk(links.lists, free)
      && BitsOk(bits[..], pageCount, free)
    }

    ghost function Repr(): set<object>
      reads this, links
    {
      {this, links, links.next, links.prev, bits}
    }

    /** change_bit */
    method ChangeBit(k: nat, i: nat)
      requires Parts() && k < MAX_ORDER && PairInRange(pageCount, k, i)
      modifies bits
      ensures bits[..] == Flipped(old(bits[..]), pageCount, k, i)
    {
      PairFits(pageCount, k, i);
      MapStartMono(pageCount, k + 1, MAX_ORDER);
      var at := MapStart(pageCount, k) + i / 8;
      bits[at] := FlipBitOfByte(bits[at], i % 8);
    }

    /** change_and_test_bit: flips the bit, and reports whether it was clear. */
    method ChangeAndTestBit(k: nat, i: nat) returns (wasClear: bool)
      requires Parts() && k < MAX_ORDER && PairInRange(pageCount, k, i)
      modifies bits
      ensures bits[..] == Flipped(old(bits[..]), pageCount, k, i)
      ensures wasClear <==> !PairBit(old(bits[..]), pageCount, k, i)
    {
      PairFits(pageCount, k, i);
      MapStartMono(pageCount, k + 1, MAX_ORDER);
      var at := MapStart(pageCount, k) + i / 8;
      wasClear := !BitOfByte(bits[at], i % 8);
      ghost var was := bits[..];
      bits[at] := FlipBitOfByte(bits[at], i % 8);
      assert bits[..] == was[at := FlipBitOfByte(was[at], i % 8)];
    }

    /** buddy_system_init, with the pages from firstFree on handed to free_pages one by one. */
    constructor (pageCount: nat, firstFree: nat)
      requires 0 < pageCount <= 0x10_0000
      ensures Valid() && fresh(Repr())
      ensures this.pageCount == pageCount
      ensures free == Range(firstFree, pageCount)
    {
      this.pageCount := pageCount;
      links := new LinkTable(MAX_ORDER, MAX_ORDER + pageCount);
      bits := new bv8[MapStart(pageCount, MAX_ORDER)](_ => 0);
      freePageCount := 0;
      free := {};
      new;
      EmptyOk(bits[..], pageCount);
      var idx := firstFree;
      while idx < pageCount
        invariant Valid()
        invariant firstFree <= idx && (firstFree <= pageCount ==> idx <= pageCount)
        invariant free == Range(firstFree, idx)
      {
        FreeOne(firstFree, idx);
        idx := idx + 1;
      }
    }

    /** One turn of the loop of buddy_system_init. */
    method FreeOne(ghost firstFree: nat, idx: nat)
      requires Valid() && firstFree <= idx < pageCount && free == Range(firstFree, idx)
      modifies this`freePageCount, this`free, links`lists, links.next, links.prev, bits
      ensures Valid() && free == Range(firstFree, idx + 1)
    {
      PagesMember(0, idx);
      assert Pages(0, idx) == {idx};
      FreePages(idx, 0);
    }

    /**
     One turn of the loop of free_pages: flip the pair's bit and, when it was set, take the buddy off
     its list.
     */
    method MergeBuddy(pageIdx: nat, bitmapIdx: nat, mask: int, k: nat, ghost g: set<nat>, ghost target: set<nat>, ghost j: nat)
      returns (merged: bool)
      requires Parts() && links.Valid() && k < MAX_ORDER - 1
      requires At(pageIdx, bitmapIdx, mask, k, j)
      requires Pending(links.lists, bits[..], pageCount, g, target, k, j)
      modifies links`lists, links.next, links.prev, bits
      ensures links.Valid()
      ensures !merged ==> ListsOk(links.lists, g) && Adds(g, target, k, j) && BitsOk(bits[..], pageCount, target)
      ensures merged ==> Pending(links.lists, bits[..], pageCount, g - Pages(k, BuddyOf(j)), target, k + 1, j / 2)
      ensures Merged(old(links.lists), k, j, merged, links.lists)
    {
      ghost var lists, was := links.lists, bits[..];
      PendingPair(lists, was, pageCount, g, target, k, j);
      var noBuddy := ChangeAndTestBit(k, bitmapIdx);
      if noBuddy {
        PendingStops(lists, was, pageCount, g, target, k, j);
        return false;
      }
      PendingMerges(lists, was, pageCount, g, target, k, j);
      BuddyAt(pageIdx, bitmapIdx, mask, k, j);
      var buddy := Xor(pageIdx, Sub32(0, mask));
      ghost var i :| 0 <= i < |lists[k]| && lists[k][i] == LinkOf(buddy);
      ListRemoveStep(lists, g - Pages(k, BuddyOf(j)), g, k, BuddyOf(j), i);
      links.Remove(LinkOf(buddy), k, i);
      merged := true;
    }

    /** What the loop of free_pages keeps: a block that may still have a buddy to merge with, or has none. */
    ghost predicate Merging(merging: bool, pageIdx: nat, bitmapIdx: nat, mask: int, k: nat, g: set<nat>, target: set<nat>, j: nat)
      reads this, links, links.next, links.prev, bits
    {
      && Parts() && links.Valid() && k < MAX_ORDER && At(pageIdx, bitmapIdx, mask, k, j) && pageIdx < pageCount
      && if merging then Pending(links.lists, bits[..], pageCount, g, target, k, j)
         else ListsOk(links.lists, g) && Adds(g, target, k, j) && BitsOk(bits[..], pageCount, target)
    }

    /** One turn of the loop of free_pages. */
    method MergeTurn(pageIdx: nat, bitmapIdx: nat, mask: int, k: nat, ghost g: set<nat>, ghost target: set<nat>, ghost j: nat)
      returns (merging: bool, pageIdx': nat, bitmapIdx': nat, mask': int, ghost g': set<nat>, ghost j': nat)
      requires k < MAX_ORDER - 1 && Merging(true, pageIdx, bitmapIdx, mask, k, g, target, j)
      modifies links`lists, links.next, links.prev, bits
      ensures Merging(merging, pageIdx', bitmapIdx', mask', if merging then k + 1 else k, g', target, j')
      ensures Merged(old(links.lists), k, j, merging, links.lists) && j' == if merging then j / 2 else j
    {
      pageIdx', bitmapIdx', mask', g', j' := pageIdx, bitmapIdx, mask, g, j;
      merging := MergeBuddy(pageIdx, bitmapIdx, mask, k, g, target, j);
      if merging {
        AtParent(pageIdx, bitmapIdx, mask, k, j);
        g', j' := g - Pages(k, BuddyOf(j)), j / 2;
        bitmapIdx' := bitmapIdx / 2;
        mask' := mask * 2 % WORD;
        pageIdx' := And(pageIdx, mask');
      }
    }

    /** The loop of free_pages. */
    method Coalesce(page: nat, order: nat, ghost target: set<nat>)
      returns (pageIdx: nat, k: nat, ghost g: set<nat>, ghost j: nat)
      requires Parts() && links.Valid() && order < MAX_ORDER && page == Shl(Shr(page, order), order)
      requires Pending(links.lists, bits[..], pageCount, free, target, order, Shr(page, order))
      modifies links`lists, links.next, links.prev, bits
      ensures links.Valid() && order <= k < MAX_ORDER && pageIdx == Shl(j, k) < pageCount && j == Shr(page, k)
      ensures ListsOk(links.lists, g) && Adds(g, target, k, j) && BitsOk(bits[..], pageCount, target)
      ensures Climbed(old(links.lists), page, order, k, links.lists)
    {
      pageIdx, k := page, order;
      var bitmapIdx := Shr(page, 1 + order);
      var mask := WORD - Pow2(order);
      g, j := free, Shr(page, order);
      ghost var lists := links.lists;
      ShrStep(page, order);
      var merging := true;
      while merging && k < MAX_ORDER - 1
        invariant Merging(merging, pageIdx, bitmapIdx, mask, k, g, target, j)
        invariant order <= k && j == Shr(page, k) && Climbed(lists, page, order, k, links.lists)
        decreases MAX_ORDER - k, merging
      {
        ghost var was := links.lists;
        merging, pageIdx, bitmapIdx, mask, g, j := MergeTurn(pageIdx, bitmapIdx, mask, k, g, target, j);
        ClimbsOn(lists, page, order, k, was, links.lists, merging);
        k := if merging then k + 1 else k;
      }
      if merging { TopBitStep(bits[..], pageCount, g, target, j); }
    }

    /** The last step of free_pages: the merged block goes on the list of its order. */
    method ListBlock(pageIdx: nat, k: nat, ghost g: set<nat>, ghost target: set<nat>, ghost j: nat)
      requires Parts() && links.Valid() && pageIdx == Shl(j, k) < pageCount
      requires ListsOk(links.lists, g) && Adds(g, target, k, j)
      modifies links`lists, links.next, links.prev
      ensures links.Valid() && ListsOk(links.lists, target)
      ensures links.lists == old(links.lists)[k := Inserted(old(links.lists)[k], 0, LinkOf(pageIdx))]
    {
      PendingLands(links.lists, g, target, k, j);
      links.InsertAfter(LinkOf(pageIdx), k, k, 0);
    }

    /** free_pages, but for the ghost field. */
    method MergeAndList(page: nat, order: nat, ghost target: set<nat>)
      requires Parts() && links.Valid() && order < MAX_ORDER && page == Shl(Shr(page, order), order)
      requires Pending(links.lists, bits[..], pageCount, free, target, order, Shr(page, order))
      modifies this`freePageCount, links`lists, links.next, links.prev, bits
      ensures freePageCount == Sub32(old(freePageCount), WORD - Pow2(order))
      ensures links.Valid() && ListsOk(links.lists, target) && BitsOk(bits[..], pageCount, target)
      ensures LandsSomewhere(old(links.lists), page, order, links.lists)
    {
      ghost var g, j;
      var pageIdx, k;
      freePageCount := Sub32(freePageCount, WORD - Pow2(order));
      pageIdx, k, g, j := Coalesce(page, order, target);
      ghost var lists, was := old(links.lists), links.lists;
      ListBlock(pageIdx, k, g, target, j);
      assert links.lists[k := lists[k]] == was;
      assert Landed(lists, page, order, k, links.lists);
    }

    /** free_pages */
    method FreePages(page: nat, order: nat)
      requires Valid() && order < MAX_ORDER
      requires page == Shl(Shr(page, order), order)
      requires forall p :: p in Pages(order, Shr(page, order)) ==> p < pageCount && p !in free
      modifies this`freePageCount, this`free, links`lists, links.next, links.prev, bits
      ensures Valid()
      ensures free == old(free) + Pages(order, Shr(page, order))
      ensures LandsSomewhere(old(links.lists), page, order, links.lists)
    {
      ghost var target := free + Pages(order, Shr(page, order));
      FreeStarts(links.lists, bits[..], pageCount, free, order, page);
      MergeAndList(page, order, target);
      free := target;
    }

    /** One turn of expand: list the lower half of the block, and flip its pair's bit. */
    method ListLowerHalf(page: nat, k: nat, ghost g: set<nat>, ghost j: nat)
      requires Parts() && links.Valid() && k < MAX_ORDER - 1 && page == Shl(j, k + 1)
      requires Held(links.lists, bits[..], pageCount, g, k + 1, j)
      modifies links`lists, links.next, links.prev, bits
      ensures links.Valid()
      ensures Held(links.lists, bits[..], pageCount, g + Pages(k, 2 * j), k, 2 * j + 1)
      ensures links.lists == old(links.lists)[k := Inserted(old(links.lists)[k], 0, LinkOf(page))]
    {
      HeldSplits(links.lists, bits[..], pageCount, g, k, j);
      HalfAddresses(k, j);
      PendingLands(links.lists, g, g + Pages(k, 2 * j), k, 2 * j);
      links.InsertAfter(LinkOf(page), k, k, 0);
      ChangeBit(k, Shr(page, 1 + k));
    }

    /** expand: halves the block at page from order high down to order low, and keeps the last half. */
    method Expand(page: nat, low: nat, high: nat, ghost g: set<nat>, ghost j: nat)
      returns (last: nat, ghost g': set<nat>, ghost j': nat)
      requires Parts() && links.Valid() && low <= high && page == Shl(j, high)
      requires Held(links.lists, bits[..], pageCount, g, high, j)
      modifies links`lists, links.next, links.prev, bits
      ensures links.Valid() && page <= last == Shl(j', low) && Shl(j' + 1, low) == Shl(j + 1, high)
      ensures Held(links.lists, bits[..], pageCount, g', low, j')
      ensures g' + Pages(low, j') == g + Pages(high, j)
      ensures forall c :: 0 <= c < MAX_ORDER && !(low <= c < high) ==> links.lists[c] == old(links.lists)[c]
    {
      last, g', j' := page, g, j;
      var k, size := high, Pow2(high);
      while k > low
        invariant links.Valid() && low <= k <= high && size == Pow2(k)
        invariant page <= last == Shl(j', k) && Shl(j' + 1, k) == Shl(j + 1, high)
        invariant Held(links.lists, bits[..], pageCount, g', k, j')
        invariant g' + Pages(k, j') == g + Pages(high, j)
        invariant forall c :: 0 <= c < MAX_ORDER && !(k <= c < high) ==> links.lists[c] == old(links.lists)[c]
      {
        k := k - 1;
        size := size / 2;
        HalfAddresses(k, j');
        PagesHalves(k, j');
        ListLowerHalf(last, k, g', j');
        g', j' := g' + Pages(k, 2 * j'), 2 * j' + 1;
        last := last + size;
      }
    }

    /** Takes the first block off the list of order k. */
    method TakeFirst(k: nat) returns (page: nat)
      requires Valid() && k < MAX_ORDER && links.lists[k] != []
      modifies links`lists, links.next, links.prev, bits
      ensures links.Valid() && LinkOf(page) == old(links.lists[k][0])
      ensures links.lists == old(links.lists)[k := Without(old(links.lists)[k], 0)]
      ensures page == Shl(Shr(page, k), k) && Maximal(free, k, Shr(page, k))
      ensures Held(links.lists, bits[..], pageCount, free - Pages(k, Shr(page, k)), k, Shr(page, k))
    {
      HeadBlock(links.lists, free, k);
      var curr := links.First(k);
      page := curr - MAX_ORDER;
      TakeStep(links.lists, bits[..], pageCount, free, k, page);
      links.Remove(curr, k, 0);
      if k != MAX_ORDER - 1 {
        ChangeBit(k, Shr(page, 1 + k));
      }
    }

    /** The scan of _alloc_pages for a list that is not empty, from order up. */
    method FindList(order: nat) returns (k: nat, found: bool)
      requires Valid() && order < MAX_ORDER
      ensures order <= k < MAX_ORDER && NoneListed(links.lists, order, k)
      ensures found <==> links.lists[k] != []
      ensures !found ==> k == MAX_ORDER - 1
    {
      k := order;
      var curr := links.First(k);
      while curr == k && k < MAX_ORDER - 1
        invariant order <= k < MAX_ORDER && NoneListed(links.lists, order, k)
        invariant curr == k <==> links.lists[k] == []
      {
        k := k + 1;
        curr := links.First(k);
      }
      found := curr != k;
    }

    /** _alloc_pages */
    method AllocPages(order: nat) returns (r: PageResult)
      requires Valid() && order < MAX_ORDER
      modifies this`freePageCount, this`free, links`lists, links.next, links.prev, bits
      ensures Valid()
      ensures r.NoPage? ==> forall j: nat :: !Whole(old(free), order, j)
      ensures r.NoPage? ==> free == old(free) && links.lists == old(links.lists)
      ensures r.Page? ==> r.idx == Shl(Shr(r.idx, order), order) && Whole(old(free), order, Shr(r.idx, order))
      ensures r.Page? ==> free == old(free) - Pages(order, Shr(r.idx, order))
      ensures r.Page? ==> exists k: nat :: FromList(old(links.lists), r.idx, order, k) && FirstGone(old(links.lists), order, k, links.lists)
    {
      var k, found := FindList(order);
      if !found {
        forall j: nat ensures !Whole(free, order, j) { NothingWhole(links.lists, free, order, j); }
        return NoPage;
      }
      ghost var lists := links.lists;
      var page := TakeFirst(k);
      freePageCount := Sub32(freePageCount, Pow2(order));
      var last;
      ghost var g, j;
      assert FirstGone(lists, order, k, links.lists);
      last, g, j := Expand(page, order, k, free - Pages(k, Shr(page, k)), Shr(page, k));
      AllocFinishes(lists, free, order, k, page, last, g, j);
      assert FirstGone(lists, order, k, links.lists);
      BoundedSize(free, pageCount);
      free := g;
      r := Page(last);
    }

    /**
     alloc_pages.  Its guard lets order 11 pass, for which there is no free area; every other order that cannot be
     served stops the machine.
     */
    method AllocPagesOrStop(order: nat) returns (r: Allocation)
      requires Valid()
      modifies this`freePageCount, this`free, links`lists, links.next, links.prev, bits
      ensures Valid()
      ensures r.Wild? <==> order == MAX_ORDER
      ensures r.Granted? <==> CanServe(old(free), order)
      ensures !r.Granted? ==> free == old(free) && links.lists == old(links.lists)
      ensures r.Granted? ==> r.idx == Shl(Shr(r.idx, order), order) && Whole(old(free), order, Shr(r.idx, order))
      ensures r.Granted? ==> free == old(free) - Pages(order, Shr(r.idx, order))
    {
      if order > MAX_ORDER {
        return Stopped;
      }
      if order == MAX_ORDER {
        return Wild;
      }
      var p := AllocPages(order);
      r := if p.Page? then Granted(p.idx) else Stopped;
    }
  }
}
