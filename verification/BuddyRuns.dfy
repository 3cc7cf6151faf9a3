/**
 What the buddy allocator keeps over whole runs, and what its lists, bits and counter say together.
 */
module BuddyRuns {
  import opened Dyadic
  import opened Links
  import opened BuddyState
  import opened Buddy
  import opened Sequences

  // ------------------------------------------------------------------ the representation is determined

  /** Two representations of the same free pages have the same blocks on every list and the same bits. */
  lemma Determined(l: seq<seq<nat>>, m: seq<seq<nat>>, a: seq<bv8>, b: seq<bv8>, n: nat, free: set<nat>)
    requires ListsOk(l, free) && ListsOk(m, free) && BitsOk(a, n, free) && BitsOk(b, n, free)
    ensures forall k: nat, x :: k < MAX_ORDER ==> (x in l[k] <==> x in m[k])
    ensures forall k: nat, i: nat :: k < MAX_ORDER - 1 && PairInRange(n, k, i) ==> PairBit(a, n, k, i) == PairBit(b, n, k, i)
  {
    SameListed(l, m, free);
  }

  lemma SameListed(l: seq<seq<nat>>, m: seq<seq<nat>>, free: set<nat>)
    requires ListsOk(l, free) && ListsOk(m, free)
    ensures forall k: nat, x :: k < MAX_ORDER ==> (x in l[k] <==> x in m[k])
  {
    forall k: nat, x | k < MAX_ORDER && (x in l[k] || x in m[k]) ensures x in l[k] <==> x in m[k] {
      assert x == LinkOf(x - MAX_ORDER);
    }
  }

  lemma HeadOfBlock(free: set<nat>, k: nat, j: nat)
    ensures Heads(free, k, Shl(j, k)) <==> Maximal(free, k, j)
  {
    ShrOfShl(j, k);
  }

  /** The bit of a pair is set exactly when one of the two buddies is listed; never are both. */
  lemma BitMeansOneListed(lists: seq<seq<nat>>, bits: seq<bv8>, n: nat, free: set<nat>, k: nat, i: nat)
    requires ListsOk(lists, free) && BitsOk(bits, n, free) && k < MAX_ORDER - 1 && PairInRange(n, k, i)
    ensures PairBit(bits, n, k, i) <==> (LinkOf(Shl(2 * i, k)) in lists[k]) != (LinkOf(Shl(2 * i + 1, k)) in lists[k])
    ensures !(LinkOf(Shl(2 * i, k)) in lists[k] && LinkOf(Shl(2 * i + 1, k)) in lists[k])
  {
    HeadOfBlock(free, k, 2 * i);
    HeadOfBlock(free, k, 2 * i + 1);
    if Maximal(free, k, 2 * i) && Maximal(free, k, 2 * i + 1) {
      WholeSplit(free, k, i);
    }
  }

  /** Two listed blocks that share a page are the same block. */
  lemma ListedDisjoint(lists: seq<seq<nat>>, free: set<nat>, k: nat, p: nat, m: nat, q: nat, x: nat)
    requires ListsOk(lists, free) && k <= m < MAX_ORDER
    requires LinkOf(p) in lists[k] && LinkOf(q) in lists[m]
    requires x in Pages(k, Shr(p, k)) && x in Pages(m, Shr(q, m))
    ensures k == m && p == q
  {
    PagesMember(k, Shr(p, k));
    PagesMember(m, Shr(q, m));
    assert Heads(free, k, p) && Heads(free, m, q);
    if k < m {
      ShrStep(x, k);
      BlockIn(m, k + 1, x);
    }
  }

  /** The pages the lists account for: every block on list k counts 2^k. */
  ghost function Weight(lists: seq<seq<nat>>, k: nat): nat
    requires k <= |lists|
  {
    if k == 0 then 0 else Weight(lists, k - 1) + |lists[k - 1]| * Pow2(k - 1)
  }

  lemma {:induction false} WeightRemove(lists: seq<seq<nat>>, c: nat, i: nat, k: nat)
    requires c < |lists| && i < |lists[c]| && k <= |lists|
    ensures Weight(lists, k) == Weight(lists[c := Without(lists[c], i)], k) + if c < k then Pow2(c) else 0
  {
    if k > 0 {
      WeightRemove(lists, c, i, k - 1);
      if c == k - 1 {
        assert |lists[c]| * Pow2(c) == (|lists[c]| - 1) * Pow2(c) + Pow2(c);
      }
    }
  }

  lemma {:induction false} WeightEmpty(lists: seq<seq<nat>>, k: nat)
    requires k <= |lists| && forall c :: 0 <= c < |lists| ==> lists[c] == []
    ensures Weight(lists, k) == 0
  {
    if k > 0 { WeightEmpty(lists, k - 1); }
  }

  /** The sizes of the listed blocks add up to the number of free pages. */
  lemma {:induction false} ListsWeighFree(lists: seq<seq<nat>>, free: set<nat>)
    requires ListsOk(lists, free) && forall k :: 0 <= k < MAX_ORDER ==> NoRepeats(lists[k])
    ensures Weight(lists, MAX_ORDER) == |free|
    decreases |free|
  {
    if free == {} {
      forall k: nat, j: nat ensures !Maximal(free, k, j) { NonemptyBlock(free, k, j); }
      forall k | 0 <= k < MAX_ORDER ensures lists[k] == [] {
        if lists[k] != [] { HeadBlock(lists, free, k); }
      }
      WeightEmpty(lists, MAX_ORDER);
    } else {
      var p: nat :| p in free;
      assert Whole(free, 0, p) by { assert forall q: nat :: Shr(q, 0) == q; }
      var c, i := MaximalAbove(free, 0, p);
      ShrOfShl(i, c);
      assert Heads(free, c, Shl(i, c));
      assert LinkOf(Shl(i, c)) in lists[c];
      var at :| 0 <= at < |lists[c]| && lists[c][at] == LinkOf(Shl(i, c));
      TakeMaximal(free, c, i);
      ListRemoveStep(lists, free - Pages(c, i), free, c, i, at);
      RemovedMembers(lists[c], at);
      PagesSize(c, i);
      PagesMember(c, i);
      var rest := free - Pages(c, i);
      assert free == rest + Pages(c, i);
      assert |free| == |rest| + |Pages(c, i)|;
      ListsWeighFree(lists[c := Without(lists[c], at)], rest);
      WeightRemove(lists, c, at, MAX_ORDER);
    }
  }

  // ------------------------------------------------------------------ runs

  /** A block handed out and not yet given back. */
  datatype Grant = Grant(page: nat, order: nat)

  datatype Request = Alloc(order: nat) | Free(which: nat)

  ghost function GrantPages(g: Grant): set<nat> {
    Pages(g.order, Shr(g.page, g.order))
  }

  /** The pages of the outstanding blocks. */
  ghost function Outstanding(out: seq<Grant>): set<nat> {
    if out == [] then {} else GrantPages(out[0]) + Outstanding(out[1..])
  }

  /** Outstanding blocks are aligned and in range, and share no page with each other. */
  ghost predicate Separate(out: seq<Grant>, n: nat) {
    && (forall i :: 0 <= i < |out| ==> out[i].order < MAX_ORDER && out[i].page == Shl(Shr(out[i].page, out[i].order), out[i].order))
    && (forall i, p :: 0 <= i < |out| && p in GrantPages(out[i]) ==> p < n)
    && (forall i, j :: 0 <= i < j < |out| ==> GrantPages(out[i]) !! GrantPages(out[j]))
  }

  lemma {:induction false} OutstandingMember(out: seq<Grant>)
    ensures forall p :: p in Outstanding(out) <==> exists i :: 0 <= i < |out| && p in GrantPages(out[i])
  {
    if out != [] {
      OutstandingMember(out[1..]);
      forall p ensures p in Outstanding(out) <==> exists i :: 0 <= i < |out| && p in GrantPages(out[i]) {
        if p in Outstanding(out[1..]) {
          var i :| 0 <= i < |out[1..]| && p in GrantPages(out[1..][i]);
          assert p in GrantPages(out[i + 1]);
        }
        if i :| 0 <= i < |out| && p in GrantPages(out[i]) {
          assert i > 0 ==> p in GrantPages(out[1..][i - 1]);
        }
      }
    }
  }

  /** Between requests: free pages and outstanding blocks share nothing, and together are all there is. */
  ghost predicate Conserved(free: set<nat>, out: seq<Grant>, all: set<nat>, n: nat) {
    Separate(out, n) && free !! Outstanding(out) && free + Outstanding(out) == all
  }

  lemma GrantKeeps(free: set<nat>, out: seq<Grant>, all: set<nat>, n: nat, g: Grant)
    requires Conserved(free, out, all, n) && (forall p :: p in free ==> p < n)
    requires g.order < MAX_ORDER && g.page == Shl(Shr(g.page, g.order), g.order) && GrantPages(g) <= free
    ensures Conserved(free - GrantPages(g), out + [g], all, n)
  {
    OutstandingMember(out);
    OutstandingMember(out + [g]);
    forall p ensures p in Outstanding(out + [g]) <==> p in Outstanding(out) || p in GrantPages(g) {
      if p in GrantPages(g) { assert p in GrantPages((out + [g])[|out|]); }
      if i :| 0 <= i < |out| && p in GrantPages(out[i]) { assert p in GrantPages((out + [g])[i]); }
    }
  }

  lemma OutstandingWithout(out: seq<Grant>, k: nat)
    requires k < |out|
    ensures Outstanding(out) == Outstanding(out[..k] + out[k + 1..]) + GrantPages(out[k])
  {
    var rest := out[..k] + out[k + 1..];
    OutstandingMember(out);
    OutstandingMember(rest);
    forall i | 0 <= i < |rest| ensures rest[i] == out[if i < k then i else i + 1] {}
    forall p | p in Outstanding(out) ensures p in Outstanding(rest) || p in GrantPages(out[k]) {
      var i :| 0 <= i < |out| && p in GrantPages(out[i]);
      if i != k { assert rest[if i < k then i else i - 1] == out[i]; }
    }
    forall p | p in Outstanding(rest) ensures p in Outstanding(out) {
      var i :| 0 <= i < |rest| && p in GrantPages(rest[i]);
    }
  }

  lemma SeparateWithout(out: seq<Grant>, n: nat, k: nat)
    requires Separate(out, n) && k < |out|
    ensures Separate(out[..k] + out[k + 1..], n) && Outstanding(out[..k] + out[k + 1..]) !! GrantPages(out[k])
  {
    var rest := out[..k] + out[k + 1..];
    forall i | 0 <= i < |rest| ensures rest[i] == out[if i < k then i else i + 1] {}
    OutstandingMember(rest);
  }

  lemma ReturnKeeps(free: set<nat>, out: seq<Grant>, all: set<nat>, n: nat, k: nat)
    requires Conserved(free, out, all, n) && k < |out|
    ensures GrantPages(out[k]) !! free
    ensures Conserved(free + GrantPages(out[k]), out[..k] + out[k + 1..], all, n)
  {
    OutstandingWithout(out, k);
    SeparateWithout(out, n, k);
  }

  /** What is free depends only on what is outstanding, not on how the run got there. */
  lemma OrderOfFreesIrrelevant(f: set<nat>, out1: seq<Grant>, g: set<nat>, out2: seq<Grant>, all: set<nat>, n: nat)
    requires Conserved(f, out1, all, n) && Conserved(g, out2, all, n)
    requires multiset(out1) == multiset(out2)
    ensures f == g
  {
    OutstandingMember(out1);
    OutstandingMember(out2);
    forall p ensures p in Outstanding(out1) <==> p in Outstanding(out2) {
      if i :| 0 <= i < |out1| && p in GrantPages(out1[i]) {
        assert out1[i] in multiset(out2);
        var j :| 0 <= j < |out2| && out2[j] == out1[i];
      }
      if i :| 0 <= i < |out2| && p in GrantPages(out2[i]) {
        assert out2[i] in multiset(out1);
        var j :| 0 <= j < |out1| && out1[j] == out2[i];
      }
    }
    assert f == all - Outstanding(out1);
    assert g == all - Outstanding(out2);
  }

  /**
   What a request does to the outstanding blocks, with `free` the free pages.  An allocation appends one free block of
   its order, and nothing exactly when there is none; a free takes out the block it names.
   */
  ghost predicate Served(request: Request, free: set<nat>, out: seq<Grant>, now: seq<Grant>) {
    match request
    case Alloc(order) =>
      if CanServe(free, order) then
        |now| == |out| + 1 && now[..|out|] == out && now[|out|].order == order && GrantPages(now[|out|]) <= free
      else
        now == out
    case Free(k) => now == if k < |out| then out[..k] + out[k + 1..] else out
  }

  /** An allocation, recorded if it succeeds. */
  method ServeAlloc(a: PageAllocator, order: nat, out: seq<Grant>, ghost all: set<nat>) returns (now: seq<Grant>)
    requires a.Valid() && order < MAX_ORDER && Conserved(a.free, out, all, a.pageCount)
    modifies a`freePageCount, a`free, a.links`lists, a.links.next, a.links.prev, a.bits
    ensures a.Valid() && Conserved(a.free, now, all, a.pageCount)
    ensures Served(Alloc(order), old(a.free), out, now)
  {
    now := out;
    ghost var was := a.free;
    var r := a.AllocPages(order);
    if r.Page? {
      PagesMember(order, Shr(r.idx, order));
      GrantKeeps(was, out, all, a.pageCount, Grant(r.idx, order));
      now := out + [Grant(r.idx, order)];
    }
  }

  /** The free of outstanding block k, if there is one. */
  method ServeFree(a: PageAllocator, k: nat, out: seq<Grant>, ghost all: set<nat>) returns (now: seq<Grant>)
    requires a.Valid() && Conserved(a.free, out, all, a.pageCount)
    modifies a`freePageCount, a`free, a.links`lists, a.links.next, a.links.prev, a.bits
    ensures a.Valid() && Conserved(a.free, now, all, a.pageCount)
    ensures Served(Free(k), old(a.free), out, now)
  {
    now := out;
    if k < |out| {
      ReturnKeeps(a.free, out, all, a.pageCount, k);
      a.FreePages(out[k].page, out[k].order);
      now := out[..k] + out[k + 1..];
    }
  }

  method Serve(a: PageAllocator, request: Request, out: seq<Grant>, ghost all: set<nat>) returns (now: seq<Grant>)
    requires a.Valid() && (request.Alloc? ==> request.order < MAX_ORDER)
    requires Conserved(a.free, out, all, a.pageCount)
    modifies a`freePageCount, a`free, a.links`lists, a.links.next, a.links.prev, a.bits
    ensures a.Valid() && Conserved(a.free, now, all, a.pageCount)
    ensures Served(request, all - Outstanding(out), out, now)
  {
    FreeIsRest(a.free, out, all, a.pageCount);
    match request
    case Alloc(order) => now := ServeAlloc(a, order, out, all);
    case Free(k) => now := ServeFree(a, k, out, all);
  }

  /** Request number i was served, when the pages not outstanding were free. */
  ghost predicate ServedAt(requests: seq<Request>, outs: seq<seq<Grant>>, all: set<nat>, i: nat)
    requires i < |requests| && i + 1 < |outs|
  {
    Served(requests[i], all - Outstanding(outs[i]), outs[i], outs[i + 1])
  }

  lemma FreeIsRest(free: set<nat>, out: seq<Grant>, all: set<nat>, n: nat)
    requires Conserved(free, out, all, n)
    ensures free == all - Outstanding(out)
  {
  }

  /** outs are the outstanding blocks before, between and after the first requests. */
  ghost predicate History(requests: seq<Request>, outs: seq<seq<Grant>>, all: set<nat>) {
    && 0 < |outs| <= |requests| + 1 && outs[0] == []
    && forall i: nat :: i < |outs| - 1 ==> ServedAt(requests, outs, all, i)
  }

  lemma HistoryGoesOn(requests: seq<Request>, outs: seq<seq<Grant>>, all: set<nat>, now: seq<Grant>)
    requires History(requests, outs, all) && |outs| <= |requests|
    requires Served(requests[|outs| - 1], all - Outstanding(outs[|outs| - 1]), outs[|outs| - 1], now)
    ensures History(requests, outs + [now], all)
  {
    forall i: nat | i < |outs| ensures ServedAt(requests, outs + [now], all, i) {
      if i < |outs| - 1 { assert ServedAt(requests, outs, all, i); }
    }
  }

  /**
   Any sequence of requests against one allocator: an allocation is recorded when it succeeds, and only recorded
   blocks are freed.
   */
  method Replay(a: PageAllocator, requests: seq<Request>) returns (out: seq<Grant>, ghost outs: seq<seq<Grant>>)
    requires a.Valid() && forall r :: r in requests && r.Alloc? ==> r.order < MAX_ORDER
    modifies a`freePageCount, a`free, a.links`lists, a.links.next, a.links.prev, a.bits
    ensures a.Valid() && Conserved(a.free, out, old(a.free), a.pageCount)
    ensures History(requests, outs, old(a.free)) && |outs| == |requests| + 1 && outs[|requests|] == out
  {
    out, outs := [], [[]];
    ghost var all := a.free;
    for i := 0 to |requests|
      invariant a.Valid() && Conserved(a.free, out, all, a.pageCount)
      invariant |outs| == i + 1 && outs[i] == out && History(requests, outs, all)
    {
      assert requests[i] in requests;
      out := Serve(a, requests[i], out, all);
      HistoryGoesOn(requests, outs, all, out);
      outs := outs + [out];
    }
  }

  /** The block that was taken apart is the one that merges again. */
  lemma MergesAgain(lists: seq<seq<nat>>, back: seq<seq<nat>>, free: set<nat>, page: nat, k: nat, m: nat)
    requires ListsOk(lists, free) && ListsOk(back, free) && k < MAX_ORDER && m < MAX_ORDER
    requires LinkOf(Shl(Shr(page, k), k)) in lists[k] && LinkOf(Shl(Shr(page, m), m)) in back[m]
    ensures k == m
  {
    ShrOfShl(Shr(page, k), k);
    ShrOfShl(Shr(page, m), m);
    assert Heads(free, k, Shl(Shr(page, k), k)) && Heads(free, m, Shl(Shr(page, m), m));
    OneMaximal(free, page, k, m);
    OneMaximal(free, page, m, k);
  }

  /** After an allocation and the free of its block each list is what it was. */
  lemma ListsAreBack(lists: seq<seq<nat>>, taken: seq<seq<nat>>, back: seq<seq<nat>>, free: set<nat>, page: nat, order: nat)
    requires ListsOk(lists, free) && ListsOk(back, free)
    requires exists k: nat :: FromList(lists, page, order, k) && FirstGone(lists, order, k, taken)
    requires LandsSomewhere(taken, page, order, back)
    ensures back == lists
  {
    var k: nat :| FromList(lists, page, order, k) && FirstGone(lists, order, k, taken);
    var m: nat :| Landed(taken, page, order, m, back);
    assert lists[k][0] in lists[k] && back[m][0] in back[m];
    MergesAgain(lists, back, free, page, k, m);
    forall c: nat | c < MAX_ORDER ensures back[c] == lists[c] {
      ListIsBack(lists, taken, back, free, page, order, k, c);
    }
  }

  lemma ListIsBack(lists: seq<seq<nat>>, taken: seq<seq<nat>>, back: seq<seq<nat>>, free: set<nat>, page: nat, order: nat, k: nat, c: nat)
    requires ListsOk(lists, free) && ListsOk(back, free) && c < MAX_ORDER
    requires FromList(lists, page, order, k) && FirstGone(lists, order, k, taken) && Landed(taken, page, order, k, back)
    ensures back[c] == lists[c]
  {
    if order <= c < k { EmptyAgain(lists, back, free, c); } else if c == k { LastIsBack(lists, taken, back, page, order, k); }
  }

  lemma LastIsBack(lists: seq<seq<nat>>, taken: seq<seq<nat>>, back: seq<seq<nat>>, page: nat, order: nat, k: nat)
    requires FromList(lists, page, order, k) && FirstGone(lists, order, k, taken) && Landed(taken, page, order, k, back)
    ensures back[k] == lists[k]
  {
  }

  lemma EmptyAgain(lists: seq<seq<nat>>, back: seq<seq<nat>>, free: set<nat>, c: nat)
    requires ListsOk(lists, free) && ListsOk(back, free) && c < MAX_ORDER && lists[c] == []
    ensures back[c] == []
  {
    SameListed(lists, back, free);
    HasFirst(back[c]);
  }

  lemma HasFirst(l: seq<nat>)
    ensures l != [] ==> exists x :: x in l
  {
    if l != [] { assert l[0] in l; }
  }

  lemma WholeInside(free: set<nat>, page: nat, k: nat, m: nat)
    requires k <= m && Whole(free, m, Shr(page, m))
    ensures Whole(free, k, Shr(page, k))
  {
    BlockIn(m, k, page);
  }

  lemma NotWholeAbove(free: set<nat>, page: nat, k: nat, above: nat)
    requires Maximal(free, k, Shr(page, k)) && above == k + 1 < MAX_ORDER
    ensures !Whole(free, above, Shr(page, above))
  {
    ShrStep(page, k);
  }

  /** No page lies in maximal blocks of two orders. */
  lemma OneMaximal(free: set<nat>, page: nat, k: nat, m: nat)
    requires Maximal(free, k, Shr(page, k)) && Maximal(free, m, Shr(page, m))
    ensures m <= k
  {
    if k < m {
      var above := k + 1;
      NotWholeAbove(free, page, k, above);
      WholeInside(free, page, above, m);
    }
  }

  /** Freeing what was just allocated restores every list in its order, every bit and the counter. */
  method AllocThenFree(a: PageAllocator, order: nat)
    requires a.Valid() && order < MAX_ORDER
    modifies a`freePageCount, a`free, a.links`lists, a.links.next, a.links.prev, a.bits
    ensures a.Valid() && a.free == old(a.free) && a.freePageCount == old(a.freePageCount)
    ensures a.links.lists == old(a.links.lists)
    ensures forall k: nat, i: nat :: k < MAX_ORDER - 1 && PairInRange(a.pageCount, k, i) ==>
                                       PairBit(a.bits[..], a.pageCount, k, i) == PairBit(old(a.bits[..]), a.pageCount, k, i)
  {
    ghost var free, lists, bits := a.free, a.links.lists, a.bits[..];
    var r := a.AllocPages(order);
    if r.Page? {
      ghost var taken := a.links.lists;
      PagesMember(order, Shr(r.idx, order));
      assert free - Pages(order, Shr(r.idx, order)) + Pages(order, Shr(r.idx, order)) == free;
      a.FreePages(r.idx, order);
      ListsAreBack(lists, taken, a.links.lists, free, r.idx, order);
    }
    Determined(a.links.lists, lists, a.bits[..], bits, a.pageCount, free);
  }
}
