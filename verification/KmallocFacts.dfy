/**
 What the invariant of the kmalloc heap and the contracts of kmalloc and kfree say about the areas
 handed out.
 */
module KmallocFacts {
  import opened Dyadic
  import opened Areas
  import opened Buddy
  import opened Kmalloc
  import opened Machine

  /** Areas of the node, free or handed out. */
  ghost predicate HasArea(n: Node, a: Area) {
    a in n.free || a in n.used
  }

  /** Within one node, any two areas lie apart. */
  lemma ApartInNode(n: MallocNode, a: Area, b: Area)
    requires n.Valid() && HasArea(n.State(), a) && HasArea(n.State(), b) && a != b
    ensures Apart(a, b)
  {
    if a in n.freeList && b in n.freeList {
      var i :| 0 <= i < |n.freeList| && n.freeList[i] == a;
      var j :| 0 <= j < |n.freeList| && n.freeList[j] == b;
      assert i < j ==> n.freeList[i].End() < n.freeList[j].addr;
      assert j < i ==> n.freeList[j].End() < n.freeList[i].addr;
    } else if a in n.usedList && b in n.usedList {
      var i :| 0 <= i < |n.usedList| && n.usedList[i] == a;
      var j :| 0 <= j < |n.usedList| && n.usedList[j] == b;
      assert i < j ==> Apart(n.usedList[i], n.usedList[j]);
      assert j < i ==> Apart(n.usedList[j], n.usedList[i]);
    }
  }

  /** An area starts past its node's header and ends inside the node's pages. */
  lemma AreaInPages(n: MallocNode, a: Area, limit: nat)
    requires n.Valid() && IsBlock(n, limit) && HasArea(n.State(), a)
    ensures n.Base() + NODE_HEADER <= a.addr && a.End() <= KVM_BASE + (n.page + Pow2(n.order)) * PAGE_SIZE
    ensures a.addr % 4 == 0
  {
    assert Within(a, n.Low(), n.High());
    assert n.High() == n.Base() + PAGE_SIZE * Pow2(n.order);
    assert (n.page + Pow2(n.order)) * PAGE_SIZE == n.page * PAGE_SIZE + PAGE_SIZE * Pow2(n.order);
  }

  /** Blocks without a common page are one behind the other. */
  lemma BlocksInOrder(m: MallocNode, n: MallocNode, limit: nat)
    requires IsBlock(m, limit) && IsBlock(n, limit) && NodePages(m) !! NodePages(n)
    ensures m.page + Pow2(m.order) <= n.page || n.page + Pow2(n.order) <= m.page
  {
    var i, j := Shr(m.page, m.order), Shr(n.page, n.order);
    PagesMember(m.order, i);
    PagesMember(n.order, j);
    ShlAdd(i, 1, m.order);
    ShlAdd(j, 1, n.order);
    ShlUnit(m.order);
    ShlUnit(n.order);
    ShrInterval(n.page, m.order, i);
    ShrInterval(m.page, n.order, j);
    if m.page <= n.page {
      assert n.page in NodePages(n);
      assert n.page !in NodePages(m);
    } else {
      assert m.page in NodePages(m);
      assert m.page !in NodePages(n);
    }
  }

  /**
   Over the whole heap: two areas, free or handed out, of one node or of two, never overlap; and none reaches
   into a node header.
   */
  lemma NoOverlap(h: Heap, i: nat, a: Area, j: nat, b: Area)
    requires h.Valid() && i < |h.nodes| && j < |h.nodes| && HasArea(h.states[i], a) && HasArea(h.states[j], b)
    requires i != j || a != b
    ensures Apart(a, b)
    ensures a.End() <= h.nodes[j].Base() || h.nodes[j].Base() + NODE_HEADER <= a.addr
  {
    var m, n := h.nodes[i], h.nodes[j];
    assert m in h.nodes && n in h.nodes;
    AreaInPages(m, a, h.pages.pageCount);
    AreaInPages(n, b, h.pages.pageCount);
    if i == j {
      ApartInNode(m, a, b);
    } else {
      BlocksInOrder(m, n, h.pages.pageCount);
    }
  }

  /** The block kmalloc returns is aligned, as large as asked for, and no live block; all live blocks stay. */
  lemma AllocatedIsNew(h: Heap, before: seq<Node>, size: nat, addr: nat)
    requires h.Valid() && AllocatedBy(before, h.states, OrderFor(size), RealSize(size), NodeBytes(OrderFor(size)), addr)
    ensures var a := Area(addr, RealSize(size));
            LiveAreas(h.states) == LiveAreas(before) + {a} && a !in LiveAreas(before)
            && addr % 4 == 0 && addr + HEADER + size <= a.End()
  {
    var order, want := OrderFor(size), RealSize(size);
    if SomeServes(before, order, want) {
      ServedAdds(h, before, order, want, addr);
    } else {
      var now :| Prepended(before, now, 1, order, NodeBytes(order)) && ServedFirst(now, h.states, order, want, addr);
      ServedAdds(h, now, order, want, addr);
      PrependedLive(before, now, order, NodeBytes(order));
    }
  }

  lemma PrependedLive(before: seq<Node>, now: seq<Node>, order: nat, bytes: nat)
    requires Prepended(before, now, 1, order, bytes)
    ensures LiveAreas(now) == LiveAreas(before)
  {
    assert FreshNode(now[0], order, bytes);
    forall a ensures a in LiveAreas(now) <==> a in LiveAreas(before) {
      if i :| 0 <= i < |now| && a in now[i].used { assert now[1..][i - 1] == now[i]; }
      if i :| 0 <= i < |before| && a in before[i].used { assert now[1..][i] == now[i + 1]; }
    }
  }

  lemma ServedAdds(h: Heap, before: seq<Node>, order: nat, want: nat, addr: nat)
    requires h.Valid() && ServedFirst(before, h.states, order, want, addr)
    ensures LiveAreas(h.states) == LiveAreas(before) + {Area(addr, want)} && addr % 4 == 0
    ensures Area(addr, want) !in LiveAreas(before)
  {
    var i: nat :| ServedFrom(before, h.states, order, want, addr, i);
    var a := Area(addr, want);
    assert h.states[i].used == [a] + before[i].used;
    assert h.nodes[i] in h.nodes && a in h.nodes[i].usedList;
    AreaInPages(h.nodes[i], a, h.pages.pageCount);
    forall b ensures b in LiveAreas(h.states) <==> b in LiveAreas(before) || b == a {
      if j :| 0 <= j < |before| && b in before[j].used { assert b in h.states[j].used; }
      if j :| 0 <= j < |before| && b in h.states[j].used { assert j != i ==> b in before[j].used; }
    }
    forall j, b | 0 <= j < |before| && b in before[j].used ensures b != a {
      OldIsNotNew(h, before, i, j, a, b);
    }
  }

  lemma OldIsNotNew(h: Heap, before: seq<Node>, i: nat, j: nat, a: Area, b: Area)
    requires h.Valid() && i < |before| == |h.states| && h.states[i].used == [a] + before[i].used
    requires j < |before| && b in before[j].used && (j != i ==> h.states[j] == before[j])
    ensures b != a
  {
    var n := h.nodes[i];
    assert n in h.nodes && a in n.usedList && Within(a, n.Low(), n.High());
    if j == i {
      var k :| 0 <= k < |before[i].used| && before[i].used[k] == b;
      assert n.usedList[k + 1] == b;
      UsedApart(n, 0, k + 1);
    } else {
      NoOverlap(h, i, a, j, b);
    }
  }

  lemma UsedApart(n: MallocNode, u: nat, v: nat)
    requires n.Valid() && u < v < |n.usedList|
    ensures n.usedList[u].addr != n.usedList[v].addr
  {
    assert n.usedList[u] in n.usedList && n.usedList[v] in n.usedList;
    assert Within(n.usedList[u], n.Low(), n.High()) && Within(n.usedList[v], n.Low(), n.High());
    assert Apart(n.usedList[u], n.usedList[v]);
  }

  /** The new block overlaps no block that was live before. */
  lemma NewBlockApart(h: Heap, before: seq<Node>, size: nat, addr: nat, b: Area)
    requires h.Valid() && AllocatedBy(before, h.states, OrderFor(size), RealSize(size), NodeBytes(OrderFor(size)), addr)
    requires b in LiveAreas(before)
    ensures Apart(Area(addr, RealSize(size)), b)
  {
    var a := Area(addr, RealSize(size));
    AllocatedIsNew(h, before, size, addr);
    assert a in LiveAreas(h.states) && b in LiveAreas(h.states);
    var i :| 0 <= i < |h.states| && a in h.states[i].used;
    var j :| 0 <= j < |h.states| && b in h.states[j].used;
    NoOverlap(h, i, a, j, b);
  }

  /** Area u of node i and area v of node j do not start at the same address, unless they are the same. */
  ghost predicate StartsApart(nodes: seq<Node>, i: nat, u: nat, j: nat, v: nat) {
    i < |nodes| && j < |nodes| && u < |nodes[i].used| && v < |nodes[j].used| && (i != j || u != v) ==>
      nodes[i].used[u].addr != nodes[j].used[v].addr
  }

  ghost predicate AddressesUnique(nodes: seq<Node>) {
    forall i: nat, u: nat, j: nat, v: nat :: StartsApart(nodes, i, u, j, v)
  }

  lemma ValidUnique(h: Heap)
    requires h.Valid()
    ensures AddressesUnique(h.states)
  {
    forall i: nat, u: nat, j: nat, v: nat ensures StartsApart(h.states, i, u, j, v) {
      if i < |h.states| && j < |h.states| && u < |h.states[i].used| && v < |h.states[j].used| {
        UniqueAt(h, i, u, j, v);
      }
    }
  }

  lemma UniqueAt(h: Heap, i: nat, u: nat, j: nat, v: nat)
    requires h.Valid() && i < |h.states| && j < |h.states| && u < |h.states[i].used| && v < |h.states[j].used|
    ensures (i == j && u == v) || h.states[i].used[u].addr != h.states[j].used[v].addr
  {
    var a, b := h.states[i].used[u], h.states[j].used[v];
    assert h.nodes[i] in h.nodes && a in h.nodes[i].usedList && Within(a, h.nodes[i].Low(), h.nodes[i].High());
    assert h.nodes[j] in h.nodes && b in h.nodes[j].usedList && Within(b, h.nodes[j].Low(), h.nodes[j].High());
    if i != j {
      NoOverlap(h, i, a, j, b);
    } else if u < v {
      UsedApart(h.nodes[i], u, v);
    } else if v < u {
      UsedApart(h.nodes[i], v, u);
    }
  }

  /** kfree(p) ends the life of exactly the area in front of p. */
  lemma FreedTakesOne(before: seq<Node>, after: seq<Node>, p: nat, i: nat, n: Node)
    requires AddressesUnique(before) && i < |before| && FreedIn(before[i], n, p)
    requires after == before[i := n] || (n.used == [] && after == before[..i] + before[i + 1..])
    ensures exists a :: a in LiveAreas(before) && a.addr + HEADER == p && LiveAreas(after) == LiveAreas(before) - {a}
  {
    var u :| 0 <= u < |before[i].used| && before[i].used[u].addr + HEADER == p
         && n.used == before[i].used[..u] + before[i].used[u + 1..];
    var a := before[i].used[u];
    assert a in before[i].used;
    forall b ensures b in LiveAreas(after) <==> b in LiveAreas(before) && b != a {
      LiveStep(before, i, n, u, b);
      if after == before[i := n] {
      } else {
        LiveWithout(before, i, n, b);
      }
    }
  }

  lemma LiveStep(before: seq<Node>, i: nat, n: Node, u: nat, b: Area)
    requires AddressesUnique(before) && i < |before| && u < |before[i].used|
    requires n.used == before[i].used[..u] + before[i].used[u + 1..]
    ensures b in LiveAreas(before[i := n]) <==> b in LiveAreas(before) && b != before[i].used[u]
  {
    var l, after := before[i].used, before[i := n];
    forall v | 0 <= v < |n.used| ensures n.used[v] == l[if v < u then v else v + 1] && n.used[v] != l[u] {
      assert StartsApart(before, i, u, i, if v < u then v else v + 1);
    }
    if j, v :| 0 <= j < |before| && 0 <= v < |before[j].used| && before[j].used[v] == b && b != l[u] {
      assert j == i ==> b == n.used[if v < u then v else v - 1];
      assert b in after[j].used;
    }
    if j :| 0 <= j < |before| && b in after[j].used {
      if j == i {
        var v :| 0 <= v < |n.used| && n.used[v] == b;
        assert l[if v < u then v else v + 1] in l;
      } else {
        var v :| 0 <= v < |before[j].used| && before[j].used[v] == b;
        assert StartsApart(before, i, u, j, v);
      }
    }
  }

  lemma LiveWithout(before: seq<Node>, i: nat, n: Node, b: Area)
    requires i < |before| && n.used == []
    ensures b in LiveAreas(before[..i] + before[i + 1..]) <==> b in LiveAreas(before[i := n])
  {
    var l, m := before[..i] + before[i + 1..], before[i := n];
    if j :| 0 <= j < |l| && b in l[j].used { assert m[if j < i then j else j + 1] == l[j]; }
    if j :| 0 <= j < |m| && b in m[j].used { assert l[if j < i then j else j - 1] == m[j]; }
  }

  /**
   With a page allocator that can serve, a request below eleven pages is served with at most one new node,
   except for the sizes whose header pushes them past the node chosen for them.
   */
  lemma SizesServed(size: nat)
    requires size < 45056
    ensures RealSize(size) <= NodeBytes(OrderFor(size)) <==> !(4073 <= size <= 4095) && !(8169 <= size <= 8191)
  {
    var k := OrderFor(size);
    Pow2AtLeast(k);
    assert Pow2(0) == 1 && Pow2(1) == 2;
    assert size == PAGE_SIZE * k + size % PAGE_SIZE;
    if k == 0 {
      assert NodeBytes(0) == 4080;
    } else if k == 1 {
      assert NodeBytes(1) == 8176;
    } else {
      assert NodeBytes(k) >= PAGE_SIZE * (k + 2) - NODE_HEADER;
    }
  }

  lemma {:induction false} Pow2AtLeast(k: nat)
    ensures k >= 2 ==> Pow2(k) >= k + 2
  {
    if k > 2 { Pow2AtLeast(k - 1); } else if k == 2 { assert Pow2(2) == 2 * Pow2(1); assert Pow2(1) == 2 * Pow2(0); }
  }

  /** What kmalloc and kfree work on: the nodes and the free pages. */
  datatype HeapState = HeapState(nodes: seq<Node>, free: set<nat>)

  ghost function StateOf(h: Heap): HeapState
    reads h, h.pages
  {
    HeapState(h.states, h.pages.free)
  }

  /** Node i became n, or went back to the page allocator. */
  ghost predicate GivenBack(v: HeapState, p: nat, i: nat, n: Node, v': HeapState) {
    && i < |v.nodes| && FreedIn(v.nodes[i], n, p)
    && if i > 0 && n.free[0].size == NodeBytes(n.order) then
         n.used == [] && n.lost == 0 && v'.nodes == v.nodes[..i] + v.nodes[i + 1..] && RunGone(v'.free, v.free, n.order)
       else
         v' == HeapState(v.nodes[i := n], v.free)
  }

  // kmalloc and then kfree

  /** The request takes area i of node d, which is the first that can serve. */
  ghost predicate TakenAt(nodes: seq<Node>, order: nat, want: nat, d: nat, i: nat) {
    && d < |nodes| && nodes[d].order >= order && FirstFit(nodes[d].free, want, i)
    && forall j :: 0 <= j < d ==> !Serves(nodes[j], order, want)
  }

  /** Nothing is left of taking and giving back: the free list is restored, and the node is not one that kfree recycles. */
  ghost predicate ComesBack(nodes: seq<Node>, d: nat, i: nat, want: nat)
    requires d < |nodes| && FirstFit(nodes[d].free, want, i)
  {
    Restored(nodes[d].free, i, want) && !(d > 0 && nodes[d].free[0].size == NodeBytes(nodes[d].order))
  }

  /** n1 is n after area i served. */
  ghost predicate CutOff(n: Node, n1: Node, want: nat, i: nat) {
    && FirstFit(n.free, want, i) && n1.order == n.order
    && n1.free == TakenFree(n.free, i, want) && n1.used == [Area(n.free[i].addr, want)] + n.used
    && n1.lost == n.lost + TakenLoss(n.free, i, want)
  }

  lemma FirstFreed(n1: Node, n2: Node, a: Area, rest: seq<Area>)
    requires n1.used == [a] + rest && FreedIn(n1, n2, a.addr + HEADER)
    requires forall u :: 0 < u < |n1.used| ==> n1.used[u].addr != a.addr
    ensures n2.order == n1.order && n2.used == rest && n2.lost >= n1.lost && Gave(n1.free, a, n2.free, n2.lost - n1.lost)
  {
    var u :| 0 <= u < |n1.used| && n1.used[u].addr + HEADER == a.addr + HEADER
             && n2.used == n1.used[..u] + n1.used[u + 1..] && Gave(n1.free, n1.used[u], n2.free, n2.lost - n1.lost);
    assert u == 0 && n1.used[1..] == rest;
  }

  lemma NodeBack(n: Node, n2: Node, want: nat, i: nat, lost: nat)
    requires Coalesced(n.free) && i < |n.free| && 0 < want <= n.free[i].size
    requires n2.order == n.order && n2.used == n.used && n2.lost >= lost == n.lost + TakenLoss(n.free, i, want)
    requires Gave(TakenFree(n.free, i, want), Area(n.free[i].addr, want), n2.free, n2.lost - lost)
    ensures n2 == n <==> Restored(n.free, i, want)
  {
    GivenBackAt(n.free, i, want, n2.free, n2.lost - lost);
  }

  lemma CutOffAt(before: seq<Node>, after: seq<Node>, order: nat, want: nat, addr: nat) returns (d: nat, i: nat)
    requires ServedFirst(before, after, order, want, addr)
    ensures TakenAt(before, order, want, d, i) && |after| == |before| && after == before[d := after[d]]
    ensures CutOff(before[d], after[d], want, i) && before[d].free[i].addr == addr
  {
    d :| ServedFrom(before, after, order, want, addr, d);
    var n, n1 := before[d], after[d];
    i :| FirstFit(n.free, want, i) && addr == n.free[i].addr && n1.free == TakenFree(n.free, i, want)
         && n1.used == [Area(addr, want)] + n.used && n1.lost - n.lost == TakenLoss(n.free, i, want);
  }

  /** The block just handed out is the first in its node, and no other block starts where it does. */
  lemma OwnerOfNew(nodes: seq<Node>, d: nat, p: nat)
    requires AddressesUnique(nodes) && d < |nodes| && nodes[d].used != [] && nodes[d].used[0].addr + HEADER == p
    ensures OwnedAt(nodes, p, d, 0)
    ensures forall j: nat :: j < |nodes| && Owns(nodes[j], p) ==> j == d
    ensures forall u :: 0 < u < |nodes[d].used| ==> nodes[d].used[u].addr + HEADER != p
  {
    forall j: nat | j < |nodes| && Owns(nodes[j], p) ensures j == d {
      var u: nat :| u < |nodes[j].used| && nodes[j].used[u].addr + HEADER == p;
      assert StartsApart(nodes, j, u, d, 0);
    }
    forall u: nat | 0 < u < |nodes[d].used| ensures nodes[d].used[u].addr + HEADER != p {
      assert StartsApart(nodes, d, u, d, 0);
    }
  }

  /** With node d changed by both calls, all is as before exactly if that node is, and is not one that kfree recycles. */
  lemma NodesBack(v: HeapState, nodes1: seq<Node>, v2: HeapState, p: nat, d: nat, n2: Node)
    requires d < |v.nodes| == |nodes1| && nodes1 == v.nodes[d := nodes1[d]] && n2.order == v.nodes[d].order
    requires GivenBack(HeapState(nodes1, v.free), p, d, n2, v2)
    ensures v2 == v <==> n2 == v.nodes[d] && !(d > 0 && n2.free[0].size == NodeBytes(n2.order))
    ensures d == 0 ==> v2.nodes == v.nodes[0 := n2]
  {
    if d > 0 && n2.free[0].size == NodeBytes(n2.order) {
      assert |v2.nodes| == |nodes1| - 1;
    } else {
      assert v2.nodes == v.nodes[d := n2] && v2.nodes[d] == n2;
    }
  }

  /** From the nodes before, over those after kmalloc, to those after kfree. */
  lemma BackAgain(v: HeapState, nodes1: seq<Node>, v2: HeapState, want: nat, d: nat, i: nat, j: nat, n2: Node)
    requires d < |v.nodes| == |nodes1| && nodes1 == v.nodes[d := nodes1[d]] && AddressesUnique(nodes1) && 0 < want
    requires CutOff(v.nodes[d], nodes1[d], want, i) && Coalesced(v.nodes[d].free)
    requires GivenBack(HeapState(nodes1, v.free), v.nodes[d].free[i].addr + HEADER, j, n2, v2)
    ensures v2 == v <==> ComesBack(v.nodes, d, i, want)
    ensures d == 0 ==> v2.nodes == v.nodes[0 := n2] && n2.used == v.nodes[0].used
  {
    var p := v.nodes[d].free[i].addr + HEADER;
    OwnerOfNew(nodes1, d, p);
    assert Owns(nodes1[j], p);
    FirstFreed(nodes1[d], n2, Area(v.nodes[d].free[i].addr, want), v.nodes[d].used);
    NodeBack(v.nodes[d], n2, want, i, nodes1[d].lost);
    NodesBack(v, nodes1, v2, p, d, n2);
  }

  lemma AllCoalesced(h: Heap)
    requires h.Valid()
    ensures forall d :: 0 <= d < |h.states| ==> Coalesced(h.states[d].free)
  {
    forall d | 0 <= d < |h.states| ensures Coalesced(h.states[d].free) {
      assert h.nodes[d] in h.nodes && h.nodes[d].Valid();
    }
  }

  /** What kmalloc and then kfree come to when a node that was there served, and whether NULL was written through. */
  ghost predicate ThereAndBack(v: HeapState, v2: HeapState, order: nat, want: nat, stray: bool) {
    exists d: nat, i: nat :: ThereAndBackAt(v, v2, order, want, stray, d, i)
  }

  ghost predicate ThereAndBackAt(v: HeapState, v2: HeapState, order: nat, want: nat, stray: bool, d: nat, i: nat) {
    && TakenAt(v.nodes, order, want, d, i)
    && (v2 == v <==> ComesBack(v.nodes, d, i, want))
    && (stray <==> i == 0 && v.nodes[d].free[0].size - want > HEADER)
  }

  lemma StrayAgain(n: Node, nodes1: seq<Node>, want: nat, d: nat, i: nat, p: nat)
    requires d < |nodes1| && AddressesUnique(nodes1) && 0 < want && CutOff(n, nodes1[d], want, i) && Coalesced(n.free)
    requires p == n.free[i].addr + HEADER
    ensures StrayFree(nodes1, p) <==> i == 0 && n.free[0].size - want > HEADER
  {
    OwnerOfNew(nodes1, d, p);
    StrayAt(nodes1, p, d, 0);
    TakenIsFirst(n.free, i, want);
  }

  lemma GivenBackAgain(v: HeapState, nodes1: seq<Node>, v2: HeapState, want: nat, d: nat, i: nat, p: nat)
    requires d < |v.nodes| == |nodes1| && nodes1 == v.nodes[d := nodes1[d]] && AddressesUnique(nodes1) && 0 < want
    requires CutOff(v.nodes[d], nodes1[d], want, i) && Coalesced(v.nodes[d].free) && p == v.nodes[d].free[i].addr + HEADER
    requires Does(Free(p), HeapState(nodes1, v.free), 0, v2)
    ensures v2 == v <==> ComesBack(v.nodes, d, i, want)
    ensures d == 0 ==> |v2.nodes| == |v.nodes| && v2.nodes[1..] == v.nodes[1..] && v2.nodes[0].used == v.nodes[0].used
  {
    var j: nat, n2 :| GivenBack(HeapState(nodes1, v.free), p, j, n2, v2);
    BackAgain(v, nodes1, v2, want, d, i, j, n2);
  }

  lemma ServedAndBack(v: HeapState, nodes1: seq<Node>, v2: HeapState, order: nat, want: nat, addr: nat, p: nat, stray: bool)
    requires p == addr + HEADER
    requires ServedFirst(v.nodes, nodes1, order, want, addr) && 0 < want && AddressesUnique(nodes1)
    requires forall d :: 0 <= d < |v.nodes| ==> Coalesced(v.nodes[d].free)
    requires Does(Free(p), HeapState(nodes1, v.free), 0, v2) && (stray <==> StrayFree(nodes1, p))
    ensures ThereAndBack(v, v2, order, want, stray)
  {
    var d, i := CutOffAt(v.nodes, nodes1, order, want, addr);
    GivenBackAgain(v, nodes1, v2, want, d, i, p);
    StrayAgain(v.nodes[d], nodes1, want, d, i, p);
    assert ThereAndBackAt(v, v2, order, want, stray, d, i);
  }

  /** When a new node had to be had, it stays, with nothing handed out. */
  ghost predicate NewNodeStays(v: HeapState, v2: HeapState, order: nat, want: nat, stray: bool) {
    && |v2.nodes| == |v.nodes| + 1 && v2.nodes[1..] == v.nodes && v2.nodes[0].used == []
    && (stray <==> NodeBytes(order) - want > HEADER)
  }

  lemma FreshFirst(before: seq<Node>, now: seq<Node>, order: nat, want: nat, bytes: nat, d: nat, i: nat)
    requires Prepended(before, now, 1, order, bytes) && !SomeServes(before, order, want) && TakenAt(now, order, want, d, i)
    ensures d == 0 && i == 0 && FreshNode(now[0], order, bytes) && now[1..] == before
  {
    assert FreshNode(now[0], order, bytes);
    forall k | 0 < k < |now| ensures !Serves(now[k], order, want) {
      assert now[1..][k - 1] == now[k];
    }
    assert Serves(now[d], order, want);
  }

  lemma FreshAndBack(v: HeapState, now: seq<Node>, free1: set<nat>, nodes1: seq<Node>, v2: HeapState, order: nat, want: nat, addr: nat, p: nat, stray: bool)
    requires p == addr + HEADER
    requires Prepended(v.nodes, now, 1, order, NodeBytes(order)) && ServedFirst(now, nodes1, order, want, addr) && 0 < want
    requires !SomeServes(v.nodes, order, want) && AddressesUnique(nodes1)
    requires Does(Free(p), HeapState(nodes1, free1), 0, v2) && (stray <==> StrayFree(nodes1, p))
    ensures NewNodeStays(v, v2, order, want, stray)
  {
    var d, i := CutOffAt(now, nodes1, order, want, addr);
    FreshFirst(v.nodes, now, order, want, NodeBytes(order), d, i);
    GivenBackAgain(HeapState(now, free1), nodes1, v2, want, d, i, p);
    StrayAgain(now[d], nodes1, want, d, i, p);
  }

  /** Both calls in a row: a node that was there served, or a new one stays. */
  ghost predicate ThereAndBackOrNew(v: HeapState, size: nat, v2: HeapState, stray: bool) {
    if SomeServes(v.nodes, OrderFor(size), RealSize(size))
    then ThereAndBack(v, v2, OrderFor(size), RealSize(size), stray)
    else NewNodeStays(v, v2, OrderFor(size), RealSize(size), stray)
  }

  // Whole runs

  datatype Call = Malloc(size: nat) | Free(p: nat)

  /** Live areas lie apart, in the kernel's part of the address space. */
  ghost predicate BlocksApart(live: set<Area>) {
    && (forall a, b :: a in live && b in live && a != b ==> Apart(a, b))
    && forall a :: a in live ==> 0xC000_0010 <= a.addr && a.End() <= 0x1_0000_0000
  }

  /**
   What a call does to the live blocks.  kmalloc adds the block in front of which its result points, aligned, large
   enough and apart from all others; kfree takes away the block in front of its argument, and nothing else.
   */
  ghost predicate Called(call: Call, live: set<Area>, r: nat, live': set<Area>) {
    match call
    case Malloc(size) =>
      && r >= HEADER && r % 4 == 0
      && var a := Area(r - HEADER, RealSize(size));
         a !in live && live' == live + {a} && forall b :: b in live ==> Apart(a, b)
    case Free(p) => exists a :: a in live && a.addr + HEADER == p && live' == live - {a}
  }

  lemma LiveApart(h: Heap)
    requires h.Valid()
    ensures BlocksApart(LiveAreas(h.states))
  {
    forall a, b | a in LiveAreas(h.states) && b in LiveAreas(h.states) && a != b ensures Apart(a, b) {
      var i :| 0 <= i < |h.states| && a in h.states[i].used;
      var j :| 0 <= j < |h.states| && b in h.states[j].used;
      NoOverlap(h, i, a, j, b);
    }
    forall a | a in LiveAreas(h.states) ensures 0xC000_0010 <= a.addr && a.End() <= 0x1_0000_0000 {
      var _ := LiveInPages(h, a);
    }
  }

  /**
   A live area lies behind the header of a node, in pages that are the node's and not free, as the kernel sees physical
   memory: from 0xC0000000 up.
   */
  lemma LiveInPages(h: Heap, a: Area) returns (n: MallocNode)
    requires h.Valid() && a in LiveAreas(h.states)
    ensures n in h.nodes && n.page + Pow2(n.order) <= h.pages.pageCount
    ensures forall p :: n.page <= p < n.page + Pow2(n.order) ==> p !in h.pages.free
    ensures 0xC000_0000 + n.page * 4096 + 16 <= a.addr && a.End() <= 0xC000_0000 + (n.page + Pow2(n.order)) * 4096
    ensures 0xC000_0010 <= a.addr && a.End() <= 0x1_0000_0000
  {
    var i :| 0 <= i < |h.states| && a in h.states[i].used;
    n := h.nodes[i];
    assert n in h.nodes;
    AreaInPages(n, a, h.pages.pageCount);
    PagesInterval(n.order, Shr(n.page, n.order));
    ShlIsProduct(Shr(n.page, n.order), n.order);
    assert n.page + Pow2(n.order) - 1 in NodePages(n);
  }

  lemma NewBlockApartFromAll(h: Heap, before: seq<Node>, size: nat, addr: nat)
    requires h.Valid()
    requires AllocatedBy(before, h.states, OrderFor(size), RealSize(size), NodeBytes(OrderFor(size)), addr)
    ensures forall b :: b in LiveAreas(before) ==> Apart(Area(addr, RealSize(size)), b)
  {
    forall b | b in LiveAreas(before) ensures Apart(Area(addr, RealSize(size)), b) {
      NewBlockApart(h, before, size, addr, b);
    }
  }

  lemma CalledIfNew(live: set<Area>, live': set<Area>, size: nat, addr: nat, r: nat)
    requires addr % 4 == 0 && r == addr + HEADER
    requires var a := Area(addr, RealSize(size)); a !in live && live' == live + {a} && forall b :: b in live ==> Apart(a, b)
    ensures Called(Malloc(size), live, r, live')
  {
  }

  lemma BlockCalled(h: Heap, before: seq<Node>, size: nat, r: nat)
    requires h.Valid() && r >= HEADER
    requires AllocatedBy(before, h.states, OrderFor(size), RealSize(size), NodeBytes(OrderFor(size)), r - HEADER)
    ensures Called(Malloc(size), LiveAreas(before), r, LiveAreas(h.states))
  {
    AllocatedIsNew(h, before, size, r - HEADER);
    NewBlockApartFromAll(h, before, size, r - HEADER);
    CalledIfNew(LiveAreas(before), LiveAreas(h.states), size, r - HEADER, r);
  }

  lemma MallocCalled(h: Heap, before: seq<Node>, size: nat, got: Outcome)
    requires h.Valid() && (got.Block? ==> got.addr >= HEADER)
    requires got.Block? ==>
               AllocatedBy(before, h.states, OrderFor(size), RealSize(size), NodeBytes(OrderFor(size)), got.addr - HEADER)
    ensures got.Block? ==> Called(Malloc(size), LiveAreas(before), got.addr, LiveAreas(h.states))
  {
    if got.Block? { BlockCalled(h, before, size, got.addr); }
  }

  /**
   The calls after which the machine does not go on as meant: a request of eleven pages, one that no node can serve and
   for which a new node cannot be had or would be too small, and the free of an address nobody was given.
   */
  ghost predicate Stops(call: Call, v: HeapState) {
    match call
    case Malloc(size) =>
      var order, want := OrderFor(size), RealSize(size);
      order == MAX_ORDER || (!SomeServes(v.nodes, order, want) && (want > NodeBytes(order) || !CanServe(v.free, order)))
    case Free(p) => forall i :: 0 <= i < |v.nodes| ==> !Owns(v.nodes[i], p)
  }

  /** What any other call does to the nodes and the free pages. */
  ghost predicate Does(call: Call, v: HeapState, r: nat, v': HeapState) {
    match call
    case Malloc(size) =>
      var order, want := OrderFor(size), RealSize(size);
      && r >= HEADER && AllocatedBy(v.nodes, v'.nodes, order, want, NodeBytes(order), r - HEADER)
      && if SomeServes(v.nodes, order, want) then v'.free == v.free else RunGone(v.free, v'.free, order)
    case Free(p) => exists i: nat, n :: GivenBack(v, p, i, n, v')
  }

  /** What kmalloc promises, on values. */
  lemma MallocDoes(size: nat, nodes: seq<Node>, free: set<nat>, got: Outcome, nodes': seq<Node>, free': set<nat>)
    requires got.Astray? <==> 45056 <= size < 49152
    requires got.Halted? <==> OrderFor(size) != MAX_ORDER && !SomeServes(nodes, OrderFor(size), RealSize(size))
                              && (RealSize(size) > NodeBytes(OrderFor(size)) || !CanServe(free, OrderFor(size)))
    requires got.Block? && SomeServes(nodes, OrderFor(size), RealSize(size)) ==> free' == free
    requires got.Block? && !SomeServes(nodes, OrderFor(size), RealSize(size)) ==> RunGone(free, free', OrderFor(size))
    requires got.Block? ==> got.addr >= HEADER
    requires got.Block? ==>
               AllocatedBy(nodes, nodes', OrderFor(size), RealSize(size), NodeBytes(OrderFor(size)), got.addr - HEADER)
    ensures got.Block? <==> !Stops(Malloc(size), HeapState(nodes, free))
    ensures got.Block? ==> Does(Malloc(size), HeapState(nodes, free), got.addr, HeapState(nodes', free'))
  {
  }

  method DoMalloc(h: Heap, size: nat) returns (go: bool, r: nat)
    requires h.Valid()
    modifies h`nodes, h`states, h.nodes, h.pages`freePageCount, h.pages`free, h.pages.links`lists
    modifies h.pages.links.next, h.pages.links.prev, h.pages.bits
    ensures h.Valid() && (forall i :: 0 <= i < |h.nodes| ==> h.nodes[i] in old(h.nodes) || fresh(h.nodes[i]))
    ensures go <==> !Stops(Malloc(size), old(StateOf(h)))
    ensures go ==> Does(Malloc(size), old(StateOf(h)), r, StateOf(h))
    ensures go ==> Called(Malloc(size), LiveAreas(old(StateOf(h)).nodes), r, LiveAreas(h.states))
  {
    ghost var nodes, free := h.states, h.pages.free;
    var got := h.Kmalloc(size);
    MallocDoes(size, nodes, free, got, h.states, h.pages.free);
    MallocCalled(h, nodes, size, got);
    go, r := got.Block?, if got.Block? then got.addr else 0;
  }

  lemma FreeCalled(h: Heap, before: seq<Node>, nodes: seq<MallocNode>, free: set<nat>, p: nat)
    requires AddressesUnique(before) && exists i: nat, n :: h.FreedAt(before, nodes, free, p, i, n)
    ensures Called(Free(p), LiveAreas(before), 0, LiveAreas(h.states))
    ensures forall k :: 0 <= k < |h.nodes| ==> h.nodes[k] in nodes
  {
    var i: nat, n :| h.FreedAt(before, nodes, free, p, i, n);
    FreedTakesOne(before, h.states, p, i, n);
  }

  lemma FreeDoes(h: Heap, before: seq<Node>, nodes: seq<MallocNode>, free: set<nat>, p: nat)
    requires exists i: nat, n :: h.FreedAt(before, nodes, free, p, i, n)
    requires forall i :: 0 <= i < |nodes| && i < |before| ==> before[i].order == nodes[i].order && NodePages(nodes[i]) !! free
    ensures !Stops(Free(p), HeapState(before, free)) && Does(Free(p), HeapState(before, free), 0, StateOf(h))
  {
    var i: nat, n :| h.FreedAt(before, nodes, free, p, i, n);
    assert Owns(before[i], p);
    if i > 0 && n.free[0].size == NodeBytes(n.order) {
      PagesBack(free, nodes[i]);
    }
    assert GivenBack(HeapState(before, free), p, i, n, StateOf(h));
  }

  lemma PagesBack(free: set<nat>, n: MallocNode)
    requires NodePages(n) !! free
    ensures RunGone(free + NodePages(n), free, n.order)
  {
    var j := Shr(n.page, n.order);
    PagesMember(n.order, j);
    assert Whole(free + NodePages(n), n.order, j);
    assert free == free + NodePages(n) - Pages(n.order, j);
  }

  method DoFree(h: Heap, p: nat) returns (go: bool)
    requires h.Valid()
    modifies h`nodes, h`states, h.nodes, h.pages`freePageCount, h.pages`free, h.pages.links`lists
    modifies h.pages.links.next, h.pages.links.prev, h.pages.bits
    ensures h.Valid() && (forall i :: 0 <= i < |h.nodes| ==> h.nodes[i] in old(h.nodes))
    ensures go <==> !Stops(Free(p), old(StateOf(h)))
    ensures go ==> Does(Free(p), old(StateOf(h)), 0, StateOf(h))
    ensures go ==> Called(Free(p), LiveAreas(old(StateOf(h)).nodes), 0, LiveAreas(h.states))
  {
    ghost var before, nodes, free := h.states, h.nodes, h.pages.free;
    ValidUnique(h);
    BlocksOff(h);
    var stray;
    go, stray := h.Kfree(p);
    if go {
      FreeCalled(h, before, nodes, free, p);
      FreeDoes(h, before, nodes, free, p);
    }
  }

  /** No node has a free page. */
  lemma BlocksOff(h: Heap)
    requires h.Valid()
    ensures forall i :: 0 <= i < |h.nodes| ==> h.states[i].order == h.nodes[i].order && NodePages(h.nodes[i]) !! h.pages.free
  {
    forall i | 0 <= i < |h.nodes| ensures NodePages(h.nodes[i]) !! h.pages.free {
      assert h.nodes[i] in h.nodes;
    }
  }

  /** Call number k went on, and did what Does and Called say. */
  ghost predicate CalledAt(calls: seq<Call>, results: seq<nat>, heaps: seq<HeapState>, k: nat)
    requires k < |calls| && k < |results| && k + 1 < |heaps|
  {
    && !Stops(calls[k], heaps[k]) && Does(calls[k], heaps[k], results[k], heaps[k + 1])
    && Called(calls[k], LiveAreas(heaps[k].nodes), results[k], LiveAreas(heaps[k + 1].nodes))
    && BlocksApart(LiveAreas(heaps[k + 1].nodes))
  }

  /** heaps are the states before, between and after the calls that went on. */
  ghost predicate Calls(calls: seq<Call>, results: seq<nat>, heaps: seq<HeapState>) {
    && |results| <= |calls| && |heaps| == |results| + 1
    && forall k: nat :: k < |results| ==> CalledAt(calls, results, heaps, k)
  }

  lemma CallsGoOn(calls: seq<Call>, results: seq<nat>, heaps: seq<HeapState>, r: nat, v: HeapState)
    requires Calls(calls, results, heaps) && |results| < |calls|
    requires !Stops(calls[|results|], heaps[|results|]) && Does(calls[|results|], heaps[|results|], r, v)
    requires Called(calls[|results|], LiveAreas(heaps[|results|].nodes), r, LiveAreas(v.nodes)) && BlocksApart(LiveAreas(v.nodes))
    ensures Calls(calls, results + [r], heaps + [v])
  {
    forall k: nat | k < |results| + 1 ensures CalledAt(calls, results + [r], heaps + [v], k) {
      if k < |results| { assert CalledAt(calls, results, heaps, k); }
    }
  }

  /** One call, of either kind. */
  method DoCall(h: Heap, call: Call) returns (go: bool, r: nat)
    requires h.Valid()
    modifies h`nodes, h`states, h.nodes, h.pages`freePageCount, h.pages`free, h.pages.links`lists
    modifies h.pages.links.next, h.pages.links.prev, h.pages.bits
    ensures h.Valid() && (forall i :: 0 <= i < |h.nodes| ==> h.nodes[i] in old(h.nodes) || fresh(h.nodes[i]))
    ensures go <==> !Stops(call, old(StateOf(h)))
    ensures go ==> Does(call, old(StateOf(h)), r, StateOf(h))
    ensures go ==> Called(call, LiveAreas(old(StateOf(h)).nodes), r, LiveAreas(h.states))
  {
    match call {
      case Malloc(size) =>
        go, r := DoMalloc(h, size);
      case Free(p) =>
        r := 0;
        go := DoFree(h, p);
    }
  }

  /** Where a run stands: it may go on, or stopped at the call after the last one that went on. */
  ghost predicate Standing(calls: seq<Call>, results: seq<nat>, heaps: seq<HeapState>, go: bool, now: HeapState) {
    && Calls(calls, results, heaps)
    && if go then heaps[|results|] == now else |results| < |calls| && Stops(calls[|results|], heaps[|results|])
  }

  /** The next call of a run. */
  method CallNext(h: Heap, calls: seq<Call>, results: seq<nat>, ghost heaps: seq<HeapState>)
    returns (go: bool, results': seq<nat>, ghost heaps': seq<HeapState>)
    requires h.Valid() && Standing(calls, results, heaps, true, StateOf(h)) && |results| < |calls|
    modifies h`nodes, h`states, h.nodes, h.pages`freePageCount, h.pages`free, h.pages.links`lists
    modifies h.pages.links.next, h.pages.links.prev, h.pages.bits
    ensures h.Valid() && (forall i :: 0 <= i < |h.nodes| ==> h.nodes[i] in old(h.nodes) || fresh(h.nodes[i]))
    ensures Standing(calls, results', heaps', go, StateOf(h)) && heaps'[0] == heaps[0]
    ensures |results'| == if go then |results| + 1 else |results|
  {
    var r;
    go, r := DoCall(h, calls[|results|]);
    results', heaps' := results, heaps;
    if go {
      LiveApart(h);
      CallsGoOn(calls, results, heaps, r, StateOf(h));
      results', heaps' := results + [r], heaps + [StateOf(h)];
    }
  }

  /** Any run of kmalloc and kfree, up to the first call that Stops says the machine stops or goes astray at. */
  method Replay(h: Heap, calls: seq<Call>) returns (results: seq<nat>, ghost heaps: seq<HeapState>)
    requires h.Valid()
    modifies h`nodes, h`states, h.nodes, h.pages`freePageCount, h.pages`free, h.pages.links`lists
    modifies h.pages.links.next, h.pages.links.prev, h.pages.bits
    ensures h.Valid() && Calls(calls, results, heaps) && heaps[0] == old(StateOf(h))
    ensures |results| == |calls| ==> heaps[|results|] == StateOf(h)
    ensures |results| < |calls| ==> Stops(calls[|results|], heaps[|results|])
  {
    results, heaps := [], [StateOf(h)];
    var go := true;
    while go && |results| < |calls|
      invariant h.Valid() && Standing(calls, results, heaps, go, StateOf(h)) && heaps[0] == old(StateOf(h))
      invariant forall i :: 0 <= i < |h.nodes| ==> h.nodes[i] in old(h.nodes) || fresh(h.nodes[i])
      decreases |calls| - |results|, go
    {
      go, results, heaps := CallNext(h, calls, results, heaps);
    }
  }

  /** kfree of a block, with what it does to the nodes. */
  method FreeBlock(h: Heap, p: nat) returns (ok: bool, stray: bool)
    requires h.Valid()
    modifies h`nodes, h`states, h.nodes, h.pages`freePageCount, h.pages`free, h.pages.links`lists
    modifies h.pages.links.next, h.pages.links.prev, h.pages.bits
    ensures h.Valid() && (ok <==> !Stops(Free(p), old(StateOf(h))))
    ensures ok ==> Does(Free(p), old(StateOf(h)), 0, StateOf(h))
    ensures stray <==> StrayFree(old(h.states), p)
  {
    ghost var before, nodes, free := h.states, h.nodes, h.pages.free;
    BlocksOff(h);
    ok, stray := h.Kfree(p);
    if ok { FreeDoes(h, before, nodes, free, p); }
  }

  /** A block that was just handed out has an owner, so that kfree does not stop at it. */
  lemma NewIsOwned(before: seq<Node>, nodes: seq<Node>, order: nat, want: nat, addr: nat)
    requires ServedFirst(before, nodes, order, want, addr)
    ensures exists d :: 0 <= d < |nodes| && Owns(nodes[d], addr + HEADER)
  {
    var d: nat :| ServedFrom(before, nodes, order, want, addr, d);
    assert nodes[d].used[0].addr + HEADER == addr + HEADER && Owns(nodes[d], addr + HEADER);
  }

  lemma NewGoesOn(v: HeapState, size: nat, r: nat, v1: HeapState)
    requires Does(Malloc(size), v, r, v1)
    ensures !Stops(Free(r), v1)
  {
    var order, want := OrderFor(size), RealSize(size);
    if SomeServes(v.nodes, order, want) {
      NewIsOwned(v.nodes, v1.nodes, order, want, r - HEADER);
    } else {
      var now :| Prepended(v.nodes, now, 1, order, NodeBytes(order)) && ServedFirst(now, v1.nodes, order, want, r - HEADER);
      NewIsOwned(now, v1.nodes, order, want, r - HEADER);
    }
  }

  /** Both calls in a row, on values. */
  lemma BothDo(v: HeapState, size: nat, r: nat, v1: HeapState, v2: HeapState, stray: bool)
    requires Does(Malloc(size), v, r, v1) && AddressesUnique(v1.nodes)
    requires forall d :: 0 <= d < |v.nodes| ==> Coalesced(v.nodes[d].free)
    requires Does(Free(r), v1, 0, v2) && (stray <==> StrayFree(v1.nodes, r))
    ensures ThereAndBackOrNew(v, size, v2, stray)
  {
    var order, want, addr := OrderFor(size), RealSize(size), r - HEADER;
    assert v1 == HeapState(v1.nodes, v1.free);
    if SomeServes(v.nodes, order, want) {
      ServedAndBack(v, v1.nodes, v2, order, want, addr, r, stray);
    } else {
      var now :| Prepended(v.nodes, now, 1, order, NodeBytes(order)) && ServedFirst(now, v1.nodes, order, want, addr);
      FreshAndBack(v, now, v1.free, v1.nodes, v2, order, want, addr, r, stray);
    }
  }

  /**
   A block taken and given back at once.  If a node that was there served, nothing is left of it exactly if ComesBack
   says so, and NULL is written through exactly if a rest was cut off the first free area of the node: the usual case.
   If a new node had to be had, it stays.
   */
  method MallocThenFree(h: Heap, size: nat) returns (go: bool, stray: bool)
    requires h.Valid()
    modifies h`nodes, h`states, h.nodes, h.pages`freePageCount, h.pages`free, h.pages.links`lists
    modifies h.pages.links.next, h.pages.links.prev, h.pages.bits
    ensures h.Valid() && (go <==> !Stops(Malloc(size), old(StateOf(h))))
    ensures go ==> ThereAndBackOrNew(old(StateOf(h)), size, StateOf(h), stray)
  {
    ghost var v := StateOf(h);
    AllCoalesced(h);
    var r;
    go, r := DoMalloc(h, size);
    stray := false;
    if go {
      ghost var v1 := StateOf(h);
      ValidUnique(h);
      var ok;
      ok, stray := FreeBlock(h, r);
      NewGoesOn(v, size, r, v1);
      BothDo(v, size, r, v1, StateOf(h), stray);
    }
  }
}
