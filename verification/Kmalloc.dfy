/**
 kmalloc and kfree of kernel/mm_alloc.c: a list of nodes, each one block of the buddy allocator.
 */
module Kmalloc {
  import opened Dyadic
  import opened Areas
  import opened Buddy
  import opened Machine

  datatype Found = NotFound | At(addr: nat)

  /** BUG_MSG stops the machine; Astray is a read behind the page allocator's array of free areas. */
  datatype Outcome = Halted | Astray | Block(addr: nat)

  /** One pass of kmalloc over the nodes: it got an area, stopped the machine, went astray, or added a node. */
  datatype Attempt = Got(addr: nat) | Stop | Stray | Again

  /** LONG_ALIGN(size + sizeof(marea_t)) */
  function RealSize(size: nat): (r: nat)
    ensures r % 4 == 0 && size + HEADER <= r < size + HEADER + 4
  {
    (size + HEADER + 3) / 4 * 4
  }

  /** size >> PAGE_SHIFT: the pages that fit in the size become an order. */
  function OrderFor(size: nat): (order: nat)
    ensures order * 4096 <= size < (order + 1) * 4096
  {
    size / PAGE_SIZE
  }

  /** (PAGE_SIZE << order) - sizeof(malloc_node_t): what a node of that order can hold. */
  function NodeBytes(order: nat): (n: nat)
    ensures n % 4 == 0 && HEADER <= n && n + NODE_HEADER == PAGE_SIZE * Pow2(order)
  {
    PAGE_SIZE * Pow2(order) - NODE_HEADER
  }

  class MallocNode {
    const order: nat
    const page: nat
    var freeList: seq<Area>
    var usedList: seq<Area>
    ghost var lost: nat

    /** page_to_vir of the node's first page. */
    function Base(): nat {
      KVM_BASE + page * PAGE_SIZE
    }

    function Low(): nat {
      Base() + NODE_HEADER
    }

    function High(): nat {
      Low() + NodeBytes(order)
    }

    /** Both lists are sound, and account for every byte of the node but the lost ones. */
    ghost predicate Valid()
      reads this
    {
      && Sound(freeList, usedList, Low(), High())
      && Total(freeList) + Total(usedList) + lost == NodeBytes(order)
    }

    constructor (order: nat, page: nat)
      ensures Valid() && this.order == order && this.page == page
      ensures freeList == [Area(Low(), NodeBytes(order))] && usedList == [] && lost == 0
    {
      this.order := order;
      this.page := page;
      freeList := [Area(KVM_BASE + page * PAGE_SIZE + NODE_HEADER, NodeBytes(order))];
      usedList := [];
      lost := 0;
      new;
      FreshSound(Low(), NodeBytes(order));
    }

    ghost function State(): Node
      reads this
    {
      Node(order, freeList, usedList, lost)
    }

    /** The branch of kmalloc that cuts `want` bytes off area i, or takes all of it. */
    method TakeAt(i: nat, want: nat) returns (addr: nat)
      requires Valid() && HEADER <= want && want % 4 == 0 && FirstFit(freeList, want, i)
      modifies this
      ensures Valid() && lost >= old(lost)
      ensures Took(old(freeList), old(usedList), want, addr, freeList, usedList, lost - old(lost))
    {
      TookSound(freeList, usedList, Low(), High(), i, want);
      ghost var free', used' := TakenFree(freeList, i, want), [Area(freeList[i].addr, want)] + usedList;
      lost := lost + TakenLoss(freeList, i, want);
      addr := freeList[i].addr;
      usedList := [Area(addr, want)] + usedList;
      var rest := freeList[i].size - want;
      if rest > HEADER {
        freeList := freeList[i := Area(addr + want, rest)];
      } else {
        freeList := freeList[..i];
      }
      assert freeList == free' && usedList == used';
    }

    /** The first-fit loop of kmalloc over one node. */
    method Take(want: nat) returns (r: Found)
      requires Valid() && HEADER <= want && want % 4 == 0
      modifies this
      ensures Valid()
      ensures r.NotFound? ==> State() == old(State()) && !Serves(State(), order, want)
      ensures r.At? ==> r.addr >= HEADER && Serves(old(State()), order, want)
                        && Served(old(State()), State(), order, want, r.addr - HEADER)
    {
      var i: nat := 0;
      while i < |freeList|
        invariant i <= |freeList| && State() == old(State())
        invariant forall j :: 0 <= j < i ==> freeList[j].size < want
      {
        if freeList[i].size >= want {
          var addr := TakeAt(i, want);
          return At(addr + HEADER);
        }
        i := i + 1;
      }
      r := NotFound;
    }

    /** The search of kfree for the area in front of address p. */
    method Find(p: nat) returns (u: nat)
      ensures u <= |usedList| && (u < |usedList| ==> usedList[u].addr + HEADER == p)
      ensures forall j :: 0 <= j < u ==> usedList[j].addr + HEADER != p
    {
      u := 0;
      while u < |usedList| && usedList[u].addr + HEADER != p
        invariant u <= |usedList|
        invariant forall j :: 0 <= j < u ==> usedList[j].addr + HEADER != p
      {
        u := u + 1;
      }
    }

    /** Where kfree stops in the free list: before the first area past a. */
    method Place(addr: nat) returns (k: nat)
      requires Coalesced(freeList)
      ensures PlaceOf(freeList, addr, k)
    {
      k := 0;
      while k < |freeList| && addr >= freeList[k].addr
        invariant k <= |freeList| && forall j :: 0 <= j < k ==> freeList[j].addr <= addr
      {
        k := k + 1;
      }
    }

    /**
     The insertion of kfree.  `stray` says that it writes through mb_last while that is NULL: exactly when the area
     is put first and touches the next one.  The list is right without that write.
     */
    method Insert(a: Area, k: nat) returns (stray: bool)
      requires k <= |freeList|
      modifies this`freeList
      ensures freeList == GivenFree(old(freeList), a, k)
      ensures stray <==> k == 0 && TouchesNext(old(freeList), a, k)
    {
      var ma, at, next := a, -1, k;
      stray := false;
      if k == 0 {
        freeList := [a] + freeList;
        at, next := 0, 1;
      } else if freeList[k - 1].End() == a.addr {
        ma := Area(freeList[k - 1].addr, freeList[k - 1].size + a.size);
        freeList := freeList[k - 1 := ma];
        at := k - 1;
      }
      if next < |freeList| && ma.End() == freeList[next].addr {
        ma := Area(ma.addr, ma.size + freeList[next].size);
        stray := k == 0;
        if at >= 0 {
          freeList := freeList[..at] + [ma] + freeList[next + 1..];
        } else {
          freeList := freeList[..next] + [ma] + freeList[next + 1..];
        }
      }
    }

    /** kfree within the node that owns the area. */
    method Give(u: nat) returns (stray: bool)
      requires Valid() && u < |usedList|
      modifies this
      ensures Valid() && FreedIn(old(State()), State(), old(usedList)[u].addr + HEADER)
      ensures stray <==> FreedFirst(old(freeList), old(usedList)[u])
    {
      var a := usedList[u];
      usedList := usedList[..u] + usedList[u + 1..];
      var k := Place(a.addr);
      GiveSound(old(freeList), old(usedList), Low(), High(), u, k);
      GiveAccounts(freeList, a, k);
      TotalSplit(old(usedList), u);
      TotalConcat(old(usedList)[..u], old(usedList)[u + 1..]);
      lost := lost + if Lost(freeList, a, k) then a.size else 0;
      stray := Insert(a, k);
    }

    /** A node whose first free area fills it holds nothing else. */
    lemma WhenWhollyFree()
      requires Valid() && freeList != [] && freeList[0].size + NODE_HEADER == PAGE_SIZE * Pow2(order)
      ensures usedList == [] && lost == 0
    {
      WhollyFree(freeList, usedList, lost, NodeBytes(order));
    }
  }

  /** The pages of a node. */
  ghost function NodePages(n: MallocNode): set<nat> {
    Pages(n.order, Shr(n.page, n.order))
  }

  /** The node is one block of the page allocator, at the place its page index says. */
  ghost predicate IsBlock(n: MallocNode, limit: nat) {
    && n.order < MAX_ORDER && n.page == Shl(Shr(n.page, n.order), n.order)
    && forall p :: p in NodePages(n) ==> p < limit
  }

  /** The nodes are blocks that share no page with each other or with the free pages. */
  ghost predicate Blocks(nodes: seq<MallocNode>, limit: nat, free: set<nat>) {
    && (forall n :: n in nodes ==> IsBlock(n, limit) && NodePages(n) !! free)
    && forall i, j :: 0 <= i < j < |nodes| ==> nodes[i] != nodes[j] && NodePages(nodes[i]) !! NodePages(nodes[j])
  }

  lemma BlocksAdd(nodes: seq<MallocNode>, limit: nat, free: set<nat>, n: MallocNode)
    requires Blocks(nodes, limit, free) && n !in nodes && (forall p :: p in free ==> p < limit)
    requires n.order < MAX_ORDER && n.page == Shl(Shr(n.page, n.order), n.order) && NodePages(n) <= free
    ensures Blocks([n] + nodes, limit, free - NodePages(n))
  {
    var l := [n] + nodes;
    forall i, j | 0 <= i < j < |l| ensures l[i] != l[j] && NodePages(l[i]) !! NodePages(l[j]) {
      assert l[j] in nodes;
    }
  }

  lemma BlocksRemove(nodes: seq<MallocNode>, limit: nat, free: set<nat>, i: nat)
    requires Blocks(nodes, limit, free) && i < |nodes|
    ensures Blocks(nodes[..i] + nodes[i + 1..], limit, free + NodePages(nodes[i]))
    ensures nodes[i] !in nodes[..i] + nodes[i + 1..]
  {
    var l := nodes[..i] + nodes[i + 1..];
    forall j | 0 <= j < |l| ensures l[j] == nodes[if j < i then j else j + 1] && l[j] in nodes {
    }
  }

  lemma FewerLeft(all: set<nat>, part: set<nat>)
    requires part <= all && 0 < |part|
    ensures |all - part| < |all|
  {
    assert all == (all - part) + part;
    assert |all| == |all - part| + |part|;
  }

  /** The area in front of p, in the first node and at the first place where there is one, is freed first. */
  ghost predicate StrayFree(nodes: seq<Node>, p: nat) {
    exists i: nat, u: nat :: OwnedAt(nodes, p, i, u) && FreedFirst(nodes[i].free, nodes[i].used[u])
  }

  /** Area u of node i is the first one in front of p. */
  ghost predicate OwnedAt(nodes: seq<Node>, p: nat, i: nat, u: nat) {
    && i < |nodes| && u < |nodes[i].used| && nodes[i].used[u].addr + HEADER == p
    && (forall j :: 0 <= j < i ==> !Owns(nodes[j], p))
    && forall v :: 0 <= v < u ==> nodes[i].used[v].addr + HEADER != p
  }

  lemma StrayAt(nodes: seq<Node>, p: nat, i: nat, u: nat)
    requires OwnedAt(nodes, p, i, u)
    ensures StrayFree(nodes, p) <==> FreedFirst(nodes[i].free, nodes[i].used[u])
  {
    forall j: nat, v: nat | OwnedAt(nodes, p, j, v) ensures j == i && v == u {
      assert Owns(nodes[i], p) && Owns(nodes[j], p);
    }
  }

  /** The first k nodes cannot serve. */
  ghost predicate NoneServes(nodes: seq<Node>, k: nat, order: nat, want: nat) {
    k <= |nodes| && forall j :: 0 <= j < k ==> !Serves(nodes[j], order, want)
  }

  lemma FirstServed(before: seq<Node>, after: seq<Node>, order: nat, want: nat, addr: nat, k: nat)
    requires NoneServes(before, k, order, want) && k < |before| == |after| && after == before[k := after[k]]
    requires Serves(before[k], order, want) && Served(before[k], after[k], order, want, addr)
    ensures SomeServes(before, order, want) && ServedFirst(before, after, order, want, addr)
  {
    assert ServedFrom(before, after, order, want, addr, k);
  }

  /** What one pass over the nodes comes to, when the page allocator can or cannot serve. */
  ghost predicate PassOk(r: Attempt, now: seq<Node>, after: seq<Node>, order: nat, want: nat, bytes: nat, can: bool) {
    match r
    case Got(addr) => addr >= HEADER && SomeServes(now, order, want) && ServedFirst(now, after, order, want, addr - HEADER)
    case Stop => !SomeServes(now, order, want) && !can && order != MAX_ORDER
    case Stray => !SomeServes(now, order, want) && order == MAX_ORDER
    case Again => !SomeServes(now, order, want) && can && Prepended(now, after, 1, order, bytes)
  }

  /** The retry loop after m new nodes; `can` says whether the page allocator could serve at its start. */
  ghost predicate RetryOk(r: Attempt, before: seq<Node>, now: seq<Node>, m: nat, order: nat, want: nat, bytes: nat, can: bool) {
    match r
    case Got(addr) =>
      && addr >= HEADER && m <= 1 && AllocatedBy(before, now, order, want, bytes, addr - HEADER)
      && if m == 0 then SomeServes(before, order, want) else !SomeServes(before, order, want) && want <= bytes && can
    case Stop => !SomeServes(before, order, want) && (want > bytes || !can) && order != MAX_ORDER
    case Stray => !SomeServes(before, order, want) && order == MAX_ORDER
    case Again =>
      && Prepended(before, now, m, order, bytes)
      && (m > 0 ==> !SomeServes(before, order, want) && can) && (m > 1 ==> want > bytes)
  }

  /** A fresh node serves exactly what it has the bytes for, so that a second one is taken only in vain. */
  lemma OnceMore(r: Attempt, before: seq<Node>, now: seq<Node>, after: seq<Node>, m: nat,
                 order: nat, want: nat, bytes: nat, can: bool, canNow: bool)
    requires RetryOk(Again, before, now, m, order, want, bytes, can) && (m == 0 ==> can == canNow)
    requires PassOk(r, now, after, order, want, bytes, canNow)
    ensures RetryOk(r, before, after, if r.Again? then m + 1 else m, order, want, bytes, can)
  {
    FreshServes(before, now, m, order, bytes, want);
    match r
    case Got(addr) => AllocatedIs(before, now, after, m, order, want, bytes, addr - HEADER);
    case Again => PrependedAgain(before, now, after, m, order, bytes);
    case Stop =>
    case Stray =>
  }

  /** How the retry loop ends. */
  lemma RetryMeans(r: Attempt, before: seq<Node>, now: seq<Node>, m: nat, order: nat, want: nat, bytes: nat, can: bool)
    requires RetryOk(r, before, now, m, order, want, bytes, can) && !r.Again?
    requires order >= MAX_ORDER ==> !SomeServes(before, order, want) && !can
    ensures r.Stray? <==> order == MAX_ORDER
    ensures r.Stop? <==> order != MAX_ORDER && !SomeServes(before, order, want) && (want > bytes || !can)
    ensures r.Got? ==> r.addr >= HEADER && AllocatedBy(before, now, order, want, bytes, r.addr - HEADER)
    ensures r.Got? ==> m == if SomeServes(before, order, want) then 0 else 1
  {
  }

  /** Exactly the pages of one aligned run of 2^order free pages went. */
  ghost predicate RunGone(before: set<nat>, after: set<nat>, order: nat) {
    exists j: nat :: Whole(before, order, j) && after == before - Pages(order, j)
  }

  /** A whole run is part of the free pages, and leaves fewer of them. */
  lemma RunTaken(free: set<nat>, order: nat, j: nat)
    requires Whole(free, order, j)
    ensures Pages(order, j) <= free && |free - Pages(order, j)| < |free|
  {
    PagesMember(order, j);
    PagesSize(order, j);
    FewerLeft(free, Pages(order, j));
  }

  class Heap {
    const pages: PageAllocator
    var nodes: seq<MallocNode>
    ghost var states: seq<Node>

    /**
     The physical memory ends before the last page kernel addresses can reach, so that no area ends at
     address 0, which kfree would take for a free neighbour.
     */
    ghost predicate Valid()
      reads this, nodes, pages, pages.links, pages.links.next, pages.links.prev, pages.bits
    {
      && pages.Valid() && pages.pageCount < 0x4_0000 && nodes != []
      && Blocks(nodes, pages.pageCount, pages.free) && NodesOk()
    }

    /** The nodes by themselves. */
    ghost predicate NodesOk()
      reads this, nodes
    {
      && (forall n :: n in nodes ==> n.Valid())
      && (forall i, j :: 0 <= i < j < |nodes| ==> nodes[i] != nodes[j])
      && |states| == |nodes| && forall i :: 0 <= i < |nodes| ==> states[i] == nodes[i].State()
    }

    /** kmalloc_init: one page for the first node. */
    constructor (pages: PageAllocator)
      requires pages.Valid() && pages.pageCount < 0x4_0000 && pages.free != {}
      modifies pages`freePageCount, pages`free, pages.links`lists, pages.links.next, pages.links.prev, pages.bits
      ensures Valid() && this.pages == pages && |nodes| == 1 && fresh(nodes[0])
      ensures nodes[0].order == 0 && nodes[0].usedList == []
    {
      this.pages := pages;
      nodes := [];
      new;
      ghost var p :| p in pages.free;
      assert Whole(pages.free, 0, p) by { assert forall q: nat :: Shr(q, 0) == q; }
      var r := pages.AllocPages(0);
      PagesMember(0, Shr(r.idx, 0));
      var n := new MallocNode(0, r.idx);
      nodes := [n];
      states := [n.State()];
    }

    /** The inner loop of kmalloc on node i. */
    method TakeFrom(i: nat, order: nat, want: nat) returns (r: Found)
      requires NodesOk() && HEADER <= want && want % 4 == 0 && i < |nodes| && nodes[i].order >= order
      modifies nodes[i], this`states
      ensures NodesOk()
      ensures r.NotFound? ==> states == old(states) && !Serves(states[i], order, want)
      ensures r.At? ==> r.addr >= HEADER && Serves(old(states)[i], order, want)
      ensures r.At? ==> states == old(states)[i := states[i]]
                        && Served(old(states)[i], states[i], order, want, r.addr - HEADER)
    {
      r := nodes[i].Take(want);
      states := states[i := nodes[i].State()];
    }

    /** One turn of the outer loop of kmalloc: node i, when its order is sufficient. */
    method TryNode(i: nat, order: nat, want: nat) returns (r: Found)
      requires NodesOk() && HEADER <= want && want % 4 == 0 && i < |nodes|
      modifies nodes[i], this`states
      ensures NodesOk()
      ensures r.NotFound? ==> states == old(states) && !Serves(states[i], order, want)
      ensures r.At? ==> r.addr >= HEADER && Serves(old(states)[i], order, want)
      ensures r.At? ==> states == old(states)[i := states[i]]
                        && Served(old(states)[i], states[i], order, want, r.addr - HEADER)
    {
      r := NotFound;
      if nodes[i].order >= order {
        r := TakeFrom(i, order, want);
      }
    }

    /** The two nested loops of kmalloc: the first node of sufficient order that has an area serves. */
    method TakeAnywhere(order: nat, want: nat) returns (r: Found)
      requires NodesOk() && HEADER <= want && want % 4 == 0
      modifies nodes, this`states
      ensures NodesOk()
      ensures r.NotFound? ==> states == old(states) && !SomeServes(states, order, want)
      ensures r.At? ==> r.addr >= HEADER && SomeServes(old(states), order, want)
                        && ServedFirst(old(states), states, order, want, r.addr - HEADER)
    {
      ghost var before := states;
      var k: nat := 0;
      r := NotFound;
      while r.NotFound? && k < |nodes|
        invariant NodesOk()
        invariant r.NotFound? ==> k <= |nodes| && states == before && NoneServes(before, k, order, want)
        invariant r.At? ==> r.addr >= HEADER && ServedFirst(before, states, order, want, r.addr - HEADER)
        invariant r.At? ==> SomeServes(before, order, want)
        decreases r.NotFound?, |nodes| - k
      {
        r := TryNode(k, order, want);
        if r.At? {
          FirstServed(before, states, order, want, r.addr - HEADER, k);
        }
        k := k + 1;
      }
    }

    /** Makes a run of pages just taken out of those in `was` the first node. */
    method PutNode(order: nat, page: nat, ghost was: set<nat>)
      requires pages.Valid() && pages.pageCount < 0x4_0000 && nodes != [] && NodesOk() && Blocks(nodes, pages.pageCount, was)
      requires order < MAX_ORDER && page == Shl(Shr(page, order), order) && Pages(order, Shr(page, order)) <= was
      requires pages.free == was - Pages(order, Shr(page, order)) && forall p :: p in was ==> p < pages.pageCount
      modifies this`nodes, this`states
      ensures Valid() && |nodes| == |old(nodes)| + 1 && nodes[1..] == old(nodes) && fresh(nodes[0])
      ensures nodes[0].order == order && nodes[0].page == page
      ensures FreshNode(states[0], order, NodeBytes(order)) && states[1..] == old(states)
    {
      var n := new MallocNode(order, page);
      BlocksAdd(nodes, pages.pageCount, was, n);
      nodes := [n] + nodes;
      states := [n.State()] + states;
    }

    /** new_malloc_node at the head of the list. */
    method AddNode(order: nat) returns (r: Attempt)
      requires Valid()
      modifies this`nodes, this`states, pages`freePageCount, pages`free, pages.links`lists, pages.links.next, pages.links.prev, pages.bits
      ensures Valid() && !r.Got?
      ensures r.Again? <==> CanServe(old(pages.free), order)
      ensures r.Stray? <==> order == MAX_ORDER
      ensures !r.Again? ==> states == old(states) && nodes == old(nodes) && pages.free == old(pages.free)
      ensures r.Again? ==> |nodes| == |old(nodes)| + 1 && nodes[1..] == old(nodes) && fresh(nodes[0]) && nodes[0].order == order
      ensures r.Again? ==> Prepended(old(states), states, 1, order, NodeBytes(order))
      ensures r.Again? ==> RunGone(old(pages.free), pages.free, order)
      ensures r.Again? ==> |pages.free| < |old(pages.free)|
      ensures forall i :: 0 <= i < |nodes| ==> nodes[i] in old(nodes) || fresh(nodes[i])
    {
      var p := pages.AllocPagesOrStop(order);
      r := if p.Stopped? then Stop else if p.Wild? then Stray else Again;
      if p.Granted? {
        RunTaken(old(pages.free), order, Shr(p.idx, order));
        PutNode(order, p.idx, old(pages.free));
      }
    }

    /** kmalloc from its retry label on, up to the end of its loops. */
    method Scan(order: nat, want: nat) returns (r: Attempt)
      requires Valid() && HEADER <= want && want % 4 == 0
      modifies this`states, nodes
      ensures Valid() && (r.Got? || r.Again?)
      ensures r.Got? ==> PassOk(r, old(states), states, order, want, NodeBytes(order), CanServe(old(pages.free), order))
      ensures r.Again? ==> states == old(states) && !SomeServes(states, order, want)
    {
      var found := TakeAnywhere(order, want);
      r := if found.At? then Got(found.addr) else Again;
    }

    /** kmalloc from its retry label on, up to the next goto. */
    method Try(order: nat, want: nat) returns (r: Attempt)
      requires Valid() && HEADER <= want && want % 4 == 0
      modifies this`nodes, this`states, nodes, pages`freePageCount, pages`free, pages.links`lists, pages.links.next, pages.links.prev, pages.bits
      ensures Valid()
      ensures PassOk(r, old(states), states, order, want, NodeBytes(order), CanServe(old(pages.free), order))
      ensures !r.Again? ==> nodes == old(nodes) && pages.free == old(pages.free)
      ensures r.Again? ==> RunGone(old(pages.free), pages.free, order) && |pages.free| < |old(pages.free)|
      ensures forall i :: 0 <= i < |nodes| ==> nodes[i] in old(nodes) || fresh(nodes[i])
    {
      r := Scan(order, want);
      if r.Again? {
        r := AddNode(order);
      }
    }

    /** Nodes are of orders the page allocator has. */
    lemma OrdersSmall(order: nat, want: nat)
      requires Valid()
      ensures order >= MAX_ORDER ==> !SomeServes(states, order, want)
    {
      forall i | 0 <= i < |states| ensures states[i].order < MAX_ORDER {
        assert nodes[i] in nodes && IsBlock(nodes[i], pages.pageCount);
      }
    }

    /** One turn of the retry loop, after m nodes were added to those of before. */
    method Retry(order: nat, want: nat, ghost before: seq<Node>, ghost m: nat, ghost can: bool) returns (r: Attempt)
      requires Valid() && HEADER <= want && want % 4 == 0
      requires RetryOk(Again, before, states, m, order, want, NodeBytes(order), can)
      requires m == 0 ==> can == CanServe(pages.free, order)
      modifies this`nodes, this`states, nodes, pages`freePageCount, pages`free, pages.links`lists, pages.links.next, pages.links.prev, pages.bits
      ensures Valid()
      ensures RetryOk(r, before, states, if r.Again? then m + 1 else m, order, want, NodeBytes(order), can)
      ensures !r.Again? ==> nodes == old(nodes) && pages.free == old(pages.free)
      ensures r.Again? ==> RunGone(old(pages.free), pages.free, order) && |pages.free| < |old(pages.free)|
      ensures forall i :: 0 <= i < |nodes| ==> nodes[i] in old(nodes) || fresh(nodes[i])
    {
      ghost var now, free := states, pages.free;
      r := Try(order, want);
      OnceMore(r, before, now, states, m, order, want, NodeBytes(order), can, CanServe(free, order));
    }

    /** The retry loop of kmalloc, which adds m nodes. */
    method RetryLoop(order: nat, want: nat) returns (step: Attempt, ghost m: nat)
      requires Valid() && HEADER <= want && want % 4 == 0
      modifies this`nodes, this`states, nodes, pages`freePageCount, pages`free, pages.links`lists, pages.links.next, pages.links.prev, pages.bits
      ensures Valid() && !step.Again?
      ensures RetryOk(step, old(states), states, m, order, want, NodeBytes(order), CanServe(old(pages.free), order))
      ensures m == 0 ==> nodes == old(nodes) && pages.free == old(pages.free)
      ensures m == 1 ==> RunGone(old(pages.free), pages.free, order)
      ensures forall i :: 0 <= i < |nodes| ==> nodes[i] in old(nodes) || fresh(nodes[i])
    {
      ghost var before, can := states, CanServe(pages.free, order);
      m := 0;
      step := Again;
      while step.Again?
        invariant Valid() && (forall i :: 0 <= i < |nodes| ==> nodes[i] in old(nodes) || fresh(nodes[i]))
        invariant RetryOk(step, before, states, m, order, want, NodeBytes(order), can)
        invariant m == 0 ==> nodes == old(nodes) && pages.free == old(pages.free)
        invariant m == 1 ==> RunGone(old(pages.free), pages.free, order)
        decreases step.Again?, |pages.free|
      {
        step := Retry(order, want, before, m, can);
        m := if step.Again? then m + 1 else m;
      }
    }

    /**
     kmalloc.  When no node can serve and a new one would be too small as well, it takes nodes until the page
     allocator has none left, and stops the machine; otherwise it adds at most one node.  Sizes from twelve pages up
     stop the machine; those from eleven get past the page allocator's guard.
     */
    method Kmalloc(size: nat) returns (r: Outcome)
      requires Valid()
      modifies this`nodes, this`states, nodes, pages`freePageCount, pages`free, pages.links`lists, pages.links.next, pages.links.prev, pages.bits
      ensures Valid()
      ensures r.Astray? <==> 45056 <= size < 49152
      ensures size >= 49152 ==> r.Halted?
      ensures r.Halted? <==> OrderFor(size) != MAX_ORDER && !SomeServes(old(states), OrderFor(size), RealSize(size))
                             && (RealSize(size) > NodeBytes(OrderFor(size)) || !CanServe(old(pages.free), OrderFor(size)))
      ensures r.Block? && SomeServes(old(states), OrderFor(size), RealSize(size)) ==>
                nodes == old(nodes) && pages.free == old(pages.free)
      ensures r.Block? && !SomeServes(old(states), OrderFor(size), RealSize(size)) ==>
                RunGone(old(pages.free), pages.free, OrderFor(size))
      ensures r.Block? ==> r.addr >= HEADER
      ensures r.Block? ==>
                AllocatedBy(old(states), states, OrderFor(size), RealSize(size), NodeBytes(OrderFor(size)), r.addr - HEADER)
      ensures forall i :: 0 <= i < |nodes| ==> nodes[i] in old(nodes) || fresh(nodes[i])
    {
      OrdersSmall(OrderFor(size), RealSize(size));
      ghost var before, can := states, CanServe(pages.free, OrderFor(size));
      var step;
      ghost var m;
      step, m := RetryLoop(OrderFor(size), RealSize(size));
      RetryMeans(step, before, states, m, OrderFor(size), RealSize(size), NodeBytes(OrderFor(size)), can);
      r := if step.Got? then Block(step.addr) else if step.Stray? then Astray else Halted;
    }

    /** The effect of kfree(p) on the nodes: the owner of p changed, or went back to the page allocator. */
    ghost predicate FreedAt(before: seq<Node>, was: seq<MallocNode>, free: set<nat>, p: nat, i: nat, n: Node)
      reads this, pages
    {
      && i < |before| == |was| && FreedIn(before[i], n, p)
      && if i > 0 && n.free[0].size == NodeBytes(n.order) then
           n.used == [] && n.lost == 0
           && states == before[..i] + before[i + 1..] && nodes == was[..i] + was[i + 1..] && pages.free == free + NodePages(was[i])
         else
           states == before[i := n] && nodes == was && pages.free == free
    }

    /** mnp_last->next = mnp->next */
    method Unlink(i: nat)
      requires NodesOk() && 0 < i < |nodes|
      modifies this`nodes, this`states
      ensures NodesOk() && nodes != []
      ensures nodes == old(nodes)[..i] + old(nodes)[i + 1..] && states == old(states)[..i] + old(states)[i + 1..]
    {
      nodes := nodes[..i] + nodes[i + 1..];
      states := states[..i] + states[i + 1..];
    }

    /** The page recycling of kfree: node i, wholly free, leaves the list and its pages are freed. */
    method Recycle(i: nat)
      requires Valid() && 0 < i < |nodes|
      modifies this`nodes, this`states, pages`freePageCount, pages`free, pages.links`lists, pages.links.next, pages.links.prev, pages.bits
      ensures Valid() && pages.free == old(pages.free) + NodePages(old(nodes)[i])
      ensures nodes == old(nodes)[..i] + old(nodes)[i + 1..] && states == old(states)[..i] + old(states)[i + 1..]
    {
      var n := nodes[i];
      BlocksRemove(nodes, pages.pageCount, pages.free, i);
      assert IsBlock(n, pages.pageCount);
      Unlink(i);
      pages.FreePages(n.page, n.order);
    }

    /** kfree on the node that owns p. */
    method FreeIn(p: nat, i: nat, u: nat) returns (stray: bool)
      requires Valid() && i < |nodes| && u < |nodes[i].usedList| && nodes[i].usedList[u].addr + HEADER == p
      modifies this`nodes, this`states, nodes, pages`freePageCount, pages`free, pages.links`lists, pages.links.next, pages.links.prev, pages.bits
      ensures Valid() && exists n :: FreedAt(old(states), old(nodes), old(pages.free), p, i, n)
      ensures stray <==> FreedFirst(old(states)[i].free, old(states)[i].used[u])
    {
      stray := nodes[i].Give(u);
      ghost var n := nodes[i].State();
      states := states[i := n];
      if i > 0 {
        if nodes[i].freeList[0].size + NODE_HEADER == PAGE_SIZE * Pow2(nodes[i].order) {
          nodes[i].WhenWhollyFree();
          Recycle(i);
        }
      }
      assert FreedAt(old(states), old(nodes), old(pages.free), p, i, n);
    }

    /**
     kfree; an address that no node owns stops the machine.  `stray` says that it writes through NULL on the way:
     when the area goes before all free ones of its node and touches the first of them.
     */
    method Kfree(p: nat) returns (ok: bool, stray: bool)
      requires Valid()
      modifies this`nodes, this`states, nodes, pages`freePageCount, pages`free, pages.links`lists, pages.links.next, pages.links.prev, pages.bits
      ensures Valid()
      ensures !ok ==> states == old(states) && nodes == old(nodes) && pages.free == old(pages.free)
                      && forall i :: 0 <= i < |states| ==> !Owns(states[i], p)
      ensures ok ==> exists i: nat, n :: FreedAt(old(states), old(nodes), old(pages.free), p, i, n)
      ensures stray <==> StrayFree(old(states), p)
    {
      stray := false;
      var i: nat := 0;
      while i < |nodes|
        invariant i <= |nodes| && Valid() && states == old(states) && nodes == old(nodes) && pages.free == old(pages.free)
        invariant forall j :: 0 <= j < i ==> !Owns(states[j], p)
      {
        var u := nodes[i].Find(p);
        if u < |nodes[i].usedList| {
          stray := FreeIn(p, i, u);
          StrayAt(old(states), p, i, u);
          return true, stray;
        }
        i := i + 1;
      }
      ok := false;
    }
  }
}
