/**
 The memory areas of one kmalloc node (kernel/mm_alloc.c): a list of free areas in address order and
 a list of areas handed out, all inside the node's pages.
 */
module Areas {

  const HEADER: nat := 8          // sizeof(marea_t)
  const NODE_HEADER: nat := 16    // sizeof(malloc_node_t)

  /** An area: its address, and its size with its own header. */
  datatype Area = Area(addr: nat, size: nat) {
    function End(): nat { addr + size }
  }

  ghost predicate Apart(a: Area, b: Area) {
    a.End() <= b.addr || b.End() <= a.addr
  }

  /** The area is aligned, has room for its header, and lies within [lo, hi). */
  ghost predicate Within(a: Area, lo: nat, hi: nat) {
    lo <= a.addr && a.End() <= hi && a.addr % 4 == 0 && a.size % 4 == 0 && HEADER <= a.size
  }

  /** In address order, and no area ends where the next one starts. */
  ghost predicate Coalesced(l: seq<Area>) {
    forall i, j :: 0 <= i < j < |l| ==> l[i].End() < l[j].addr
  }

  ghost predicate AllApart(l: seq<Area>) {
    forall i, j :: 0 <= i < j < |l| ==> Apart(l[i], l[j])
  }

  /** What both lists of a node keep. */
  ghost predicate Sound(free: seq<Area>, used: seq<Area>, lo: nat, hi: nat) {
    && Coalesced(free) && AllApart(used)
    && (forall a :: a in free ==> Within(a, lo, hi))
    && (forall a :: a in used ==> Within(a, lo, hi))
    && (forall a, b :: a in free && b in used ==> Apart(a, b))
  }

  /** The bytes of a list of areas. */
  function Total(l: seq<Area>): nat {
    if l == [] then 0 else l[0].size + Total(l[1..])
  }

  lemma {:induction false} TotalConcat(a: seq<Area>, b: seq<Area>)
    ensures Total(a + b) == Total(a) + Total(b)
  {
    if a == [] {
      assert a + b == b;
    } else {
      assert (a + b)[1..] == a[1..] + b;
      TotalConcat(a[1..], b);
    }
  }

  lemma TotalOne(a: Area)
    ensures Total([a]) == a.size
  {
  }

  lemma TotalSplit(l: seq<Area>, i: nat)
    requires i < |l|
    ensures Total(l) == Total(l[..i]) + l[i].size + Total(l[i + 1..])
  {
    assert l == l[..i] + l[i..];
    TotalConcat(l[..i], l[i..]);
    TotalNext(l, i);
  }

  lemma TotalNext(l: seq<Area>, i: nat)
    requires i < |l|
    ensures Total(l[i..]) == l[i].size + Total(l[i + 1..])
  {
    assert l[i..][1..] == l[i + 1..];
  }

  /** A new node: one free area that fills it. */
  lemma FreshSound(lo: nat, size: nat)
    requires lo % 4 == 0 && size % 4 == 0 && HEADER <= size
    ensures Sound([Area(lo, size)], [], lo, lo + size) && Total([Area(lo, size)]) == size
  {
    TotalOne(Area(lo, size));
  }

  // ------------------------------------------------------------------ taking an area

  /** The free list after area i, of at least `want` bytes, was taken: what is left of it, or its tail lost. */
  function TakenFree(free: seq<Area>, i: nat, want: nat): seq<Area>
    requires i < |free| && want <= free[i].size
  {
    var rest := free[i].size - want;
    if rest > HEADER then free[i := Area(free[i].addr + want, rest)] else free[..i]
  }

  /** The bytes that are on neither list afterwards. */
  function TakenLoss(free: seq<Area>, i: nat, want: nat): nat
    requires i < |free| && want <= free[i].size
  {
    var rest := free[i].size - want;
    if rest > HEADER then 0 else rest + Total(free[i + 1..])
  }

  /** Area a lies inside area b. */
  ghost predicate Inside(a: Area, b: Area) {
    b.addr <= a.addr && a.End() <= b.End()
  }

  lemma TakenPiece(free: seq<Area>, lo: nat, hi: nat, i: nat, want: nat, k: nat)
    requires Coalesced(free) && (forall a :: a in free ==> Within(a, lo, hi))
    requires i < |free| && HEADER <= want <= free[i].size && want % 4 == 0 && k < |TakenFree(free, i, want)|
    ensures var b := TakenFree(free, i, want)[k];
            k < |free| && Within(b, lo, hi) && Inside(b, free[k]) && Apart(b, Area(free[i].addr, want))
  {
    assert free[k] in free && free[i] in free;
    if k < i { assert free[k].End() < free[i].addr; }
    if i < k { assert free[i].End() < free[k].addr; }
  }

  lemma TakenCoalesced(free: seq<Area>, i: nat, want: nat)
    requires Coalesced(free) && i < |free| && want <= free[i].size
    ensures Coalesced(TakenFree(free, i, want))
  {
    var f := TakenFree(free, i, want);
    forall j, k | 0 <= j < k < |f| ensures f[j].End() < f[k].addr {
      assert free[j].End() < free[k].addr;
    }
  }

  /** Taking an area keeps both lists sound. */
  lemma TakeSound(free: seq<Area>, used: seq<Area>, lo: nat, hi: nat, i: nat, want: nat)
    requires Sound(free, used, lo, hi) && i < |free| && HEADER <= want <= free[i].size && want % 4 == 0
    ensures Sound(TakenFree(free, i, want), [Area(free[i].addr, want)] + used, lo, hi)
  {
    var a := Area(free[i].addr, want);
    var free', used' := TakenFree(free, i, want), [a] + used;
    assert free[i] in free;
    TakenCoalesced(free, i, want);
    forall b | b in free' ensures Within(b, lo, hi) && Apart(b, a) && forall c :: c in used ==> Apart(b, c) {
      var k :| 0 <= k < |free'| && free'[k] == b;
      TakenPiece(free, lo, hi, i, want, k);
      assert free[k] in free;
    }
    forall j, k | 0 <= j < k < |used'| ensures Apart(used'[j], used'[k]) {
      assert used'[k] in used;
    }
  }

  lemma TakeAccounts(free: seq<Area>, i: nat, want: nat)
    requires i < |free| && want <= free[i].size
    ensures Total(TakenFree(free, i, want)) + want + TakenLoss(free, i, want) == Total(free)
  {
    TotalSplit(free, i);
    if free[i].size - want > HEADER {
      var free' := TakenFree(free, i, want);
      TotalSplit(free', i);
      assert free'[..i] == free[..i] && free'[i + 1..] == free[i + 1..];
    }
  }

  /**
   Taking an area loses nothing exactly when the rest is cut off as a free area of its own, or the area fits
   to the byte and was the last one.
   */
  lemma TakenLosesNothing(free: seq<Area>, i: nat, want: nat)
    requires i < |free| && want <= free[i].size && forall a :: a in free ==> 0 < a.size
    ensures TakenLoss(free, i, want) == 0 <==> free[i].size - want > HEADER || (free[i].size == want && i == |free| - 1)
  {
    if i < |free| - 1 { assert free[i + 1..][0] == free[i + 1] && free[i + 1] in free; }
  }

  /** An exact fit that is not the last area drops the areas behind it: here 64 free bytes are gone. */
  lemma TailDropped()
    ensures var free, used := [Area(16, 16), Area(48, 64)], [Area(32, 16)];
            && Sound(free, used, 16, 112) && Total(free) == 80
            && FirstFit(free, 16, 0) && TakenFree(free, 0, 16) == [] && TakenLoss(free, 0, 16) == 64
  {
    var free := [Area(16, 16), Area(48, 64)];
    assert free[1..] == [Area(48, 64)];
    TotalOne(Area(48, 64));
  }

  /** First fit: the first area with `want` bytes was taken, and `loss` bytes dropped off both lists. */
  ghost predicate Took(free: seq<Area>, used: seq<Area>, want: nat, addr: nat, free': seq<Area>, used': seq<Area>, loss: nat) {
    exists i: nat :: FirstFit(free, want, i) && addr == free[i].addr
                && free' == TakenFree(free, i, want) && used' == [Area(addr, want)] + used && loss == TakenLoss(free, i, want)
  }

  ghost predicate FirstFit(free: seq<Area>, want: nat, i: nat) {
    i < |free| && free[i].size >= want && forall j :: 0 <= j < i ==> free[j].size < want
  }

  lemma TookSound(free: seq<Area>, used: seq<Area>, lo: nat, hi: nat, i: nat, want: nat)
    requires Sound(free, used, lo, hi) && FirstFit(free, want, i) && HEADER <= want && want % 4 == 0
    ensures var free', used' := TakenFree(free, i, want), [Area(free[i].addr, want)] + used;
            && Sound(free', used', lo, hi)
            && Total(free') + Total(used') + TakenLoss(free, i, want) == Total(free) + Total(used)
            && Took(free, used, want, free[i].addr, free', used', TakenLoss(free, i, want))
  {
    TakeSound(free, used, lo, hi, i, want);
    TakeAccounts(free, i, want);
  }

  // ------------------------------------------------------------------ giving an area back

  /** The place of address x in an address-ordered list: where the loop over mb stops. */
  ghost predicate PlaceOf(free: seq<Area>, x: nat, k: nat) {
    && k <= |free|
    && (forall j :: 0 <= j < k ==> free[j].addr <= x)
    && (k < |free| ==> x < free[k].addr)
  }

  predicate TouchesPrev(free: seq<Area>, a: Area, k: nat)
    requires k <= |free|
  {
    k > 0 && free[k - 1].End() == a.addr
  }

  predicate TouchesNext(free: seq<Area>, a: Area, k: nat)
    requires k <= |free|
  {
    k < |free| && a.End() == free[k].addr
  }

  /** kfree neither merges the area nor puts it first: it is on no list afterwards. */
  predicate Lost(free: seq<Area>, a: Area, k: nat)
    requires k <= |free|
  {
    k > 0 && !TouchesPrev(free, a, k) && !TouchesNext(free, a, k)
  }

  /** The area together with the free neighbours it touches. */
  function Merged(free: seq<Area>, a: Area, k: nat): Area
    requires k <= |free|
  {
    var addr := if TouchesPrev(free, a, k) then free[k - 1].addr else a.addr;
    var before := if TouchesPrev(free, a, k) then free[k - 1].size else 0;
    var after := if TouchesNext(free, a, k) then free[k].size else 0;
    Area(addr, before + a.size + after)
  }

  /** How many areas stay in front of the merged one, and where those behind it start. */
  function Left(free: seq<Area>, a: Area, k: nat): (l: nat)
    requires k <= |free|
    ensures l <= k
  {
    if TouchesPrev(free, a, k) then k - 1 else k
  }

  function Right(free: seq<Area>, a: Area, k: nat): (r: nat)
    requires k <= |free|
    ensures k <= r <= |free|
  {
    if TouchesNext(free, a, k) then k + 1 else k
  }

  /** The free list after the area was given back. */
  function GivenFree(free: seq<Area>, a: Area, k: nat): seq<Area>
    requires k <= |free|
  {
    if Lost(free, a, k) then free
    else free[..Left(free, a, k)] + [Merged(free, a, k)] + free[Right(free, a, k)..]
  }

  /** An area between two used ones, behind the first free one, is on neither list when it was given back. */
  lemma AreaLost()
    ensures var free, used := [Area(16, 16)], [Area(32, 16), Area(48, 16), Area(64, 16)];
            && Sound(free, used, 16, 80)
            && PlaceOf(free, used[1].addr, 1) && Lost(free, used[1], 1) && GivenFree(free, used[1], 1) == free
  {
    var free, used := [Area(16, 16)], [Area(32, 16), Area(48, 16), Area(64, 16)];
    assert forall a :: a in free || a in used ==> Within(a, 16, 80);
  }

  /** Area a went back to the free list, and `loss` bytes dropped off both lists. */
  ghost predicate Gave(free: seq<Area>, a: Area, free': seq<Area>, loss: nat) {
    exists k :: PlaceOf(free, a.addr, k) && free' == GivenFree(free, a, k) && loss == if Lost(free, a, k) then a.size else 0
  }

  /** Where a used area lies among the free ones. */
  lemma BetweenNeighbours(free: seq<Area>, used: seq<Area>, lo: nat, hi: nat, a: Area, k: nat)
    requires Sound(free, used, lo, hi) && a in used && PlaceOf(free, a.addr, k)
    ensures k > 0 ==> free[k - 1].End() <= a.addr
    ensures k < |free| ==> a.End() <= free[k].addr
  {
    if k > 0 { assert free[k - 1] in free; }
    if k < |free| { assert free[k] in free; }
  }

  lemma CoalescedJoin(x: seq<Area>, m: Area, y: seq<Area>)
    requires Coalesced(x) && Coalesced(y)
    requires forall b :: b in x ==> b.End() < m.addr
    requires forall b :: b in y ==> m.End() < b.addr
    ensures Coalesced(x + [m] + y)
  {
    var l := x + [m] + y;
    forall i, j | 0 <= i < j < |l| ensures l[i].End() < l[j].addr {
      assert i < |x| ==> l[i] == x[i] && l[i] in x;
      assert i > |x| ==> l[i] == y[i - |x| - 1];
      assert j < |x| ==> l[j] == x[j];
      assert j > |x| ==> l[j] == y[j - |x| - 1] && l[j] in y;
    }
  }

  lemma LeftEnds(free: seq<Area>, a: Area, k: nat, j: nat)
    requires Coalesced(free) && k <= |free| && !Lost(free, a, k) && j < Left(free, a, k)
    requires k > 0 ==> free[k - 1].End() <= a.addr
    ensures free[j].End() < Merged(free, a, k).addr
  {
    if j < k - 1 { assert free[j].End() < free[k - 1].addr; }
  }

  lemma RightStarts(free: seq<Area>, a: Area, k: nat, j: nat)
    requires Coalesced(free) && k <= |free| && !Lost(free, a, k) && Right(free, a, k) <= j < |free|
    requires k < |free| ==> a.End() <= free[k].addr
    requires forall b :: b in free ==> 0 < b.size
    ensures Merged(free, a, k).End() < free[j].addr
  {
    if k < j { assert free[k].End() < free[j].addr && free[k] in free; }
  }

  lemma GivenCoalesced(free: seq<Area>, used: seq<Area>, lo: nat, hi: nat, a: Area, k: nat)
    requires Sound(free, used, lo, hi) && a in used && PlaceOf(free, a.addr, k)
    ensures Coalesced(GivenFree(free, a, k))
  {
    if !Lost(free, a, k) {
      BetweenNeighbours(free, used, lo, hi, a, k);
      forall j | 0 <= j < Left(free, a, k) ensures free[j].End() < Merged(free, a, k).addr { LeftEnds(free, a, k, j); }
      forall j | Right(free, a, k) <= j < |free| ensures Merged(free, a, k).End() < free[j].addr { RightStarts(free, a, k, j); }
      CoalescedJoin(free[..Left(free, a, k)], Merged(free, a, k), free[Right(free, a, k)..]);
    }
  }

  /** What is apart from an area and from the neighbours it merges with is apart from the result. */
  lemma MergedApart(free: seq<Area>, a: Area, k: nat, c: Area)
    requires k <= |free| && 0 < c.size && 0 < a.size && Apart(a, c)
    requires forall b :: b in free ==> Apart(b, c) && 0 < b.size
    ensures Apart(Merged(free, a, k), c)
  {
    if TouchesPrev(free, a, k) { assert free[k - 1] in free; }
    if TouchesNext(free, a, k) { assert free[k] in free; }
  }

  lemma MergedWithin(free: seq<Area>, a: Area, k: nat, lo: nat, hi: nat)
    requires k <= |free| && Within(a, lo, hi) && forall b :: b in free ==> Within(b, lo, hi)
    ensures Within(Merged(free, a, k), lo, hi)
  {
    if TouchesPrev(free, a, k) { assert free[k - 1] in free; }
    if TouchesNext(free, a, k) { assert free[k] in free; }
  }

  lemma GivenMembers(free: seq<Area>, a: Area, k: nat)
    requires k <= |free|
    ensures forall b :: b in GivenFree(free, a, k) ==> b in free || b == Merged(free, a, k)
  {
  }

  /** Giving a used area back keeps both lists sound. */
  lemma GiveSound(free: seq<Area>, used: seq<Area>, lo: nat, hi: nat, u: nat, k: nat)
    requires Sound(free, used, lo, hi) && u < |used| && PlaceOf(free, used[u].addr, k)
    ensures Sound(GivenFree(free, used[u], k), used[..u] + used[u + 1..], lo, hi)
  {
    var a := used[u];
    var used', free' := used[..u] + used[u + 1..], GivenFree(free, a, k);
    GivenCoalesced(free, used, lo, hi, a, k);
    GivenMembers(free, a, k);
    MergedWithin(free, a, k, lo, hi);
    forall j | 0 <= j < |used'| ensures used'[j] == used[if j < u then j else j + 1] && used'[j] in used && Apart(a, used'[j]) {
    }
    forall b, c | b in free' && c in used' ensures Apart(b, c) {
      if b !in free { MergedApart(free, a, k, c); }
    }
  }

  lemma TotalMiddle(free: seq<Area>, a: Area, k: nat)
    requires k <= |free|
    ensures Merged(free, a, k).size == Total(free[Left(free, a, k)..Right(free, a, k)]) + a.size
  {
    if TouchesPrev(free, a, k) && TouchesNext(free, a, k) {
      assert free[k - 1..k + 1] == [free[k - 1]] + [free[k]];
      TotalConcat([free[k - 1]], [free[k]]);
    } else if TouchesPrev(free, a, k) {
      assert free[k - 1..k] == [free[k - 1]];
    } else if TouchesNext(free, a, k) {
      assert free[k..k + 1] == [free[k]];
    }
  }

  /** The bytes of the area move to the free list, unless it is lost. */
  lemma GiveAccounts(free: seq<Area>, a: Area, k: nat)
    requires k <= |free|
    ensures Total(GivenFree(free, a, k)) == Total(free) + if Lost(free, a, k) then 0 else a.size
  {
    if !Lost(free, a, k) {
      var l, r, m := Left(free, a, k), Right(free, a, k), Merged(free, a, k);
      Split3(free, l, r);
      TotalMiddle(free, a, k);
      TotalReplace(free[..l], free[l..r], free[r..], m);
    }
  }

  lemma Split3(l: seq<Area>, i: nat, j: nat)
    requires i <= j <= |l|
    ensures l[..i] + l[i..j] + l[j..] == l
  {
  }

  lemma TotalReplace(x: seq<Area>, y: seq<Area>, z: seq<Area>, m: Area)
    ensures Total(x + [m] + z) + Total(y) == Total(x + y + z) + m.size
  {
    TotalConcat(x + [m], z);
    TotalConcat(x, [m]);
    TotalConcat(x + y, z);
    TotalConcat(x, y);
  }

  /** A free area as large as the whole node leaves room for nothing else. */
  lemma WhollyFree(free: seq<Area>, used: seq<Area>, lost: nat, capacity: nat)
    requires Total(free) + Total(used) + lost == capacity && free != [] && free[0].size == capacity
    requires (forall a :: a in free ==> 0 < a.size) && (forall a :: a in used ==> 0 < a.size)
    ensures free == [free[0]] && used == [] && lost == 0
  {
    assert Total(free[1..]) == 0 && Total(used) == 0 && lost == 0;
  }

  // ------------------------------------------------------------------ taking an area and giving it back

  /** The area goes before all free ones, and ends where the first of them starts. */
  predicate FreedFirst(free: seq<Area>, a: Area) {
    free != [] && a.addr < free[0].addr && a.End() == free[0].addr
  }

  /** Taking `want` bytes of area i and giving them back leaves the free list as it was. */
  predicate Restored(free: seq<Area>, i: nat, want: nat)
    requires i < |free| && want <= free[i].size
  {
    free[i].size - want > HEADER || (|free| == 1 && free[0].size == want)
  }

  /** What was just taken goes back to where it was taken from. */
  lemma PlaceOfTaken(free: seq<Area>, i: nat, want: nat, k: nat)
    requires Coalesced(free) && i < |free| && 0 < want <= free[i].size
    requires PlaceOf(TakenFree(free, i, want), free[i].addr, k)
    ensures k == i
  {
    var free' := TakenFree(free, i, want);
    assert forall j :: 0 <= j < i ==> free[j].End() < free[i].addr && free'[j] == free[j];
    if i < |free'| { assert free'[i].addr == free[i].addr + want; }
  }

  /** The list is restored exactly in these two cases; in the others the area, or what was behind it, is gone. */
  lemma TakeThenGive(free: seq<Area>, i: nat, want: nat)
    requires Coalesced(free) && i < |free| && 0 < want <= free[i].size
    ensures var a, free' := Area(free[i].addr, want), TakenFree(free, i, want);
            i <= |free'| && (GivenFree(free', a, i) == free <==> Restored(free, i, want))
            && (Restored(free, i, want) ==> TakenLoss(free, i, want) == 0 && !Lost(free', a, i))
  {
    var a, free' := Area(free[i].addr, want), TakenFree(free, i, want);
    if i > 0 { assert free[i - 1].End() < free[i].addr && free'[i - 1] == free[i - 1]; }
    if free[i].size - want > HEADER {
      assert TouchesNext(free', a, i) && Merged(free', a, i) == free[i];
      assert GivenFree(free', a, i) == free[..i] + [free[i]] + free[i + 1..];
    } else if i > 0 {
      assert Lost(free', a, i) && |free'| < |free|;
    } else {
      assert free' == [] && GivenFree(free', a, i) == [a];
    }
  }

  /** The same of the free list that kfree leaves. */
  lemma GivenBackAt(free: seq<Area>, i: nat, want: nat, free2: seq<Area>, loss: nat)
    requires Coalesced(free) && i < |free| && 0 < want <= free[i].size
    requires Gave(TakenFree(free, i, want), Area(free[i].addr, want), free2, loss)
    ensures free2 == free <==> Restored(free, i, want)
    ensures Restored(free, i, want) ==> TakenLoss(free, i, want) + loss == 0
  {
    var a, free' := Area(free[i].addr, want), TakenFree(free, i, want);
    var k :| PlaceOf(free', a.addr, k) && free2 == GivenFree(free', a, k) && loss == if Lost(free', a, k) then a.size else 0;
    PlaceOfTaken(free, i, want, k);
    TakeThenGive(free, i, want);
  }

  /** A block cut off the first free area, and no other, lies before all free areas and touches the first of them. */
  lemma TakenIsFirst(free: seq<Area>, i: nat, want: nat)
    requires Coalesced(free) && i < |free| && 0 < want <= free[i].size
    ensures FreedFirst(TakenFree(free, i, want), Area(free[i].addr, want)) <==> i == 0 && free[0].size - want > HEADER
  {
    if i > 0 { assert free[0].End() < free[i].addr && TakenFree(free, i, want)[0] == free[0]; }
  }

  // ------------------------------------------------------------------ whole nodes

  /** The contents of a node: its order, its two lists, and the bytes that are on neither. */
  datatype Node = Node(order: nat, free: seq<Area>, used: seq<Area>, lost: nat)

  ghost predicate Serves(n: Node, order: nat, want: nat) {
    n.order >= order && exists i :: 0 <= i < |n.free| && n.free[i].size >= want
  }

  ghost predicate SomeServes(nodes: seq<Node>, order: nat, want: nat) {
    exists i :: 0 <= i < |nodes| && Serves(nodes[i], order, want)
  }

  /** n' is n after it handed out an area of `want` bytes at addr, first fit. */
  ghost predicate Served(n: Node, n': Node, order: nat, want: nat, addr: nat) {
    && n'.order == n.order >= order && n'.lost >= n.lost
    && Took(n.free, n.used, want, addr, n'.free, n'.used, n'.lost - n.lost)
  }

  /** The first node that can serve did, and no other node changed. */
  ghost predicate ServedFirst(before: seq<Node>, after: seq<Node>, order: nat, want: nat, addr: nat) {
    exists i: nat :: ServedFrom(before, after, order, want, addr, i)
  }

  ghost predicate ServedFrom(before: seq<Node>, after: seq<Node>, order: nat, want: nat, addr: nat, i: nat) {
    && i < |before| == |after| && after == before[i := after[i]]
    && (forall j :: 0 <= j < i ==> !Serves(before[j], order, want))
    && Served(before[i], after[i], order, want, addr)
  }

  /** A node fresh from the page allocator. */
  ghost predicate FreshNode(n: Node, order: nat, bytes: nat) {
    n.order == order && n.used == [] && n.lost == 0 && |n.free| == 1 && n.free[0].size == bytes
  }

  /** The first m nodes are fresh, the others are those of before. */
  ghost predicate Prepended(before: seq<Node>, now: seq<Node>, m: nat, order: nat, bytes: nat) {
    && |now| == m + |before| && now[m..] == before
    && forall i :: 0 <= i < m ==> FreshNode(now[i], order, bytes)
  }

  /** A fresh node serves exactly the requests it has the bytes for. */
  lemma FreshServes(before: seq<Node>, now: seq<Node>, m: nat, order: nat, bytes: nat, want: nat)
    requires Prepended(before, now, m, order, bytes)
    ensures SomeServes(now, order, want) <==> SomeServes(before, order, want) || (m > 0 && want <= bytes)
  {
    if i :| 0 <= i < |before| && Serves(before[i], order, want) {
      assert now[m..][i] == now[m + i];
    }
    if m > 0 && want <= bytes {
      assert FreshNode(now[0], order, bytes) && now[0].free[0].size >= want;
      assert Serves(now[0], order, want);
    }
    if i :| 0 <= i < |now| && Serves(now[i], order, want) {
      if i < m { assert FreshNode(now[i], order, bytes); } else { assert now[m..][i - m] == now[i]; }
    }
  }

  lemma PrependedAgain(before: seq<Node>, now: seq<Node>, after: seq<Node>, m: nat, order: nat, bytes: nat)
    requires Prepended(before, now, m, order, bytes) && Prepended(now, after, 1, order, bytes)
    ensures Prepended(before, after, m + 1, order, bytes)
  {
    assert after[m + 1..] == after[1..][m..];
    forall i | 0 <= i < m + 1 ensures FreshNode(after[i], order, bytes) {
      if i > 0 { assert after[i] == after[1..][i - 1]; }
    }
  }

  /** An area was handed out by the nodes there were when one of them could, else by one new node. */
  ghost predicate AllocatedBy(before: seq<Node>, after: seq<Node>, order: nat, want: nat, bytes: nat, addr: nat) {
    if SomeServes(before, order, want) then ServedFirst(before, after, order, want, addr)
    else exists now :: Prepended(before, now, 1, order, bytes) && ServedFirst(now, after, order, want, addr)
  }

  lemma AllocatedIs(before: seq<Node>, now: seq<Node>, after: seq<Node>, m: nat, order: nat, want: nat, bytes: nat, addr: nat)
    requires Prepended(before, now, m, order, bytes) && ServedFirst(now, after, order, want, addr)
    requires m > 0 ==> !SomeServes(before, order, want)
    requires m == 0 || m == 1
    requires m == 0 ==> SomeServes(before, order, want)
    ensures AllocatedBy(before, after, order, want, bytes, addr)
  {
    if m == 0 { assert now == now[0..] == before; }
  }

  /** n' is n after the area in front of address p was given back. */
  ghost predicate FreedIn(n: Node, n': Node, p: nat) {
    && n'.order == n.order && n'.lost >= n.lost && n'.free != []
    && exists u :: 0 <= u < |n.used| && n.used[u].addr + HEADER == p
         && n'.used == n.used[..u] + n.used[u + 1..] && Gave(n.free, n.used[u], n'.free, n'.lost - n.lost)
  }

  ghost predicate Owns(n: Node, p: nat) {
    exists u :: 0 <= u < |n.used| && n.used[u].addr + HEADER == p
  }

  /** The areas handed out and not given back. */
  ghost function LiveAreas(nodes: seq<Node>): set<Area> {
    set i, a | 0 <= i < |nodes| && a in nodes[i].used :: a
  }
}
