/**
 The list of virtual memory areas of a process (kernel/mm_vm.c): where do_vm_alloc puts a new area.
 Addresses are 32-bit; the end of an area is its last byte.
 */
module VmAreas {

  import opened Machine
  import opened Sequences

  datatype VmArea = VmArea(start: nat, end: nat)

  function Add32(a: int, b: int): (r: nat)
    ensures r < WORD
  {
    (a + b) % WORD
  }

  /** Areas in address order, with no byte in two of them. */
  ghost predicate Sorted(areas: seq<VmArea>) {
    && (forall i :: 0 <= i < |areas| ==> areas[i].start <= areas[i].end < WORD)
    && forall i, j :: 0 <= i < j < |areas| ==> areas[i].end < areas[j].start
  }

  /** `size` bytes from s on are addresses, and in no area. */
  ghost predicate Avoids(areas: seq<VmArea>, s: nat, size: nat) {
    s + size <= WORD && forall i :: 0 <= i < |areas| ==> s + size <= areas[i].start || areas[i].end < s
  }

  /** No lower address has `size` free bytes. */
  ghost predicate Lowest(areas: seq<VmArea>, s: nat, size: nat) {
    Avoids(areas, s, size) && forall t: nat :: t < s ==> !Avoids(areas, t, size)
  }

  /** The first address past the areas before number i. */
  function After(areas: seq<VmArea>, i: nat): nat
    requires i <= |areas|
  {
    if i == 0 then 0 else areas[i - 1].end + 1
  }

  /** `size` bytes fit between the areas before number i and area i. */
  ghost predicate GapBefore(areas: seq<VmArea>, i: nat, size: nat)
    requires i < |areas|
  {
    After(areas, i) + size <= areas[i].start
  }

  ghost predicate NoGapBefore(areas: seq<VmArea>, n: nat, size: nat)
    requires n <= |areas|
  {
    forall i :: 0 <= i < n ==> !GapBefore(areas, i, size)
  }

  lemma InsertSorted(areas: seq<VmArea>, i: nat, s: nat, size: nat)
    requires Sorted(areas) && i <= |areas| && 0 < size && s + size <= WORD
    requires After(areas, i) <= s && (i < |areas| ==> s + size <= areas[i].start)
    ensures Sorted(Inserted(areas, i, VmArea(s, s + size - 1))) && Avoids(areas, s, size)
  {
    var l := Inserted(areas, i, VmArea(s, s + size - 1));
    forall j | 0 <= j < i ensures areas[j].end < s {
      if j < i - 1 { assert areas[j].end < areas[i - 1].start; }
    }
    forall j | i <= j < |areas| ensures s + size <= areas[j].start {
      if i < j { assert areas[i].end < areas[j].start; }
    }
    forall j, k | 0 <= j < k < |l| ensures l[j].end < l[k].start {
      assert l[j] == if j < i then areas[j] else if j == i then VmArea(s, s + size - 1) else areas[j - 1];
      assert l[k] == if k < i then areas[k] else if k == i then VmArea(s, s + size - 1) else areas[k - 1];
    }
  }

  /** Without a gap before the first n areas, nothing fits below the end of the last of them. */
  lemma {:induction false} NothingBelow(areas: seq<VmArea>, n: nat, size: nat, t: nat)
    requires Sorted(areas) && n <= |areas| && 0 < size && NoGapBefore(areas, n, size)
    requires t < After(areas, n)
    ensures !Avoids(areas, t, size)
  {
    if t < After(areas, n - 1) {
      NothingBelow(areas, n - 1, size, t);
    } else {
      assert !GapBefore(areas, n - 1, size);
    }
  }

  /** The first gap is the lowest place. */
  lemma FirstGapLowest(areas: seq<VmArea>, i: nat, size: nat)
    requires Sorted(areas) && i <= |areas| && 0 < size && NoGapBefore(areas, i, size)
    requires if i < |areas| then GapBefore(areas, i, size) else After(areas, i) + size <= WORD
    ensures Lowest(areas, After(areas, i), size)
  {
    if i < |areas| { assert areas[i].start <= areas[i].end < WORD; }
    InsertSorted(areas, i, After(areas, i), size);
    forall t: nat | t < After(areas, i) ensures !Avoids(areas, t, size) {
      NothingBelow(areas, i, size, t);
    }
  }

  /** Without a gap, and without room behind the last area, nothing fits at all. */
  lemma NoRoom(areas: seq<VmArea>, size: nat)
    requires Sorted(areas) && 0 < size && NoGapBefore(areas, |areas|, size)
    requires After(areas, |areas|) + size > WORD
    ensures forall t: nat :: !Avoids(areas, t, size)
  {
    forall t: nat ensures !Avoids(areas, t, size) {
      if t < After(areas, |areas|) { NothingBelow(areas, |areas|, size, t); }
    }
  }

  /** The list that is left is the old one with one more area, from s to s + size - 1, somewhere in it. */
  ghost predicate OneMore(before: seq<VmArea>, after: seq<VmArea>, s: nat, size: nat)
    requires 0 < size
  {
    exists i: nat :: OneMoreAt(before, after, i, s, size)
  }

  ghost predicate OneMoreAt(before: seq<VmArea>, after: seq<VmArea>, i: nat, s: nat, size: nat)
    requires 0 < size
  {
    i <= |before| && after == Inserted(before, i, VmArea(s, s + size - 1))
  }

  /** There is room for `size` bytes somewhere. */
  ghost predicate Room(areas: seq<VmArea>, size: nat) {
    exists t: nat :: Avoids(areas, t, size)
  }

  /** The end that insert_free_vma remembers when it looks at area number i: -1, as a 32-bit word, at the head. */
  function EndBefore(areas: seq<VmArea>, i: nat): nat
    requires i <= |areas|
  {
    if i == 0 then WORD - 1 else areas[i - 1].end
  }

  /** vma->start - end > size, as 32-bit words. */
  predicate GapSeen(start: nat, end: nat, size: nat)
    requires end < WORD
  {
    Add32(start, WORD - end) > size
  }

  /** The test with the wrapped -1 finds exactly the gaps, unless the first area starts at the very last byte. */
  lemma SeesGap(areas: seq<VmArea>, i: nat, size: nat)
    requires Sorted(areas) && i < |areas| && 0 < size < WORD
    ensures GapSeen(areas[i].start, EndBefore(areas, i), size)
            <==> GapBefore(areas, i, size) && !(i == 0 && areas[0].start == WORD - 1)
  {
    if i > 0 { assert areas[i - 1].end < areas[i].start; }
  }

  lemma LastByte(areas: seq<VmArea>)
    requires Sorted(areas) && areas != []
    ensures areas[0].start == WORD - 1 ==> areas == [VmArea(WORD - 1, WORD - 1)]
  {
    if |areas| > 1 { assert areas[0].end < areas[1].start <= areas[1].end < WORD; }
  }

  /** An area whose end wrapped round, or that starts again at 0 behind the last one, spoils the order. */
  lemma WrappedUnsorted(areas: seq<VmArea>, i: nat, a: VmArea)
    requires i <= |areas|
    requires a.end < a.start || (0 < i && a.start <= areas[i - 1].end)
    ensures !Sorted(Inserted(areas, i, a))
  {
    var l := Inserted(areas, i, a);
    assert l[i] == a && (0 < i ==> l[i - 1] == areas[i - 1]);
  }

  /** An area of no bytes ends in front of its start; from 0 on, it is the whole address space.  Either spoils the order. */
  lemma NothingUnsorted(areas: seq<VmArea>, i: nat, a: VmArea)
    requires i <= |areas| && a.start < WORD && a.end == Add32(a.start, -1) && (areas != [] || a.start > 0)
    ensures !Sorted(Inserted(areas, i, a))
  {
    var l := Inserted(areas, i, a);
    assert l[i] == a;
    if i < |areas| { assert l[i + 1] == areas[i]; } else if i > 0 { assert l[i - 1] == areas[i - 1]; }
  }

  /** The area that goes in before number i when the scan stops there. */
  function Chosen(areas: seq<VmArea>, i: nat, size: nat): VmArea
    requires i <= |areas|
  {
    VmArea(Add32(EndBefore(areas, i), 1), Add32(EndBefore(areas, i), size))
  }

  /** What the scan of insert_free_vma comes to. */
  ghost predicate PlacedWell(before: seq<VmArea>, after: seq<VmArea>, s: nat, size: nat)
    requires 0 < size && before != []
  {
    && (Sorted(after) <==> Room(before, size) && before[0].start != WORD - 1)
    && (Sorted(after) ==> Lowest(before, s, size) && OneMore(before, after, s, size))
  }

  /** The scan stopped where the area fits. */
  lemma PlacedAtGap(areas: seq<VmArea>, i: nat, size: nat)
    requires Sorted(areas) && areas != [] && 0 < size < WORD && i <= |areas| && NoGapBefore(areas, i, size)
    requires if i < |areas| then GapBefore(areas, i, size) else After(areas, i) + size <= WORD
    ensures var a := Chosen(areas, i, size);
            && a == VmArea(After(areas, i), After(areas, i) + size - 1)
            && Sorted(Inserted(areas, i, a)) && Lowest(areas, a.start, size)
            && OneMore(areas, Inserted(areas, i, a), a.start, size)
  {
    var a := Chosen(areas, i, size);
    if i < |areas| { assert areas[i].start <= areas[i].end < WORD; }
    FirstGapLowest(areas, i, size);
    InsertSorted(areas, i, a.start, size);
    assert OneMoreAt(areas, Inserted(areas, i, a), i, a.start, size);
  }

  /** The scan passed every area before number i, and stopped there: at a gap, or at the end of the list. */
  lemma Placed(areas: seq<VmArea>, i: nat, size: nat)
    requires Sorted(areas) && areas != [] && 0 < size < WORD && i <= |areas|
    requires areas[0].start != WORD - 1 ==> NoGapBefore(areas, i, size)
    requires i < |areas| ==> GapSeen(areas[i].start, EndBefore(areas, i), size)
    ensures PlacedWell(areas, Inserted(areas, i, Chosen(areas, i, size)), Chosen(areas, i, size).start, size)
  {
    LastByte(areas);
    var a := Chosen(areas, i, size);
    if i < |areas| { SeesGap(areas, i, size); }
    if i < |areas| || EndBefore(areas, i) + size < WORD {
      PlacedAtGap(areas, i, size);
      assert Avoids(areas, a.start, size);
    } else {
      WrappedUnsorted(areas, i, a);
      if areas[0].start != WORD - 1 { NoRoom(areas, size); }
    }
  }

  /** i is where start belongs: past all the areas that start below it. */
  ghost predicate Position(areas: seq<VmArea>, i: nat, start: nat) {
    && i <= |areas|
    && (forall k :: 0 <= k < i ==> areas[k].start < start)
    && (i < |areas| ==> start <= areas[i].start)
  }

  /** The wanted place between two neighbours is free of both of them exactly when it is free of all areas. */
  lemma NeighboursDecide(areas: seq<VmArea>, i: nat, start: nat, size: nat)
    requires Sorted(areas) && Position(areas, i, start) && 0 < size && start + size <= WORD
    ensures Avoids(areas, start, size)
            <==> (i == 0 || areas[i - 1].end < start) && (i == |areas| || start + size <= areas[i].start)
  {
    if (i == 0 || areas[i - 1].end < start) && (i == |areas| || start + size <= areas[i].start) {
      InsertSorted(areas, i, start, size);
    }
  }

  /** The address is in an area, but is not its first one. */
  ghost predicate InsideOne(areas: seq<VmArea>, start: nat) {
    exists k :: 0 <= k < |areas| && areas[k].start < start <= areas[k].end
  }

  /** Behind its position, an address in an area is in the one before. */
  lemma InsideMeans(areas: seq<VmArea>, i: nat, start: nat)
    requires Sorted(areas) && Position(areas, i, start) && 0 < i
    ensures InsideOne(areas, start) <==> start <= areas[i - 1].end
  {
    if start <= areas[i - 1].end {
      assert areas[i - 1].start < start;
    }
  }

  /** The wanted area runs into the first one from at or below its start. */
  predicate RunsIntoFirst(areas: seq<VmArea>, start: nat, size: nat) {
    areas != [] && start <= areas[0].start <= Add32(start, size - 1)
  }

  /** The last byte of the address space is taken: all other bytes are free, yet none of them is found. */
  lemma LastByteTaken(after: seq<VmArea>, s: nat)
    requires PlacedWell([VmArea(WORD - 1, WORD - 1)], after, s, 1)
    ensures Room([VmArea(WORD - 1, WORD - 1)], 1) && !Sorted(after)
  {
    assert Avoids([VmArea(WORD - 1, WORD - 1)], 0, 1);
  }

  /** With the second page taken, a wish for the first two reads through NULL, though there is room elsewhere. */
  lemma FirstAreaHit()
    ensures Sorted([VmArea(0x1000, 0x1fff)]) && RunsIntoFirst([VmArea(0x1000, 0x1fff)], 0, 0x2000)
    ensures Room([VmArea(0x1000, 0x1fff)], 0x2000)
  {
    assert Avoids([VmArea(0x1000, 0x1fff)], 0x2000, 0x2000);
  }

  /** What a wanted area comes to that do_vm_alloc finds to lie between its neighbours. */
  lemma PutIn(areas: seq<VmArea>, i: nat, start: nat, size: nat)
    requires Sorted(areas) && (i == 0 || Position(areas, i, start)) && i <= |areas| && start < WORD && size < WORD
    requires (i == 0 || areas[i - 1].end < start) && (i == |areas| || Add32(start, size - 1) < areas[i].start)
    ensures var a := VmArea(start, Add32(start, size - 1));
            var after := Inserted(areas, i, a);
            && (0 < size && start + size <= WORD ==> Avoids(areas, start, size) && Sorted(after) && OneMore(areas, after, start, size))
            && (start + size > WORD ==> !Sorted(after) && !(InsideOne(areas, start) && areas[0].start <= a.end))
            && (size == 0 ==> if areas == [] && start == 0 then after == [VmArea(0, WORD - 1)] else !Sorted(after))
  {
    var a := VmArea(start, Add32(start, size - 1));
    if size == 0 {
      if areas != [] || start > 0 { NothingUnsorted(areas, i, a); }
    } else if start + size <= WORD {
      NeighboursDecide(areas, i, start, size);
      InsertSorted(areas, i, start, size);
      assert OneMoreAt(areas, Inserted(areas, i, a), i, start, size);
    } else {
      WrappedUnsorted(areas, i, a);
      if i > 0 { InsideMeans(areas, i, start); }
    }
  }

  /** And one that does not lie between them. */
  lemma NotPutIn(areas: seq<VmArea>, i: nat, start: nat, size: nat)
    requires Sorted(areas) && 0 < i && Position(areas, i, start) && start < WORD && size < WORD
    requires !(areas[i - 1].end < start && (i == |areas| || Add32(start, size - 1) < areas[i].start))
    ensures 0 < size && start + size <= WORD ==> !Avoids(areas, start, size)
    ensures start + size > WORD ==>
              InsideOne(areas, start) || (i < |areas| && areas[0].start <= areas[i].start <= Add32(start, size - 1))
  {
    if 0 < size && start + size <= WORD { NeighboursDecide(areas, i, start, size); }
    if start + size > WORD { InsideMeans(areas, i, start); }
  }

  /**
   With the second page taken, a wish for two pages from the last one on goes in at the front, as an area that ends
   before it starts, though there is room elsewhere.
   */
  lemma PastLastByte()
    ensures var areas, start, size := [VmArea(0x1000, 0x1fff)], 0xffff_f000, 0x2000;
            && Sorted(areas) && start + size > WORD && Add32(start, size - 1) < areas[0].start && Room(areas, size)
            && !RunsIntoFirst(areas, start, size) && !InsideOne(areas, start)
            && !Sorted(Inserted(areas, 0, VmArea(start, Add32(start, size - 1))))
  {
    var areas := [VmArea(0x1000, 0x1fff)];
    assert Avoids(areas, 0x2000, 0x2000);
    PutIn(areas, 0, 0xffff_f000, 0x2000);
  }

  class AreaList {
    var areas: seq<VmArea>

    /**
     insert_free_vma on a list that is not empty.  It takes the lowest room there is.  It goes wrong when there is
     no room, and when only the last byte of the address space is taken: the first test then wraps to 0, and the
     free space below goes unseen.  A request for no bytes always spoils the list.
     */
    method InsertFree(size: nat) returns (s: nat)
      requires Sorted(areas) && areas != [] && size < WORD
      modifies this
      ensures s < WORD
      ensures if size == 0 then !Sorted(areas) else PlacedWell(old(areas), areas, s, size)
    {
      var i: nat := 0;
      var end: nat := WORD - 1;
      assert areas[0].start == WORD - 1 ==> areas == [VmArea(WORD - 1, WORD - 1)] by { LastByte(areas); }
      while i < |areas| && !GapSeen(areas[i].start, end, size)
        invariant i <= |areas| && end == EndBefore(areas, i) && areas == old(areas)
        invariant size > 0 && areas[0].start != WORD - 1 ==> NoGapBefore(areas, i, size)
      {
        if size > 0 { SeesGap(areas, i, size); }
        end := areas[i].end;
        i := i + 1;
      }
      s := Add32(end, 1);
      ghost var before := areas;
      areas := Inserted(areas, i, VmArea(s, Add32(end, size)));
      if size == 0 { NothingUnsorted(before, i, VmArea(s, end)); } else { Placed(before, i, size); }
    }

    /**
     do_vm_alloc, as far as the list goes.  The wanted place is taken exactly when it is free; otherwise the lowest
     free one is.  `fault` stands for reading the end of an area through NULL: that happens when the wanted area
     runs into the first one from at or below its start.  Nothing guards against a wanted area that goes past the
     last address: it spoils the list, unless it starts inside an area and its wrapped end is not below the first.
     Nor against one of no bytes: it spoils the list, or takes all of an empty one.
     */
    method DoVmAlloc(start: nat, size: nat) returns (s: nat, fault: bool)
      requires Sorted(areas) && start < WORD && size < WORD
      modifies this
      ensures fault <==> RunsIntoFirst(old(areas), start, size)
      ensures s < WORD
      ensures fault ==> areas == old(areas)
      ensures !fault && 0 < size && Avoids(old(areas), start, size) ==>
                s == start && Sorted(areas) && OneMore(old(areas), areas, start, size)
      ensures !fault && 0 < size && !Avoids(old(areas), start, size) && start + size <= WORD ==>
                old(areas) != [] && PlacedWell(old(areas), areas, s, size)
      ensures !fault && start + size > WORD ==>
                if InsideOne(old(areas), start) && old(areas)[0].start <= Add32(start, size - 1)
                then PlacedWell(old(areas), areas, s, size) else !Sorted(areas)
      ensures !fault && size == 0 ==>
                if old(areas) == [] && start == 0 then areas == [VmArea(0, WORD - 1)] else !Sorted(areas)
    {
      var uend := Add32(start, size - 1);
      ghost var before := areas;
      if areas == [] || uend < areas[0].start {
        PutIn(before, 0, start, size);
        areas := Inserted(areas, 0, VmArea(start, uend));
        return start, false;
      }
      var i: nat := 0;
      while i < |areas| && start > areas[i].start
        invariant i <= |areas| && areas == before
        invariant forall k :: 0 <= k < i ==> areas[k].start < start
      {
        i := i + 1;
      }
      if i == 0 {
        return start, true;
      }
      if start > areas[i - 1].end && (i == |areas| || uend < areas[i].start) {
        PutIn(before, i, start, size);
        areas := Inserted(areas, i, VmArea(start, uend));
        return start, false;
      }
      NotPutIn(before, i, start, size);
      fault := false;
      s := InsertFree(size);
    }
  }
}
