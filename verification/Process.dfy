/**
 do_vm_alloc of kernel/mm_vm.c as a whole: a new area in the list of a process, and its pages in the page tables.
 */
module Process {
  import opened Machine
  import opened PageRuns
  import opened PageTables
  import opened VmAreas
  import opened VmMapping

  /** Every page of every area is mapped. */
  ghost predicate AllMapped(areas: seq<VmArea>, t: seq<Option<nat>>)
    requires |t| == PAGES
  {
    forall i :: 0 <= i < |areas| ==> AreaMapped(areas[i], t)
  }

  ghost predicate AreaMapped(a: VmArea, t: seq<Option<nat>>)
    requires |t| == PAGES
  {
    forall p :: 0 <= p < PAGES && a.start / PAGE_SIZE <= p <= a.end / PAGE_SIZE ==> t[p].Some?
  }

  lemma StillMapped(a: VmArea, t0: seq<Option<nat>>, t: seq<Option<nat>>)
    requires |t0| == |t| == PAGES && AreaMapped(a, t0)
    requires forall p :: 0 <= p < |t| && t0[p].Some? ==> t[p] == t0[p]
    ensures AreaMapped(a, t)
  {
  }

  /**
   After a mapping that is right, all pages of all areas are mapped exactly if the new area's last page is gone over,
   or was mapped before.
   */
  lemma AllocKeepsMapped(before: seq<VmArea>, after: seq<VmArea>, s: nat, size: nat, t0: seq<Option<nat>>, t: seq<Option<nat>>)
    requires 0 < size && s + size <= WORD && OneMore(before, after, s, size) && |t0| == |t| == PAGES
    requires AllMapped(before, t0) && Right(t0, t, s / PAGE_SIZE, StopsAt(s, s + size - 1))
    requires forall p :: StopsAt(s, s + size - 1) <= p < PAGES ==> t[p] == t0[p]
    ensures AllMapped(after, t) <==> LastPageToo(s, s + size - 1) || t0[(s + size - 1) / PAGE_SIZE].Some?
  {
    var a := VmArea(s, s + size - 1);
    var i: nat :| OneMoreAt(before, after, i, s, size);
    assert after[i] == a;
    AreaReachable(t0, t, s, s + size - 1);
    assert AreaMapped(a, t) <==> LastPageToo(s, s + size - 1) || t0[(s + size - 1) / PAGE_SIZE].Some?;
    forall j | 0 <= j < |after| && j != i ensures AreaMapped(after[j], t) {
      assert after[j] == before[if j < i then j else j - 1];
      assert AreaMapped(after[j], t0);
      StillMapped(after[j], t0, t);
    }
  }

  /**
   What a whole do_vm_alloc comes to when every word that was read agreed with its page: all areas are mapped, but for
   a last page that is left out.
   */
  ghost predicate Backs(before: seq<VmArea>, after: seq<VmArea>, s: nat, size: nat, t0: seq<Option<nat>>, t: seq<Option<nat>>, seen: seq<bool>)
    requires |t0| == |t| == PAGES && 0 < size && s + size <= WORD
  {
    AllMapped(before, t0) && s / PAGE_SIZE + |seen| <= PAGES && Agrees(t0, s / PAGE_SIZE, seen) ==>
      (AllMapped(after, t) <==> LastPageToo(s, s + size - 1) || t0[(s + size - 1) / PAGE_SIZE].Some?)
  }

  lemma RunBacks(before: seq<VmArea>, after: seq<VmArea>, s: nat, size: nat, states: seq<Memory>, seen: seq<bool>, n: nat, dir: nat)
    requires 0 < size && s + size <= WORD && OneMore(before, after, s, size)
    requires Run(states, seen, n, dir, s / PAGE_SIZE) && |seen| == StopsAt(s, s + size - 1) - s / PAGE_SIZE
    ensures Backs(before, after, s, size, Translation(states[0].words, dir), Translation(states[|seen|].words, dir), seen)
  {
    var t0, t := Translation(states[0].words, dir), Translation(states[|seen|].words, dir);
    if AllMapped(before, t0) && Agrees(t0, s / PAGE_SIZE, seen) {
      WholeRun(states, seen, n, dir, s, s + size - 1);
      AllocKeepsMapped(before, after, s, size, t0, t);
    }
  }

  /** The same, from what do_vm_alloc promises about the list. */
  lemma AllocBacks(before: seq<VmArea>, after: seq<VmArea>, s: nat, start: nat, size: nat,
                   states: seq<Memory>, seen: seq<bool>, n: nat, dir: nat)
    requires 0 < size && start + size <= WORD && Sorted(after) && s < WORD
    requires Avoids(before, start, size) ==> s == start && OneMore(before, after, start, size)
    requires !Avoids(before, start, size) ==> before != [] && PlacedWell(before, after, s, size)
    requires Run(states, seen, n, dir, s / PAGE_SIZE) && |seen| == StopsAt(s, Add32(s, size - 1)) - s / PAGE_SIZE
    ensures s + size <= WORD
    ensures Backs(before, after, s, size, Translation(states[0].words, dir), Translation(states[|seen|].words, dir), seen)
  {
    InOrderMeans(before, after, s, start, size);
    RunBacks(before, after, s, size, states, seen, n, dir);
  }

  /** In a list that is in order again there is one area more, where there was room. */
  lemma InOrderMeans(before: seq<VmArea>, after: seq<VmArea>, s: nat, start: nat, size: nat)
    requires 0 < size && start + size <= WORD && Sorted(after)
    requires Avoids(before, start, size) ==> s == start && OneMore(before, after, start, size)
    requires !Avoids(before, start, size) ==> before != [] && PlacedWell(before, after, s, size)
    ensures s + size <= WORD && Add32(s, size - 1) == s + size - 1 && OneMore(before, after, s, size)
  {
  }

  class Process {
    const list: AreaList
    const space: AddressSpace

    ghost predicate Valid()
      reads this, list, space, space.pages, space.pages.links, space.pages.links.next, space.pages.links.prev,
            space.pages.bits, space.mem
    {
      space.Valid() && Sorted(list.areas)
    }

    constructor (list: AreaList, space: AddressSpace)
      ensures this.list == list && this.space == space
    {
      this.list := list;
      this.space := space;
    }

    /**
     do_vm_alloc: a place in the list, and then a run over the pages of that place.  When the list is in order and
     every word that was read agreed with its page, all areas are mapped, but for a last page that is left out.
     */
    method VmAlloc(start: nat, size: nat)
      returns (s: nat, fault: bool, r: Mapping, ghost states: seq<Memory>, ghost seen: seq<bool>)
      requires Valid() && start < WORD && size < WORD
      modifies list, space.Repr()
      ensures fault <==> RunsIntoFirst(old(list.areas), start, size)
      ensures fault ==> list.areas == old(list.areas) && space.mem[..] == old(space.mem[..])
      ensures !fault && 0 < size && Avoids(old(list.areas), start, size) ==>
                s == start && Sorted(list.areas) && OneMore(old(list.areas), list.areas, start, size)
      ensures !fault && 0 < size && !Avoids(old(list.areas), start, size) && start + size <= WORD ==>
                old(list.areas) != [] && PlacedWell(old(list.areas), list.areas, s, size)
      ensures !fault && size == 0 ==>
                if old(list.areas) == [] && start == 0 then list.areas == [VmArea(0, WORD - 1)] else !Sorted(list.areas)
      ensures !fault && r.Done? ==> s < WORD && Run(states, seen, space.pages.pageCount, space.dir, s / PAGE_SIZE)
      ensures !fault && r.Done? ==> |seen| == StopsAt(s, Add32(s, size - 1)) - s / PAGE_SIZE
      ensures !fault && r.Done? ==> states[0] == old(space.State()) && states[|seen|] == space.State()
      ensures !fault && r.Done? && 0 < size && start + size <= WORD && Sorted(list.areas) ==>
                s + size <= WORD
                && Backs(old(list.areas), list.areas, s, size, old(Translation(space.mem[..], space.dir)),
                         Translation(space.mem[..], space.dir), seen)
    {
      ghost var before, s0 := list.areas, space.State();
      s, fault := list.DoVmAlloc(start, size);
      r, states, seen := Done, [], [];
      if !fault {
        r, states, seen := space.MapVmArea(s, Add32(s, size - 1));
        if r.Done? && 0 < size && start + size <= WORD && Sorted(list.areas) {
          AllocBacks(before, list.areas, s, start, size, states, seen, space.pages.pageCount, space.dir);
        }
      }
    }
  }
}
