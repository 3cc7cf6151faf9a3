/**
 map_vm_area of kernel/mm_vm.c, in place on physical memory and over the page allocator.
 */
module VmMapping {
  import opened Buddy
  import opened Dyadic
  import opened Machine
  import opened PageTables
  import opened PageRuns

  /** It maps the area, stops the machine for want of a free page, or reads past the end of physical memory. */
  datatype Mapping = Done | Stopped | PastMemory

  // ------------------------------------------------------------------ the indices of the loops

  /** Directory index and table index of an address. */
  lemma Split(a: nat)
    ensures a / PAGE_SIZE == ENTRIES * (a / SPAN) + a / PAGE_SIZE % ENTRIES
    ensures a / PAGE_SIZE * PAGE_SIZE / SPAN == a / SPAN && a / PAGE_SIZE * PAGE_SIZE / PAGE_SIZE == a / PAGE_SIZE
  {
  }

  /** Where the loops stand before a turn of the outer one, with `at` pages gone over from page a on. */
  ghost predicate Standing(start: nat, end: nat, pdIdx: nat, pdEnd: nat, ptIdx: nat, ptEnd: int, at: nat)
    requires start < WORD
  {
    var a, pd0 := start / PAGE_SIZE, start / SPAN;
    && pd0 <= pdIdx && pdEnd == RoundedEnd(end) / SPAN && ptEnd == RoundedEnd(end) / PAGE_SIZE - ENTRIES * pd0
    && ENTRIES * pd0 + ptIdx == a + at
    && (pdIdx <= pdEnd ==> (pdIdx == pd0 && at == 0) || (ptIdx == ENTRIES * (pdIdx - pd0) && ptIdx <= ptEnd))
    && (pdIdx > pdEnd ==> a + at == StopsAt(start, end))
  }

  lemma StandsAtFirst(start: nat, end: nat)
    requires start < WORD
    ensures var e, pd0 := RoundedEnd(end), start / PAGE_SIZE * PAGE_SIZE / SPAN;
            && pd0 == start / SPAN < ENTRIES && e / SPAN < ENTRIES
            && Standing(start, end, pd0, e / SPAN, start / PAGE_SIZE * PAGE_SIZE / PAGE_SIZE % ENTRIES,
                        e / PAGE_SIZE % ENTRIES + (e / SPAN - pd0) * ENTRIES, 0)
  {
    Split(start);
    Split(RoundedEnd(end));
  }

  lemma Reduced(first: nat, page: nat)
    requires first <= page
    ensures (page - ENTRIES * (first / ENTRIES)) % ENTRIES == page % ENTRIES
  {
    assert page == ENTRIES * (page / ENTRIES) + page % ENTRIES;
    assert page - ENTRIES * (first / ENTRIES) == ENTRIES * (page / ENTRIES - first / ENTRIES) + page % ENTRIES;
  }

  /** Where the test of the do loop fails, for a loop that began at ptIdx in table pdIdx. */
  ghost predicate LeftAt(pd0: nat, pdIdx: nat, ptIdx: nat, ptEnd: int, i: nat) {
    var base := ENTRIES * (pdIdx - pd0);
    && ptIdx < i <= base + ENTRIES && (i == ptIdx + 1 || i <= ptEnd + 1)
    && (i == base + ENTRIES || ptEnd < i)
  }

  lemma StandsAgain(start: nat, end: nat, pdIdx: nat, pdEnd: nat, ptIdx: nat, ptEnd: int, at: nat, i: nat)
    requires start < WORD && Standing(start, end, pdIdx, pdEnd, ptIdx, ptEnd, at) && pdIdx <= pdEnd
    requires LeftAt(start / SPAN, pdIdx, ptIdx, ptEnd, i)
    ensures Standing(start, end, pdIdx + 1, pdEnd, i, ptEnd, at + (i - ptIdx))
  {
    Split(start);
    Split(RoundedEnd(end));
  }

  /** The page that is next lies in the table of the directory entry that is next. */
  lemma NextPage(start: nat, end: nat, pdIdx: nat, pdEnd: nat, ptIdx: nat, ptEnd: int, at: nat)
    requires start < WORD && Standing(start, end, pdIdx, pdEnd, ptIdx, ptEnd, at) && pdIdx <= pdEnd
    ensures pdIdx < ENTRIES && ENTRIES * (pdIdx - start / SPAN) <= ptIdx < ENTRIES * (pdIdx - start / SPAN) + ENTRIES
    ensures start / PAGE_SIZE / ENTRIES == start / SPAN
  {
    Split(start);
    Split(RoundedEnd(end));
  }

  lemma TestOfLoop(first: nat, pdIdx: nat, ptIdx: nat, ptEnd: int, i: nat)
    requires first / ENTRIES <= pdIdx == (ENTRIES * (first / ENTRIES) + i) / ENTRIES && ptIdx <= i && (i == ptIdx || i <= ptEnd)
    ensures if (i + 1) % ENTRIES != 0 && i + 1 <= ptEnd then (ENTRIES * (first / ENTRIES) + (i + 1)) / ENTRIES == pdIdx
            else LeftAt(first / ENTRIES, pdIdx, ptIdx, ptEnd, i + 1)
  {
    var base := ENTRIES * (pdIdx - first / ENTRIES);
    assert base <= i < base + ENTRIES;
  }

  /** The next word to be read lies past the end of memory. */
  ghost predicate PastEnd(states: seq<Memory>, seen: seq<bool>, u: Memory, n: nat, dir: nat, first: nat) {
    && Run(states, seen, n, dir, first) && TableTurn(states[|seen|], u, dir, (first + |seen|) / ENTRIES)
    && ENTRIES * dir + (first + |seen|) / ENTRIES < |u.words|
    && WordRead(u.words, dir, first, first + |seen|) >= |u.words|
  }

  class AddressSpace {
    const pages: PageAllocator
    const mem: array<nat>
    const dir: nat

    ghost predicate Parts()
      reads this, pages, pages.links, pages.links.next, pages.links.prev, pages.bits
    {
      && pages.Valid() && mem.Length == ENTRIES * pages.pageCount
      && mem as object != pages.links.next && mem as object != pages.links.prev && mem as object != pages.bits
    }

    ghost predicate Valid()
      reads this, pages, pages.links, pages.links.next, pages.links.prev, pages.bits, mem
    {
      Parts() && TablesOk(mem[..], pages.pageCount, dir, pages.free)
    }

    ghost function Repr(): set<object>
      reads this, pages, pages.links
    {
      pages.Repr() + {mem}
    }

    /** The address space of an existing directory. */
    constructor (pages: PageAllocator, mem: array<nat>, dir: nat)
      requires pages.Valid() && mem as object !in pages.Repr()
      requires TablesOk(mem[..], pages.pageCount, dir, pages.free)
      ensures Valid() && this.pages == pages && this.mem == mem && this.dir == dir
    {
      this.pages := pages;
      this.mem := mem;
      this.dir := dir;
    }

    /** The memset of alloc_page_zero. */
    method ClearPage(q: nat)
      requires ENTRIES * q + ENTRIES <= mem.Length
      modifies mem
      ensures mem[..] == PageCleared(old(mem[..]), q)
    {
      var i := 0;
      while i < ENTRIES
        invariant i <= ENTRIES
        invariant forall x :: 0 <= x < mem.Length ==>
                                mem[x] == if ENTRIES * q <= x < ENTRIES * q + i then 0 else old(mem[x])
      {
        mem[ENTRIES * q + i] := 0;
        i := i + 1;
      }
    }

    /** alloc_page_zero */
    method AllocPageZero() returns (r: PageResult)
      requires Parts()
      modifies Repr()
      ensures Parts()
      ensures r.NoPage? <==> old(pages.free) == {}
      ensures r.NoPage? ==> mem[..] == old(mem[..]) && pages.free == {}
      ensures r.Page? ==> r.idx in old(pages.free) && pages.free == old(pages.free) - {r.idx} && r.idx < pages.pageCount
      ensures r.Page? ==> mem[..] == PageCleared(old(mem[..]), r.idx)
    {
      r := pages.AllocPages(0);
      match r {
        case NoPage =>
          forall p: nat ensures p !in old(pages.free) { assert !Whole(old(pages.free), 0, p); }
        case Page(q) =>
          PagesMember(0, q);
          assert Pages(0, q) == {q};
          ClearPage(q);
      }
    }

    ghost function State(): Memory
      reads this, pages, mem
    {
      Memory(mem[..], pages.free)
    }

    /** The first half of a turn of the outer loop: the directory gets a table for entry i, if it has none. */
    method EnsureTable(i: nat) returns (ok: bool)
      requires Valid() && i < ENTRIES
      modifies Repr()
      ensures Parts()
      ensures !ok ==> pages.free == {}
      ensures ok ==> Valid() && Present(Word(mem[..], dir, i)) && TableTurn(old(State()), State(), dir, i)
    {
      ok := true;
      if mem[ENTRIES * dir + i] % 2 == 0 {
        ghost var s := State();
        var r := AllocPageZero();
        if r.NoPage? { return false; }
        mem[ENTRIES * dir + i] := Entry(r.idx);
        assert mem[..] == WithWord(PageCleared(s.words, r.idx), dir, i, Entry(r.idx));
        assert TableMade(s, State(), dir, i, r.idx);
        TableTurnMeans(s, State(), pages.pageCount, dir, i);
      }
    }

    /** A page gets a cleared fresh frame. */
    method NewPage(f: nat, ptIdx: nat, ghost page: nat) returns (ok: bool)
      requires Valid() && page < PAGES && Present(Word(mem[..], dir, page / ENTRIES))
      requires f == TableOf(mem[..], dir, page) && ptIdx % ENTRIES == page % ENTRIES
      modifies Repr()
      ensures Parts()
      ensures !ok ==> pages.free == {}
      ensures ok ==> exists q :: PageMade(old(State()), State(), dir, page, q)
    {
      ghost var s := State();
      assert TableAt(mem[..], pages.pageCount, dir, pages.free, page / ENTRIES);
      var p := AllocPageZero();
      ok := p.Page?;
      if ok {
        mem[ENTRIES * f + ptIdx % ENTRIES] := Entry(p.idx);
        assert mem[..] == WithWord(PageCleared(s.words, p.idx), f, page % ENTRIES, Entry(p.idx));
        assert PageMade(s, State(), dir, page, p.idx);
      }
    }

    /**
     A turn of the inner loop.  The word at ptIdx behind the start of the table decides; ptIdx, which counts on from
     the first table, is reduced for the write only.
     */
    method MapPage(f: nat, ptIdx: nat, ghost first: nat, ghost page: nat) returns (r: Mapping, ghost seen: bool)
      requires Valid() && first <= page < PAGES && Present(Word(mem[..], dir, page / ENTRIES))
      requires f == TableOf(mem[..], dir, page) && ptIdx == page - ENTRIES * (first / ENTRIES)
      modifies Repr()
      ensures Parts()
      ensures r.Stopped? ==> pages.free == {}
      ensures r.PastMemory? <==> old(WordRead(mem[..], dir, first, page)) >= mem.Length
      ensures r.Done? ==> PageTurn(old(State()), State(), dir, first, page, seen)
    {
      r, seen := PastMemory, false;
      if ENTRIES * f + ptIdx < mem.Length {
        r := Done;
        seen := mem[ENTRIES * f + ptIdx] % 2 == 1;
        if mem[ENTRIES * f + ptIdx] % 2 == 0 {
          Reduced(first, page);
          var ok := NewPage(f, ptIdx, page);
          r := if ok then Done else Mapping.Stopped;
        }
      }
    }

    /** The run so far, with the table of the next page made. */
    ghost predicate Recorded(first: nat, page: nat, states: seq<Memory>, seen: seq<bool>)
      reads this, pages, pages.links, pages.links.next, pages.links.prev, pages.bits, mem
    {
      && Valid() && Run(states, seen, pages.pageCount, dir, first) && page == first + |seen| < PAGES
      && MemoryOk(states[|seen|], pages.pageCount, dir)
      && TableTurn(states[|seen|], State(), dir, page / ENTRIES) && Present(Word(mem[..], dir, page / ENTRIES))
    }

    /** The run so far ends in the state at hand. */
    ghost predicate RunTo(first: nat, states: seq<Memory>, seen: seq<bool>)
      reads this, pages, pages.links, pages.links.next, pages.links.prev, pages.bits, mem
    {
      Valid() && Run(states, seen, pages.pageCount, dir, first) && states[|seen|] == State()
    }

    /** Where the inner loop stands before a turn. */
    ghost predicate InTable(first: nat, pdIdx: nat, ptIdx: nat, ptEnd: int, i: nat, f: nat, states: seq<Memory>, seen: seq<bool>)
      reads this, pages, pages.links, pages.links.next, pages.links.prev, pages.bits, mem
    {
      && Recorded(first, ENTRIES * (first / ENTRIES) + i, states, seen) && ptIdx <= i < PAGES && (i == ptIdx || i <= ptEnd)
      && (ENTRIES * (first / ENTRIES) + i) / ENTRIES == pdIdx
      && f == TableOf(mem[..], dir, ENTRIES * (first / ENTRIES) + i) == Frame(Word(mem[..], dir, pdIdx))
    }

    /** The same turn, recorded. */
    method MapNext(f: nat, ptIdx: nat, ghost first: nat, ghost page: nat, ghost states: seq<Memory>, ghost seen: seq<bool>)
      returns (r: Mapping, ghost states': seq<Memory>, ghost seen': seq<bool>)
      requires Recorded(first, page, states, seen)
      requires f == TableOf(mem[..], dir, page) && ptIdx == page - ENTRIES * (first / ENTRIES)
      modifies Repr()
      ensures Parts()
      ensures r.Stopped? ==> pages.free == {}
      ensures r.PastMemory? ==> PastEnd(states', seen', old(State()), pages.pageCount, dir, first)
      ensures !r.Done? ==> states' == states && seen' == seen
      ensures r.Done? ==> Valid() && Run(states', seen', pages.pageCount, dir, first) && |seen'| == |seen| + 1
      ensures r.Done? ==> states'[0] == states[0] && states'[|seen'|] == State()
      ensures r.Done? ==> Word(mem[..], dir, page / ENTRIES) == old(Word(mem[..], dir, page / ENTRIES))
    {
      ghost var u := State();
      ghost var b;
      states', seen' := states, seen;
      r, b := MapPage(f, ptIdx, first, page);
      if r.Done? {
        TurnDone(states[|seen|], u, State(), pages.pageCount, dir, first, page, b);
        RunGrows(states, seen, pages.pageCount, dir, first, u, State(), b);
        states', seen' := states + [State()], seen + [b];
      }
    }

    /** What the inner loop keeps: it may go on, or has left the table, or cannot go on. */
    ghost predicate InLoop(r: Mapping, more: bool, first: nat, pdIdx: nat, ptIdx: nat, ptEnd: int, i: nat, f: nat,
                           states: seq<Memory>, seen: seq<bool>, s0: Memory, turns: nat)
      reads this, pages, pages.links, pages.links.next, pages.links.prev, pages.bits, mem
    {
      && Parts() && ptIdx <= i && |states| == |seen| + 1 && states[0] == s0 && first / ENTRIES <= pdIdx
      && match r
         case Stopped => pages.free == {}
         case PastMemory => exists u :: PastEnd(states, seen, u, pages.pageCount, dir, first)
         case Done =>
           && |seen| == turns + (i - ptIdx)
           && if more then InTable(first, pdIdx, ptIdx, ptEnd, i, f, states, seen)
              else RunTo(first, states, seen) && LeftAt(first / ENTRIES, pdIdx, ptIdx, ptEnd, i)
    }

    /** After a turn, by the test of the loop. */
    lemma LoopTested(first: nat, pdIdx: nat, ptIdx: nat, ptEnd: int, i: nat, f: nat, states: seq<Memory>, seen: seq<bool>,
                     s0: Memory, turns: nat, page: nat)
      requires RunTo(first, states, seen) && states[0] == s0 && |seen| == turns + (i + 1 - ptIdx)
      requires first / ENTRIES <= pdIdx == page / ENTRIES < ENTRIES && page == ENTRIES * (first / ENTRIES) + i
      requires ptIdx <= i && (i == ptIdx || i <= ptEnd) && page + 1 == first + |seen|
      requires f == Frame(Word(mem[..], dir, pdIdx)) && Present(Word(mem[..], dir, pdIdx))
      ensures InLoop(Done, (i + 1) % ENTRIES != 0 && i + 1 <= ptEnd, first, pdIdx, ptIdx, ptEnd, i + 1, f, states, seen, s0, turns)
    {
      TestOfLoop(first, pdIdx, ptIdx, ptEnd, i);
      if (i + 1) % ENTRIES != 0 && i + 1 <= ptEnd {
        assert Recorded(first, page + 1, states, seen);
      }
    }

    /** A turn of the inner loop, with its test. */
    method TableStep(pdIdx: nat, ptIdx: nat, ptEnd: int, i: nat, f: nat, ghost first: nat, ghost states: seq<Memory>,
        ghost seen: seq<bool>, ghost s0: Memory, ghost turns: nat)
      returns (r: Mapping, more: bool, next: nat, ghost states': seq<Memory>, ghost seen': seq<bool>)
      requires InLoop(Done, true, first, pdIdx, ptIdx, ptEnd, i, f, states, seen, s0, turns)
      modifies Repr()
      ensures InLoop(r, more, first, pdIdx, ptIdx, ptEnd, next, f, states', seen', s0, turns)
      ensures next == if r.Done? then i + 1 else i
    {
      ghost var page := ENTRIES * (first / ENTRIES) + i;
      r, states', seen' := MapNext(f, i, first, page, states, seen);
      more, next := false, i;
      if r.Done? {
        next := i + 1;
        more := next % ENTRIES != 0 && next <= ptEnd;
        LoopTested(first, pdIdx, ptIdx, ptEnd, i, f, states', seen', s0, turns, page);
      }
    }

    /** The inner loop, from page ptIdx on, in the table of directory entry pdIdx; the first page in any case. */
    method FillTable(pdIdx: nat, ptIdx: nat, ptEnd: int, ghost first: nat, ghost states: seq<Memory>, ghost seen: seq<bool>)
      returns (r: Mapping, i: nat, ghost states': seq<Memory>, ghost seen': seq<bool>)
      requires Recorded(first, ENTRIES * (first / ENTRIES) + ptIdx, states, seen)
      requires first / ENTRIES <= pdIdx == (ENTRIES * (first / ENTRIES) + ptIdx) / ENTRIES
      modifies Repr()
      ensures InLoop(r, false, first, pdIdx, ptIdx, ptEnd, i, old(Frame(mem[ENTRIES * dir + pdIdx])), states', seen', states[0], |seen|)
    {
      i, states', seen' := ptIdx, states, seen;
      var f := mem[ENTRIES * dir + pdIdx] / PAGE_SIZE;
      var more := true;
      r := Done;
      while more && r.Done?
        invariant InLoop(r, more, first, pdIdx, ptIdx, ptEnd, i, f, states', seen', states[0], |seen|)
        decreases PAGES - i, more, r.Done?
      {
        r, more, i, states', seen' := TableStep(pdIdx, ptIdx, ptEnd, i, f, first, states', seen', states[0], |seen|);
      }
    }

    /** What the outer loop keeps. */
    ghost predicate InSpans(r: Mapping, start: nat, end: nat, pdIdx: nat, pdEnd: nat, ptIdx: nat, ptEnd: int,
                            states: seq<Memory>, seen: seq<bool>, s0: Memory)
      reads this, pages, pages.links, pages.links.next, pages.links.prev, pages.bits, mem
    {
      && Parts() && start < WORD && |states| == |seen| + 1 && states[0] == s0
      && match r
         case Stopped => pages.free == {}
         case PastMemory => exists u :: PastEnd(states, seen, u, pages.pageCount, dir, start / PAGE_SIZE)
         case Done =>
           RunTo(start / PAGE_SIZE, states, seen) && Standing(start, end, pdIdx, pdEnd, ptIdx, ptEnd, |seen|)
    }

    /** Once the directory entry has a table, the next page may be looked at. */
    lemma TableReady(first: nat, page: nat, s: Memory, states: seq<Memory>, seen: seq<bool>)
      requires Valid() && Run(states, seen, pages.pageCount, dir, first) && page == first + |seen| < PAGES
      requires states[|seen|] == s && MemoryOk(s, pages.pageCount, dir)
      requires TableTurn(s, State(), dir, page / ENTRIES) && Present(Word(mem[..], dir, page / ENTRIES))
      ensures Recorded(first, page, states, seen)
    {
    }

    /** The table for the next page, if there is a page left for it. */
    method TableFor(pdIdx: nat, ghost pdEnd: nat, ghost ptIdx: nat, ghost ptEnd: int, ghost start: nat, ghost end: nat,
        ghost states: seq<Memory>, ghost seen: seq<bool>)
      returns (ok: bool)
      requires pdIdx <= pdEnd && |states| > 0 && InSpans(Done, start, end, pdIdx, pdEnd, ptIdx, ptEnd, states, seen, states[0])
      modifies Repr()
      ensures Parts() && if ok then Recorded(start / PAGE_SIZE, start / PAGE_SIZE + |seen|, states, seen) else pages.free == {}
    {
      NextPage(start, end, pdIdx, pdEnd, ptIdx, ptEnd, |seen|);
      ghost var s := State();
      ok := EnsureTable(pdIdx);
      if ok { TableReady(start / PAGE_SIZE, start / PAGE_SIZE + |seen|, s, states, seen); }
    }

    /** The inner loop, if there is a table for it, and what the outer loop keeps after it. */
    method FillNext(ok: bool, pdIdx: nat, pdEnd: nat, ptIdx: nat, ptEnd: int, ghost start: nat, ghost end: nat,
        ghost states: seq<Memory>, ghost seen: seq<bool>)
      returns (r: Mapping, i: nat, ghost states': seq<Memory>, ghost seen': seq<bool>)
      requires Parts() && start < WORD && |states| == |seen| + 1
      requires pdIdx <= pdEnd && Standing(start, end, pdIdx, pdEnd, ptIdx, ptEnd, |seen|)
      requires if ok then Recorded(start / PAGE_SIZE, start / PAGE_SIZE + |seen|, states, seen) else pages.free == {}
      modifies Repr()
      ensures InSpans(r, start, end, pdIdx + 1, pdEnd, i, ptEnd, states', seen', states[0])
    {
      if ok {
        NextPage(start, end, pdIdx, pdEnd, ptIdx, ptEnd, |seen|);
        r, i, states', seen' := FillTable(pdIdx, ptIdx, ptEnd, start / PAGE_SIZE, states, seen);
        if r.Done? { StandsAgain(start, end, pdIdx, pdEnd, ptIdx, ptEnd, |seen|, i); }
      } else {
        r, i, states', seen' := Mapping.Stopped, ptIdx, states, seen;
      }
    }

    /** A turn of the outer loop. */
    method FillSpan(pdIdx: nat, pdEnd: nat, ptIdx: nat, ptEnd: int, ghost start: nat, ghost end: nat,
        ghost states: seq<Memory>, ghost seen: seq<bool>)
      returns (r: Mapping, i: nat, ghost states': seq<Memory>, ghost seen': seq<bool>)
      requires pdIdx <= pdEnd && |states| > 0 && InSpans(Done, start, end, pdIdx, pdEnd, ptIdx, ptEnd, states, seen, states[0])
      modifies Repr()
      ensures InSpans(r, start, end, pdIdx + 1, pdEnd, i, ptEnd, states', seen', states[0])
    {
      var ok := TableFor(pdIdx, pdEnd, ptIdx, ptEnd, start, end, states, seen);
      r, i, states', seen' := FillNext(ok, pdIdx, pdEnd, ptIdx, ptEnd, start, end, states, seen);
    }

    /**
     map_vm_area, for the area from start to end.  It does a turn for every page up to StopsAt, in a run that begins
     and ends in the states before and after; or it stops for want of a free page; or it reads past the end of memory.
     */
    method MapVmArea(start: nat, end: nat) returns (r: Mapping, ghost states: seq<Memory>, ghost seen: seq<bool>)
      requires Valid() && start < WORD && end < WORD
      modifies Repr()
      ensures r.Stopped? ==> pages.free == {}
      ensures r.PastMemory? ==> |states| > 0 && states[0] == old(State())
                                && exists u :: PastEnd(states, seen, u, pages.pageCount, dir, start / PAGE_SIZE)
      ensures r.Done? ==> Valid() && Run(states, seen, pages.pageCount, dir, start / PAGE_SIZE)
      ensures r.Done? ==> |seen| == StopsAt(start, end) - start / PAGE_SIZE
      ensures r.Done? ==> states[0] == old(State()) && states[|seen|] == State()
    {
      var a, e := start / PAGE_SIZE * PAGE_SIZE, RoundedEnd(end);
      var pdIdx, pdEnd := a / SPAN, e / SPAN;
      var ptIdx: nat, ptEnd := a / PAGE_SIZE % ENTRIES, e / PAGE_SIZE % ENTRIES + (pdEnd - pdIdx) * ENTRIES;
      ghost var s0 := State();
      r, states, seen := Done, [s0], [];
      StandsAtFirst(start, end);
      while pdIdx <= pdEnd && r.Done?
        invariant InSpans(r, start, end, pdIdx, pdEnd, ptIdx, ptEnd, states, seen, s0)
        decreases pdEnd + 1 - pdIdx
      {
        r, ptIdx, states, seen := FillSpan(pdIdx, pdEnd, ptIdx, ptEnd, start, end, states, seen);
        pdIdx := pdIdx + 1;
      }
    }
  }
}
