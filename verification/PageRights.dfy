/**
 What the pages that map_vm_area (kernel/mm_vm.c) maps may be used for: the flags in the words of the directory and of
 its tables, over whole runs (sections 4.3 and 4.6 of the Intel 64 and IA-32 Architectures Software Developer's Manual,
 volume 3A).
 */
module PageRights {
  import opened PageTables
  import opened PageRuns

  /** The word of a page in its directory, 0 past the end of memory. */
  ghost function DirWord(m: seq<nat>, dir: nat, page: nat): nat {
    if 1024 * dir + page / 1024 < |m| then m[1024 * dir + page / 1024] else 0
  }

  /** The word of a page in the table that its directory word names. */
  ghost function TableWord(m: seq<nat>, dir: nat, page: nat): nat {
    var x := 1024 * (DirWord(m, dir, page) / 4096) + page % 1024;
    if x < |m| then m[x] else 0
  }

  /** Bits 0, 1 and 2: present, writable, for the user. */
  predicate OpenWord(w: nat) {
    w % 2 == 1 && w / 2 % 2 == 1 && w / 4 % 2 == 1
  }

  /** The process may read and write the page: both words say so. */
  ghost predicate Accessible(m: seq<nat>, dir: nat, page: nat) {
    OpenWord(DirWord(m, dir, page)) && OpenWord(TableWord(m, dir, page))
  }

  /** A directory word that was there stays; a new one has its three lowest bits set and no other flag. */
  ghost predicate DirKept(m0: seq<nat>, m: seq<nat>, dir: nat, page: nat) {
    if DirWord(m0, dir, page) % 2 == 1 then DirWord(m, dir, page) == DirWord(m0, dir, page)
    else DirWord(m, dir, page) % 2 == 1 ==> DirWord(m, dir, page) % 4096 == 7
  }

  /** A page that is new has a table word with these bits; any other keeps its word, or has none in a new table. */
  ghost predicate WordKept(m0: seq<nat>, m: seq<nat>, dir: nat, page: nat, isNew: bool) {
    if isNew then DirWord(m, dir, page) % 2 == 1 && TableWord(m, dir, page) % 4096 == 7
    else if DirWord(m0, dir, page) % 2 == 1 then TableWord(m, dir, page) == TableWord(m0, dir, page)
    else DirWord(m, dir, page) % 2 == 1 ==> TableWord(m, dir, page) == 0
  }

  /** Both words of a page, from one state of memory to a later one. */
  ghost predicate WordsKept(m0: seq<nat>, m: seq<nat>, dir: nat, page: nat, isNew: bool) {
    DirKept(m0, m, dir, page) && WordKept(m0, m, dir, page, isNew)
  }

  lemma KeptAgain(m0: seq<nat>, m: seq<nat>, t: seq<nat>, dir: nat, page: nat, before: bool, now: bool)
    requires WordsKept(m0, m, dir, page, before) && WordsKept(m, t, dir, page, now)
    ensures WordsKept(m0, t, dir, page, before || now)
  {
  }

  /** A table of the directory is neither a free page nor the directory itself. */
  lemma WordsAre(m: seq<nat>, n: nat, dir: nat, free: set<nat>, page: nat)
    requires TablesOk(m, n, dir, free) && page < PAGES
    ensures DirWord(m, dir, page) == Word(m, dir, page / ENTRIES)
    ensures Present(Word(m, dir, page / ENTRIES)) ==>
              var f := TableOf(m, dir, page);
              f < n && f != dir && f !in free && TableWord(m, dir, page) == m[Slot(m, dir, page)]
  {
    if Present(Word(m, dir, page / ENTRIES)) { assert TableAt(m, n, dir, free, page / ENTRIES); }
  }

  /** Word k of page g, after page q was cleared and word i of page f set. */
  lemma WordAfter(m: seq<nat>, q: nat, f: nat, i: nat, w: nat, g: nat, k: nat)
    requires ENTRIES * q + ENTRIES <= |m| && ENTRIES * f + i < |m| && ENTRIES * g + k < |m| && i < ENTRIES && k < ENTRIES
    ensures WithWord(PageCleared(m, q), f, i, w)[ENTRIES * g + k]
            == if g == f && k == i then w else if g == q then 0 else m[ENTRIES * g + k]
  {
  }

  /** A cleared page becomes the table of directory entry i. */
  lemma TableMadeKeeps(s: Memory, u: Memory, n: nat, dir: nat, i: nat, q: nat, page: nat)
    requires MemoryOk(s, n, dir) && i < ENTRIES && page < PAGES && !Present(Word(s.words, dir, i)) && TableMade(s, u, dir, i, q)
    ensures WordsKept(s.words, u.words, dir, page, false)
  {
    WordsAre(s.words, n, dir, s.free, page);
    TableMadeMeans(s, u, n, dir, i, q);
    WordsAre(u.words, n, dir, u.free, page);
    WordAfter(s.words, q, dir, i, Entry(q), dir, page / ENTRIES);
    if Present(Word(u.words, dir, page / ENTRIES)) {
      WordAfter(s.words, q, dir, i, Entry(q), TableOf(u.words, dir, page), page % ENTRIES);
    }
  }

  /** A new table changes no words of pages but of those it is for, which it has at 0. */
  lemma TableTurnKeeps(s: Memory, u: Memory, n: nat, dir: nat, i: nat, page: nat)
    requires MemoryOk(s, n, dir) && i < ENTRIES && page < PAGES && TableTurn(s, u, dir, i)
    ensures WordsKept(s.words, u.words, dir, page, false)
  {
    if !Present(Word(s.words, dir, i)) {
      var q :| TableMade(s, u, dir, i, q);
      TableMadeKeeps(s, u, n, dir, i, q, page);
    }
  }

  /** The word of a page that has a table, after page `at` was mapped. */
  lemma SlotAfter(u: Memory, t: Memory, n: nat, dir: nat, at: nat, q: nat, page: nat)
    requires MemoryOk(u, n, dir) && at < PAGES && page < PAGES && Present(Word(u.words, dir, at / ENTRIES)) && PageMade(u, t, dir, at, q)
    requires Present(Word(u.words, dir, page / ENTRIES))
    ensures Slot(u.words, dir, page) < |u.words| == |t.words|
    ensures t.words[Slot(u.words, dir, page)] == if page == at then Entry(q) else u.words[Slot(u.words, dir, page)]
  {
    WordsAre(u.words, n, dir, u.free, page);
    SlotsApart(u.words, n, dir, u.free, at, page);
    WordAfter(u.words, q, TableOf(u.words, dir, at), at % ENTRIES, Entry(q), TableOf(u.words, dir, page), page % ENTRIES);
  }

  lemma PageMadeKeeps(u: Memory, t: Memory, n: nat, dir: nat, at: nat, q: nat, page: nat)
    requires MemoryOk(u, n, dir) && at < PAGES && page < PAGES && Present(Word(u.words, dir, at / ENTRIES)) && PageMade(u, t, dir, at, q)
    ensures WordsKept(u.words, t.words, dir, page, page == at)
  {
    WordsAre(u.words, n, dir, u.free, page);
    EntriesApart(u.words, n, dir, u.free, at, q);
    assert Word(t.words, dir, page / ENTRIES) == Word(u.words, dir, page / ENTRIES);
    if Present(Word(u.words, dir, page / ENTRIES)) {
      SlotAfter(u, t, n, dir, at, q, page);
    }
  }

  /** A page that is mapped has the three bits set in its table word; no other word of any page changes. */
  lemma PageTurnKeeps(u: Memory, t: Memory, n: nat, dir: nat, first: nat, at: nat, seen: bool, page: nat)
    requires MemoryOk(u, n, dir) && first <= at < PAGES && page < PAGES && PageTurn(u, t, dir, first, at, seen)
    ensures WordsKept(u.words, t.words, dir, page, page == at && !seen)
  {
    if !seen {
      var q :| PageMade(u, t, dir, at, q);
      PageMadeKeeps(u, t, n, dir, at, q, page);
    }
  }

  /** Different pages have different words. */
  lemma SlotsApart(m: seq<nat>, n: nat, dir: nat, free: set<nat>, p: nat, q: nat)
    requires TablesOk(m, n, dir, free) && p < PAGES && q < PAGES
    requires Present(Word(m, dir, p / ENTRIES)) && Present(Word(m, dir, q / ENTRIES))
    ensures p != q ==> Slot(m, dir, p) != Slot(m, dir, q)
  {
    if p / ENTRIES != q / ENTRIES {
      assert TableOf(m, dir, p) != TableOf(m, dir, q);
    }
  }

  /** A turn, with its table. */
  lemma TurnKeeps(s: Memory, t: Memory, n: nat, dir: nat, first: nat, at: nat, seen: bool, page: nat)
    requires page < PAGES && Turn(s, t, n, dir, first, at, seen)
    ensures WordsKept(s.words, t.words, dir, page, page == at && !seen)
  {
    var u :| TurnBy(s, u, t, n, dir, first, at, seen);
    TableTurnKeeps(s, u, n, dir, at / ENTRIES, page);
    PageTurnKeeps(u, t, n, dir, first, at, seen, page);
    KeptAgain(s.words, u.words, t.words, dir, page, false, page == at && !seen);
  }

  /** The page is one that the run goes over in turns j to k - 1, and was not seen. */
  predicate NewPage(seen: seq<bool>, a: nat, j: nat, k: nat, page: nat)
    requires j <= k <= |seen|
  {
    a + j <= page < a + k && !seen[page - a]
  }

  lemma NextIsNew(seen: seq<bool>, a: nat, j: nat, k: nat, page: nat)
    requires j <= k < |seen|
    ensures NewPage(seen, a, j, k + 1, page) == (NewPage(seen, a, j, k, page) || (page == a + k && !seen[k]))
  {
  }

  lemma KeepsMore(m0: seq<nat>, s: Memory, t: Memory, n: nat, dir: nat, first: nat, at: nat, seen: bool, page: nat, before: bool)
    requires page < PAGES && Turn(s, t, n, dir, first, at, seen) && WordsKept(m0, s.words, dir, page, before)
    ensures WordsKept(m0, t.words, dir, page, before || (page == at && !seen))
  {
    TurnKeeps(s, t, n, dir, first, at, seen, page);
    KeptAgain(m0, s.words, t.words, dir, page, before, page == at && !seen);
  }

  /** Turns j to k - 1 of a run. */
  lemma {:induction false} RunKeeps(states: seq<Memory>, seen: seq<bool>, n: nat, dir: nat, a: nat, j: nat, k: nat, page: nat)
    requires Run(states, seen, n, dir, a) && j <= k <= |seen| && page < PAGES
    ensures WordsKept(states[j].words, states[k].words, dir, page, NewPage(seen, a, j, k, page))
    decreases k
  {
    if k > j {
      var m0, s, t, at, b, before := states[j].words, states[k - 1], states[k], a + (k - 1), seen[k - 1], NewPage(seen, a, j, k - 1, page);
      RunKeeps(states, seen, n, dir, a, j, k - 1, page);
      TurnAt(states, seen, n, dir, a, k - 1, s, t, at, b);
      NextIsNew(seen, a, j, k - 1, page);
      assert NewPage(seen, a, j, k, page) == (before || (page == at && !b));
      KeepsMore(m0, s, t, n, dir, a, at, b, page, before);
    } else {
      assert !NewPage(seen, a, j, j, page);
    }
  }

  /**
   After a run: a page gone over and not seen is open to the process exactly if its directory word was absent, or open,
   before; its table word has the flags 7, as has a directory word made on the way.  Any other page that had a table
   has the words it had, and so is open exactly if it was.
   */
  lemma RunOpens(states: seq<Memory>, seen: seq<bool>, n: nat, dir: nat, a: nat, page: nat)
    requires Run(states, seen, n, dir, a) && page < PAGES
    ensures var m0, m := states[0].words, states[|seen|].words;
            var there := DirWord(m0, dir, page) % 2 == 1;
            && (there ==> DirWord(m, dir, page) == DirWord(m0, dir, page))
            && (!there && DirWord(m, dir, page) % 2 == 1 ==> DirWord(m, dir, page) % 4096 == 7)
            && if a <= page < a + |seen| && !seen[page - a] then
                 TableWord(m, dir, page) % 4096 == 7 && (Accessible(m, dir, page) <==> !there || OpenWord(DirWord(m0, dir, page)))
               else
                 there ==> TableWord(m, dir, page) == TableWord(m0, dir, page) && (Accessible(m, dir, page) <==> Accessible(m0, dir, page))
  {
    RunKeeps(states, seen, n, dir, a, 0, |seen|, page);
    var w, v := DirWord(states[|seen|].words, dir, page), TableWord(states[|seen|].words, dir, page);
    SevenIsOpen(w);
    SevenIsOpen(v);
  }

  lemma SevenIsOpen(w: nat)
    ensures w % 4096 == 7 ==> OpenWord(w)
  {
    assert w == 4096 * (w / 4096) + w % 4096;
  }

  // What the pages hold

  /** Page q is in use, and neither the directory nor one of its tables. */
  ghost predicate DataPage(s: Memory, n: nat, dir: nat, q: nat) {
    && MemoryOk(s, n, dir) && q < n && q != dir && q !in s.free
    && forall i: nat :: i < ENTRIES && Present(Word(s.words, dir, i)) ==> Frame(Word(s.words, dir, i)) != q
  }

  /** Page q holds what it held. */
  ghost predicate PageSame(m0: seq<nat>, m: seq<nat>, q: nat) {
    |m0| == |m| && forall x :: 1024 * q <= x < 1024 * q + 1024 && x < |m| ==> m[x] == m0[x]
  }

  ghost predicate PageZero(m: seq<nat>, q: nat) {
    1024 * q + 1024 <= |m| && forall x :: 1024 * q <= x < 1024 * q + 1024 ==> m[x] == 0
  }

  /** Clearing page q and setting a word of page f changes no other page. */
  lemma OtherPages(m: seq<nat>, q: nat, f: nat, i: nat, w: nat, p: nat)
    requires ENTRIES * q + ENTRIES <= |m| && ENTRIES * f + i < |m| && i < ENTRIES && p != f
    ensures p != q ==> PageSame(m, WithWord(PageCleared(m, q), f, i, w), p)
    ensures p == q ==> PageZero(WithWord(PageCleared(m, q), f, i, w), p)
  {
    var r := WithWord(PageCleared(m, q), f, i, w);
    forall x | 1024 * p <= x < 1024 * p + 1024 && x < |m| ensures r[x] == if p == q then 0 else m[x] {
      WordAfter(m, q, f, i, w, p, x - 1024 * p);
    }
  }

  lemma TableTurnData(s: Memory, u: Memory, n: nat, dir: nat, i: nat, q: nat)
    requires i < ENTRIES && TableTurn(s, u, dir, i) && DataPage(s, n, dir, q)
    ensures DataPage(u, n, dir, q) && PageSame(s.words, u.words, q)
  {
    if !Present(Word(s.words, dir, i)) {
      var p :| TableMade(s, u, dir, i, p);
      TableMadeMeans(s, u, n, dir, i, p);
      OtherPages(s.words, p, dir, i, Entry(p), q);
    }
  }

  /** A page that is mapped gets a cleared frame; other data pages stay what they are. */
  lemma PageMadeData(u: Memory, t: Memory, n: nat, dir: nat, page: nat, p: nat, q: nat)
    requires MemoryOk(u, n, dir) && MemoryOk(t, n, dir) && page < PAGES && Present(Word(u.words, dir, page / ENTRIES))
    requires PageMade(u, t, dir, page, p) && EntriesKept(u, t, n, dir, page / ENTRIES)
    requires p == q || DataPage(u, n, dir, q)
    ensures DataPage(t, n, dir, q) && if p == q then PageZero(t.words, q) else PageSame(u.words, t.words, q)
  {
    assert TableAt(u.words, n, dir, u.free, page / ENTRIES);
    OtherPages(u.words, p, TableOf(u.words, dir, page), page % ENTRIES, Entry(p), q);
    forall i: nat | i < ENTRIES && Present(Word(t.words, dir, i)) ensures Frame(Word(t.words, dir, i)) != q {
      assert TableAt(u.words, n, dir, u.free, i);
    }
  }

  /** A turn leaves data pages what they are. */
  lemma TurnSparesData(s: Memory, t: Memory, n: nat, dir: nat, first: nat, at: nat, seen: bool, q: nat)
    requires Turn(s, t, n, dir, first, at, seen) && DataPage(s, n, dir, q)
    ensures DataPage(t, n, dir, q) && PageSame(s.words, t.words, q)
  {
    var u :| TurnBy(s, u, t, n, dir, first, at, seen);
    var _ := PageTurnMeans(u, t, n, dir, first, at, seen);
    TableTurnData(s, u, n, dir, at / ENTRIES, q);
    if !seen {
      var p :| PageMade(u, t, dir, at, p);
      PageMadeData(u, t, n, dir, at, p, q);
    }
  }

  lemma FrameOfNew(u: Memory, t: Memory, n: nat, dir: nat, at: nat, p: nat)
    requires MemoryOk(u, n, dir) && MemoryOk(t, n, dir) && at < PAGES && Present(Word(u.words, dir, at / ENTRIES))
    requires PageMade(u, t, dir, at, p) && EntriesKept(u, t, n, dir, at / ENTRIES)
    ensures TableWord(t.words, dir, at) / 4096 == p
  {
    WordsAre(t.words, n, dir, t.free, at);
    SlotAfter(u, t, n, dir, at, p, at);
  }

  /** If it maps its page, the frame is a cleared one. */
  lemma PageTurnMapsZeros(u: Memory, t: Memory, n: nat, dir: nat, first: nat, at: nat, q: nat)
    requires MemoryOk(u, n, dir) && first <= at < PAGES && PageTurn(u, t, dir, first, at, false) && q == TableWord(t.words, dir, at) / 4096
    ensures DataPage(t, n, dir, q) && PageZero(t.words, q)
  {
    var _ := PageTurnMeans(u, t, n, dir, first, at, false);
    var p :| PageMade(u, t, dir, at, p);
    FrameOfNew(u, t, n, dir, at, p);
    PageMadeData(u, t, n, dir, at, p, p);
  }

  lemma TurnMapsZeros(s: Memory, t: Memory, n: nat, dir: nat, first: nat, at: nat, q: nat)
    requires Turn(s, t, n, dir, first, at, false) && q == TableWord(t.words, dir, at) / 4096
    ensures DataPage(t, n, dir, q) && PageZero(t.words, q)
  {
    var u :| TurnBy(s, u, t, n, dir, first, at, false);
    PageTurnMapsZeros(u, t, n, dir, first, at, q);
  }

  /** Turns j to k - 1 of a run leave data pages what they are. */
  lemma {:induction false} RunData(states: seq<Memory>, seen: seq<bool>, n: nat, dir: nat, a: nat, j: nat, k: nat, q: nat)
    requires Run(states, seen, n, dir, a) && j <= k <= |seen| && DataPage(states[j], n, dir, q)
    ensures DataPage(states[k], n, dir, q) && PageSame(states[j].words, states[k].words, q)
    decreases k
  {
    if k > j {
      var s, t, at, b := states[k - 1], states[k], a + (k - 1), seen[k - 1];
      RunData(states, seen, n, dir, a, j, k - 1, q);
      TurnAt(states, seen, n, dir, a, k - 1, s, t, at, b);
      TurnSparesData(s, t, n, dir, a, at, b, q);
    }
  }

  /** A page in use that is neither directory nor table holds after a run what it held before. */
  lemma RunSparesData(states: seq<Memory>, seen: seq<bool>, n: nat, dir: nat, a: nat, q: nat)
    requires Run(states, seen, n, dir, a) && DataPage(states[0], n, dir, q)
    ensures DataPage(states[|seen|], n, dir, q) && PageSame(states[0].words, states[|seen|].words, q)
  {
    RunData(states, seen, n, dir, a, 0, |seen|, q);
  }

  lemma ZeroLater(m: seq<nat>, m': seq<nat>, dir: nat, page: nat, q: nat)
    requires PageZero(m, q) && PageSame(m, m', q) && q == TableWord(m, dir, page) / 4096
    requires DirWord(m, dir, page) % 2 == 1 && WordsKept(m, m', dir, page, false)
    ensures PageZero(m', TableWord(m', dir, page) / 4096)
  {
  }

  /** The page of turn i, which is mapped by it, has a frame of zeros after it. */
  lemma ZeroAtTurn(states: seq<Memory>, seen: seq<bool>, n: nat, dir: nat, a: nat, i: nat, t: Memory, page: nat, q: nat)
    requires Run(states, seen, n, dir, a) && i < |seen| && !seen[i] && t == states[i + 1] && page == a + i
    requires q == TableWord(t.words, dir, page) / 4096
    ensures DataPage(t, n, dir, q) && PageZero(t.words, q) && DirWord(t.words, dir, page) % 2 == 1
  {
    TurnAt(states, seen, n, dir, a, i, states[i], t, page, false);
    TurnMapsZeros(states[i], t, n, dir, a, page, q);
    TurnKeeps(states[i], t, n, dir, a, page, false, page);
  }

  /** A page that a run maps has a frame of zeros at its end. */
  lemma NewPagesZero(states: seq<Memory>, seen: seq<bool>, n: nat, dir: nat, a: nat, i: nat)
    requires Run(states, seen, n, dir, a) && i < |seen| && !seen[i]
    ensures var m := states[|seen|].words; PageZero(m, TableWord(m, dir, a + i) / 4096)
  {
    var t, page := states[i + 1], a + i;
    var q := TableWord(t.words, dir, page) / 4096;
    ZeroAtTurn(states, seen, n, dir, a, i, t, page, q);
    RunData(states, seen, n, dir, a, i + 1, |seen|, q);
    RunKeeps(states, seen, n, dir, a, i + 1, |seen|, page);
    ZeroLater(t.words, states[|seen|].words, dir, page, q);
  }
}
