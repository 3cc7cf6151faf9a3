/**
 The loops of map_vm_area (kernel/mm_vm.c) as a run of turns over memory and the free pages, one turn to a page.

 The source reads the word that tells whether a page is mapped at an index it does not reduce to the 1024 entries of
 a table, so that from the second table on it reads a word of some other page of memory.  A run records what each of
 these words said; the theorems tell when that is what the page's own word says.
 */
module PageRuns {
  import opened Machine
  import opened PageTables

  datatype Memory = Memory(words: seq<nat>, free: set<nat>)

  ghost predicate MemoryOk(s: Memory, n: nat, dir: nat) {
    TablesOk(s.words, n, dir, s.free)
  }

  // ------------------------------------------------------------------ which pages

  /** The end that map_vm_area computes: rounded up to a page, less one, as 32-bit words. */
  function RoundedEnd(end: nat): (e: nat)
    ensures e < WORD
  {
    ((end + 0xfff) % WORD / PAGE_SIZE * PAGE_SIZE + WORD - 1) % WORD
  }

  /** The page before which map_vm_area stops: its loop does a first page whenever the span is not left at once. */
  function StopsAt(start: nat, end: nat): (b: nat)
    requires start < WORD
    ensures start / PAGE_SIZE <= b <= PAGES
  {
    var a, e := start / PAGE_SIZE, RoundedEnd(end);
    if start / SPAN > e / SPAN then a else if e / PAGE_SIZE < a then a + 1 else e / PAGE_SIZE + 1
  }

  /** `end`, the area's last byte, is 0, or is not the first byte of a page other than the area's first, nor of a span. */
  predicate LastPageToo(start: nat, end: nat) {
    end == 0 || end % PAGE_SIZE != 0 || (start / PAGE_SIZE == end / PAGE_SIZE && end % SPAN != 0)
  }

  lemma RoundedEndIs(end: nat, q: nat, r: nat)
    requires 0 < end < WORD && end == q * PAGE_SIZE + r && r < PAGE_SIZE
    ensures RoundedEnd(end) == if r == 0 then end - 1 else q * PAGE_SIZE + PAGE_SIZE - 1
  {
    if r != 0 && q + 1 < PAGES {
      assert (end + 0xfff) / PAGE_SIZE == q + 1;
    }
  }

  /**
   All pages of the area but the last one are gone over; the last one is just if LastPageToo.  For the area that is
   the byte 0 alone the rounded end wraps, and all 2^20 pages are gone over.
   */
  lemma WholeArea(start: nat, end: nat)
    requires start <= end < WORD
    ensures StopsAt(start, end)
            == if end == 0 then PAGES else if LastPageToo(start, end) then end / PAGE_SIZE + 1 else end / PAGE_SIZE
  {
    if end > 0 { RoundedEndIs(end, end / PAGE_SIZE, end % PAGE_SIZE); }
  }

  // ------------------------------------------------------------------ turns

  ghost predicate TableMade(s: Memory, u: Memory, dir: nat, i: nat, q: nat) {
    && ENTRIES * dir + i < |s.words| && q in s.free && ENTRIES * q + ENTRIES <= |s.words|
    && u == Memory(WithWord(PageCleared(s.words, q), dir, i, Entry(q)), s.free - {q})
  }

  /** Directory entry i has a table, if need be a cleared fresh page. */
  ghost predicate TableTurn(s: Memory, u: Memory, dir: nat, i: nat) {
    ENTRIES * dir + i < |s.words| &&
    if Present(Word(s.words, dir, i)) then u == s else exists q :: TableMade(s, u, dir, i, q)
  }

  /** The table of a page. */
  ghost function TableOf(m: seq<nat>, dir: nat, page: nat): nat
    requires ENTRIES * dir + page / ENTRIES < |m|
  {
    Frame(Word(m, dir, page / ENTRIES))
  }

  /** The page's own word. */
  ghost function Slot(m: seq<nat>, dir: nat, page: nat): nat
    requires ENTRIES * dir + page / ENTRIES < |m|
  {
    ENTRIES * TableOf(m, dir, page) + page % ENTRIES
  }

  /** The word that is read for a page: its index counts on from the table of page `first`. */
  ghost function WordRead(m: seq<nat>, dir: nat, first: nat, page: nat): nat
    requires ENTRIES * dir + page / ENTRIES < |m| && first <= page
  {
    ENTRIES * TableOf(m, dir, page) + (page - ENTRIES * (first / ENTRIES))
  }

  ghost predicate PageMade(u: Memory, t: Memory, dir: nat, page: nat, q: nat) {
    && ENTRIES * dir + page / ENTRIES < |u.words| && q in u.free && ENTRIES * q + ENTRIES <= |u.words| && Slot(u.words, dir, page) < |u.words|
    && t == Memory(WithWord(PageCleared(u.words, q), TableOf(u.words, dir, page), page % ENTRIES, Entry(q)), u.free - {q})
  }

  /** The page is left alone if the word that is read says it is there; else it gets a cleared fresh frame. */
  ghost predicate PageTurn(u: Memory, t: Memory, dir: nat, first: nat, page: nat, seen: bool) {
    ENTRIES * dir + page / ENTRIES < |u.words| && first <= page &&
    var x := WordRead(u.words, dir, first, page);
    && Present(Word(u.words, dir, page / ENTRIES))
    && x < |u.words| && (seen <==> Present(u.words[x]))
    && if seen then t == u else exists q :: PageMade(u, t, dir, page, q)
  }

  ghost predicate TurnBy(s: Memory, u: Memory, t: Memory, n: nat, dir: nat, first: nat, page: nat, seen: bool) {
    && MemoryOk(s, n, dir) && MemoryOk(u, n, dir) && first <= page < PAGES
    && TableTurn(s, u, dir, page / ENTRIES) && PageTurn(u, t, dir, first, page, seen)
  }

  ghost predicate Turn(s: Memory, t: Memory, n: nat, dir: nat, first: nat, page: nat, seen: bool) {
    exists u :: TurnBy(s, u, t, n, dir, first, page, seen)
  }

  /** states are memory and free pages before, between and after the turns for the pages from a on. */
  ghost predicate Run(states: seq<Memory>, seen: seq<bool>, n: nat, dir: nat, a: nat) {
    && |states| == |seen| + 1 && MemoryOk(states[0], n, dir) && a + |seen| <= PAGES
    && forall i: nat :: i < |seen| ==> TurnNo(states, seen, n, dir, a, i)
  }

  /** Turn number i of a run. */
  ghost predicate TurnNo(states: seq<Memory>, seen: seq<bool>, n: nat, dir: nat, a: nat, i: nat)
    requires |states| == |seen| + 1 && i < |seen|
  {
    Turn(states[i], states[i + 1], n, dir, a, a + i, seen[i])
  }

  lemma RunGrows(states: seq<Memory>, seen: seq<bool>, n: nat, dir: nat, a: nat, u: Memory, t: Memory, b: bool)
    requires Run(states, seen, n, dir, a) && TurnBy(states[|seen|], u, t, n, dir, a, a + |seen|, b)
    ensures Run(states + [t], seen + [b], n, dir, a)
  {
    forall i: nat | i < |seen| + 1 ensures TurnNo(states + [t], seen + [b], n, dir, a, i) {
      if i < |seen| {
        assert TurnNo(states, seen, n, dir, a, i);
      } else {
        assert TurnBy(states[|seen|], u, t, n, dir, a, a + |seen|, b);
      }
    }
  }

  // ------------------------------------------------------------------ what a turn does to the translation

  /** The directory entries other than number i are the same; entry i is there, and the same if it was there before. */
  ghost predicate EntriesKept(s: Memory, t: Memory, n: nat, dir: nat, i: nat)
    requires |s.words| == ENTRIES * n == |t.words| && dir < n && i < ENTRIES
  {
    && Present(Word(t.words, dir, i))
    && forall j: nat :: j < ENTRIES && (j != i || Present(Word(s.words, dir, i))) ==> Word(t.words, dir, j) == Word(s.words, dir, j)
  }

  /** The frame of a new table, if there is one. */
  ghost function NewTable(s: Memory, u: Memory, dir: nat, i: nat): set<nat>
    requires ENTRIES * dir + i < |s.words| == |u.words|
  {
    if Present(Word(s.words, dir, i)) then {} else {Frame(Word(u.words, dir, i))}
  }

  lemma TableMadeMeans(s: Memory, u: Memory, n: nat, dir: nat, i: nat, q: nat)
    requires MemoryOk(s, n, dir) && i < ENTRIES && !Present(Word(s.words, dir, i)) && TableMade(s, u, dir, i, q)
    ensures MemoryOk(u, n, dir) && EntriesKept(s, u, n, dir, i) && Frame(Word(u.words, dir, i)) == q
    ensures Translation(u.words, dir) == Translation(s.words, dir)
  {
    AddTable(s.words, n, dir, s.free, i, q);
  }

  lemma TableTurnMeans(s: Memory, u: Memory, n: nat, dir: nat, i: nat)
    requires MemoryOk(s, n, dir) && i < ENTRIES && TableTurn(s, u, dir, i)
    ensures MemoryOk(u, n, dir) && EntriesKept(s, u, n, dir, i)
    ensures Translation(u.words, dir) == Translation(s.words, dir)
    ensures NewTable(s, u, dir, i) <= s.free && u.free == s.free - NewTable(s, u, dir, i)
  {
    if !Present(Word(s.words, dir, i)) {
      var q :| TableMade(s, u, dir, i, q);
      TableMadeMeans(s, u, n, dir, i, q);
    }
  }

  lemma PageTurnMeans(u: Memory, t: Memory, n: nat, dir: nat, first: nat, page: nat, seen: bool) returns (q: nat)
    requires MemoryOk(u, n, dir) && first <= page < PAGES && PageTurn(u, t, dir, first, page, seen)
    ensures MemoryOk(t, n, dir) && EntriesKept(u, t, n, dir, page / ENTRIES)
    ensures seen ==> t == u
    ensures !seen ==> Translation(t.words, dir) == Translation(u.words, dir)[page := Some(q)]
    ensures !seen ==> q in u.free && t.free == u.free - {q}
  {
    q := 0;
    if !seen {
      q :| PageMade(u, t, dir, page, q);
      AddPage(u.words, n, dir, u.free, page, q);
      EntriesApart(u.words, n, dir, u.free, page, q);
    }
  }

  lemma EntriesApart(m: seq<nat>, n: nat, dir: nat, free: set<nat>, page: nat, q: nat)
    requires TablesOk(m, n, dir, free) && page < PAGES && q in free && Present(Word(m, dir, page / ENTRIES))
    ensures ENTRIES * q + ENTRIES <= |m| && Slot(m, dir, page) < |m|
    ensures forall j: nat :: j < ENTRIES ==>
              Word(WithWord(PageCleared(m, q), TableOf(m, dir, page), page % ENTRIES, Entry(q)), dir, j) == Word(m, dir, j)
  {
    assert TableAt(m, n, dir, free, page / ENTRIES);
  }

  lemma TurnMeans(s: Memory, t: Memory, n: nat, dir: nat, first: nat, page: nat, seen: bool) returns (q: nat)
    requires MemoryOk(s, n, dir) && Turn(s, t, n, dir, first, page, seen)
    ensures MemoryOk(t, n, dir) && page < PAGES && EntriesKept(s, t, n, dir, page / ENTRIES)
    ensures Translation(t.words, dir)
            == if seen then Translation(s.words, dir) else Translation(s.words, dir)[page := Some(q)]
    ensures var table := NewTable(s, t, dir, page / ENTRIES);
            table <= s.free && if seen then t.free == s.free - table else q in s.free - table && t.free == s.free - table - {q}
  {
    var u :| TurnBy(s, u, t, n, dir, first, page, seen);
    TableTurnMeans(s, u, n, dir, page / ENTRIES);
    q := PageTurnMeans(u, t, n, dir, first, page, seen);
  }

  /** A turn whose table was made already. */
  lemma TurnDone(s: Memory, u: Memory, t: Memory, n: nat, dir: nat, first: nat, page: nat, b: bool)
    requires MemoryOk(s, n, dir) && MemoryOk(u, n, dir) && first <= page < PAGES
    requires TableTurn(s, u, dir, page / ENTRIES) && PageTurn(u, t, dir, first, page, b)
    ensures MemoryOk(t, n, dir) && TurnBy(s, u, t, n, dir, first, page, b)
    ensures Word(t.words, dir, page / ENTRIES) == Word(u.words, dir, page / ENTRIES)
  {
    var q := PageTurnMeans(u, t, n, dir, first, page, b);
  }

  // ------------------------------------------------------------------ what a run does to the translation

  /** A page that was not seen maps to q. */
  ghost predicate Holds(t: seq<Option<nat>>, a: nat, seen: seq<bool>, q: nat)
    requires a + |seen| <= |t|
  {
    exists i :: 0 <= i < |seen| && !seen[i] && t[a + i] == Some(q)
  }

  /**
   Pages that were seen, and pages the run did not come to, keep their translations.  The others have new frames:
   frames that were free, a different one each.  No free page went anywhere else but into `tables`.
   */
  ghost predicate FramesGiven(t0: seq<Option<nat>>, free0: set<nat>, t: seq<Option<nat>>, free: set<nat>, a: nat, seen: seq<bool>, tables: set<nat>)
    requires |t0| == |t| && a + |seen| <= |t|
  {
    && free <= free0
    && (forall p :: 0 <= p < |t| && (p < a || a + |seen| <= p || seen[p - a]) ==> t[p] == t0[p])
    && (forall i :: 0 <= i < |seen| && !seen[i] ==> t[a + i].Some? && t[a + i].value in free0 - free)
    && (forall i, j :: 0 <= i < j < |seen| && !seen[i] && !seen[j] ==> t[a + i] != t[a + j])
    && (forall q :: q in free0 - free ==> q in tables || Holds(t, a, seen, q))
  }

  lemma FilledMore(t0: seq<Option<nat>>, free0: set<nat>, t: seq<Option<nat>>, free: set<nat>, a: nat, seen: seq<bool>,
                   tables: set<nat>, t': seq<Option<nat>>, free': set<nat>, page: nat, b: bool, q: nat, table: set<nat>)
    requires |t0| == |t| && page == a + |seen| < |t| && FramesGiven(t0, free0, t, free, a, seen, tables)
    requires t' == (if b then t else t[page := Some(q)]) && table <= free
    requires if b then free' == free - table else q in free - table && free' == free - table - {q}
    ensures FramesGiven(t0, free0, t', free', a, seen + [b], tables + table)
  {
    var more := seen + [b];
    forall x | x in free0 - free' ensures x in tables + table || Holds(t', a, more, x) {
      if x in free0 - free && x !in tables {
        assert Holds(t, a, seen, x);
        var i :| 0 <= i < |seen| && !seen[i] && t[a + i] == Some(x);
        assert !more[i] && t'[a + i] == Some(x);
      } else if x !in tables + table {
        assert !more[|seen|] && t'[a + |seen|] == Some(q);
      }
    }
    forall i, j | 0 <= i < j < |more| && !more[i] && !more[j] ensures t'[a + i] != t'[a + j] {
      if j == |seen| { assert !seen[i] && t[a + i].value !in free; }
    }
  }

  /** The new tables of a run. */
  ghost predicate TableFrames(tables: set<nat>, m0: seq<nat>, m: seq<nat>, dir: nat)
    requires ENTRIES * dir + ENTRIES <= |m0| == |m|
  {
    forall q :: q in tables ==> TableFrame(q, m0, m, dir)
  }

  /** q is the table of a directory entry that had none. */
  ghost predicate TableFrame(q: nat, m0: seq<nat>, m: seq<nat>, dir: nat)
    requires ENTRIES * dir + ENTRIES <= |m0| == |m|
  {
    exists i: nat :: i < ENTRIES && !Present(Word(m0, dir, i)) && Present(Word(m, dir, i)) && Frame(Word(m, dir, i)) == q
  }

  /** Directory entries that were there are the same. */
  ghost predicate EntriesStay(m0: seq<nat>, m: seq<nat>, dir: nat)
    requires ENTRIES * dir + ENTRIES <= |m0| == |m|
  {
    forall j: nat :: j < ENTRIES && Present(Word(m0, dir, j)) ==> Word(m, dir, j) == Word(m0, dir, j)
  }

  lemma TablesMore(tables: set<nat>, m0: seq<nat>, s: Memory, t: Memory, n: nat, dir: nat, i: nat)
    requires |m0| == ENTRIES * n && MemoryOk(s, n, dir) && MemoryOk(t, n, dir) && i < ENTRIES
    requires EntriesKept(s, t, n, dir, i) && EntriesStay(m0, s.words, dir) && TableFrames(tables, m0, s.words, dir)
    ensures EntriesStay(m0, t.words, dir) && TableFrames(tables + NewTable(s, t, dir, i), m0, t.words, dir)
  {
    forall q | q in tables + NewTable(s, t, dir, i) ensures TableFrame(q, m0, t.words, dir) {
      if q in tables {
        assert TableFrame(q, m0, s.words, dir);
        var j: nat :| j < ENTRIES && !Present(Word(m0, dir, j)) && Present(Word(s.words, dir, j)) && Frame(Word(s.words, dir, j)) == q;
        assert Word(t.words, dir, j) == Word(s.words, dir, j);
      } else {
        assert !Present(Word(m0, dir, i)) && Present(Word(t.words, dir, i));
      }
    }
  }

  ghost predicate RunMeans(s: Memory, t: Memory, n: nat, dir: nat, a: nat, seen: seq<bool>, tables: set<nat>)
    requires MemoryOk(s, n, dir) && a + |seen| <= PAGES
  {
    && MemoryOk(t, n, dir) && EntriesStay(s.words, t.words, dir) && TableFrames(tables, s.words, t.words, dir)
    && FramesGiven(Translation(s.words, dir), s.free, Translation(t.words, dir), t.free, a, seen, tables)
  }

  ghost predicate RunDone(s: Memory, t: Memory, n: nat, dir: nat, a: nat, seen: seq<bool>)
    requires MemoryOk(s, n, dir) && a + |seen| <= PAGES
  {
    exists tables :: RunMeans(s, t, n, dir, a, seen, tables)
  }

  lemma FilledTurn(t0: seq<Option<nat>>, free0: set<nat>, s: Memory, t: Memory, n: nat, dir: nat, a: nat, seen: seq<bool>,
                   tables: set<nat>, b: bool, page: nat)
    requires MemoryOk(s, n, dir) && |t0| == PAGES && page == a + |seen| < PAGES && Turn(s, t, n, dir, a, page, b)
    requires FramesGiven(t0, free0, Translation(s.words, dir), s.free, a, seen, tables)
    ensures MemoryOk(t, n, dir) && EntriesKept(s, t, n, dir, page / ENTRIES)
    ensures FramesGiven(t0, free0, Translation(t.words, dir), t.free, a, seen + [b], tables + NewTable(s, t, dir, page / ENTRIES))
  {
    var q := TurnMeans(s, t, n, dir, a, page, b);
    FilledMore(t0, free0, Translation(s.words, dir), s.free, a, seen, tables, Translation(t.words, dir), t.free, page, b, q,
               NewTable(s, t, dir, page / ENTRIES));
  }

  lemma MeansMore(s0: Memory, s: Memory, t: Memory, n: nat, dir: nat, a: nat, seen: seq<bool>, b: bool, page: nat, more: seq<bool>)
    requires MemoryOk(s0, n, dir) && page == a + |seen| < PAGES && more == seen + [b]
    requires RunDone(s0, s, n, dir, a, seen)
    requires Turn(s, t, n, dir, a, page, b)
    ensures RunDone(s0, t, n, dir, a, more)
  {
    var tables :| RunMeans(s0, s, n, dir, a, seen, tables);
    FilledTurn(Translation(s0.words, dir), s0.free, s, t, n, dir, a, seen, tables, b, page);
    TablesMore(tables, s0.words, s, t, n, dir, page / ENTRIES);
    var tables' := tables + NewTable(s, t, dir, page / ENTRIES);
    assert RunMeans(s0, t, n, dir, a, more, tables');
  }

  lemma TurnAt(states: seq<Memory>, seen: seq<bool>, n: nat, dir: nat, a: nat, k: nat, s: Memory, t: Memory, page: nat, b: bool)
    requires Run(states, seen, n, dir, a) && k < |seen|
    requires s == states[k] && t == states[k + 1] && page == a + k && b == seen[k]
    ensures Turn(s, t, n, dir, a, page, b)
  {
    assert TurnNo(states, seen, n, dir, a, k);
  }

  lemma Prefix<T>(l: seq<T>, k: nat)
    requires k < |l|
    ensures l[..k + 1] == l[..k] + [l[k]]
  {
  }

  lemma NoTurn(s: Memory, n: nat, dir: nat, a: nat)
    requires MemoryOk(s, n, dir) && a <= PAGES
    ensures RunDone(s, s, n, dir, a, [])
  {
    assert RunMeans(s, s, n, dir, a, [], {});
  }

  /** The first k turns of a run. */
  lemma {:induction false} FillsTo(states: seq<Memory>, seen: seq<bool>, n: nat, dir: nat, a: nat, k: nat)
    requires Run(states, seen, n, dir, a) && k <= |seen|
    ensures RunDone(states[0], states[k], n, dir, a, seen[..k])
  {
    if k == 0 {
      NoTurn(states[0], n, dir, a);
    } else {
      var s, t, page, b := states[k - 1], states[k], a + (k - 1), seen[k - 1];
      FillsTo(states, seen, n, dir, a, k - 1);
      TurnAt(states, seen, n, dir, a, k - 1, s, t, page, b);
      Prefix(seen, k - 1);
      MeansMore(states[0], s, t, n, dir, a, seen[..k - 1], b, page, seen[..k]);
    }
  }

  /** Every run ends as FramesGiven says, with the frames of the tables it made. */
  lemma RunFills(states: seq<Memory>, seen: seq<bool>, n: nat, dir: nat, a: nat) returns (tables: set<nat>)
    requires Run(states, seen, n, dir, a)
    ensures RunMeans(states[0], states[|seen|], n, dir, a, seen, tables)
  {
    FillsTo(states, seen, n, dir, a, |seen|);
    assert seen[..|seen|] == seen;
    tables :| RunMeans(states[0], states[|seen|], n, dir, a, seen, tables);
  }

  // ------------------------------------------------------------------ when a run is right

  /** What map_vm_area is for: every page gone over is mapped in the end, and every translation from before is kept. */
  ghost predicate Right(t0: seq<Option<nat>>, t: seq<Option<nat>>, a: nat, b: nat)
    requires |t0| == |t| && a <= b <= |t|
  {
    && (forall p :: a <= p < b ==> t[p].Some?)
    && (forall p :: 0 <= p < |t| && t0[p].Some? ==> t[p] == t0[p])
  }

  /** The words that were read say of each page what the translation says. */
  ghost predicate Agrees(t0: seq<Option<nat>>, a: nat, seen: seq<bool>)
    requires a + |seen| <= |t0|
  {
    forall i :: 0 <= i < |seen| ==> (seen[i] <==> t0[a + i].Some?)
  }

  /** Frames of mapped pages are not handed out. */
  ghost predicate FramesUsed(t: seq<Option<nat>>, free: set<nat>, a: nat, b: nat)
    requires a <= b <= |t|
  {
    forall p :: a <= p < b && t[p].Some? ==> t[p].value !in free
  }

  lemma AgreeingIsRight(t0: seq<Option<nat>>, free0: set<nat>, t: seq<Option<nat>>, free: set<nat>, a: nat, seen: seq<bool>, tables: set<nat>)
    requires |t0| == |t| && a + |seen| <= |t| && FramesGiven(t0, free0, t, free, a, seen, tables) && Agrees(t0, a, seen)
    ensures Right(t0, t, a, a + |seen|)
  {
    forall p | a <= p < a + |seen| ensures t[p].Some? && (t0[p].Some? ==> t[p] == t0[p]) {
      assert seen[p - a] <==> t0[a + (p - a)].Some?;
      assert !seen[p - a] ==> t[a + (p - a)].Some?;
    }
  }

  lemma FilledRight(t0: seq<Option<nat>>, free0: set<nat>, t: seq<Option<nat>>, free: set<nat>, a: nat, seen: seq<bool>, tables: set<nat>)
    requires |t0| == |t| && a + |seen| <= |t| && FramesGiven(t0, free0, t, free, a, seen, tables)
    requires FramesUsed(t0, free0, a, a + |seen|)
    ensures Right(t0, t, a, a + |seen|) <==> Agrees(t0, a, seen)
  {
    if Agrees(t0, a, seen) { AgreeingIsRight(t0, free0, t, free, a, seen, tables); }
    if Right(t0, t, a, a + |seen|) {
      forall i | 0 <= i < |seen| ensures seen[i] <==> t0[a + i].Some? {
        var p := a + i;
        assert t[p].Some? && (seen[p - a] ==> t[p] == t0[p]);
      }
    }
  }

  /**
   A run is right exactly when each word that was read agrees with its page.
   */
  lemma RightIffAgrees(states: seq<Memory>, seen: seq<bool>, n: nat, dir: nat, a: nat)
    requires Run(states, seen, n, dir, a)
    requires FramesUsed(Translation(states[0].words, dir), states[0].free, a, a + |seen|)
    ensures Right(Translation(states[0].words, dir), Translation(states[|seen|].words, dir), a, a + |seen|)
            <==> Agrees(Translation(states[0].words, dir), a, seen)
  {
    var tables := RunFills(states, seen, n, dir, a);
    FilledRight(Translation(states[0].words, dir), states[0].free, Translation(states[|seen|].words, dir),
                states[|seen|].free, a, seen, tables);
  }

  // ------------------------------------------------------------------ the first table

  /** In the table of the first page the word that is read is the page's own. */
  lemma OwnWord(m: seq<nat>, dir: nat, first: nat, page: nat)
    requires ENTRIES * dir + page / ENTRIES < |m| && first <= page && page / ENTRIES == first / ENTRIES
    ensures WordRead(m, dir, first, page) == Slot(m, dir, page)
  {
  }

  lemma OwnTurn(s: Memory, t: Memory, n: nat, dir: nat, first: nat, page: nat, seen: bool)
    requires Turn(s, t, n, dir, first, page, seen) && page / ENTRIES == first / ENTRIES
    ensures page < PAGES && (seen <==> Walk(s.words, dir, page).Some?)
  {
    var u :| TurnBy(s, u, t, n, dir, first, page, seen);
    TableTurnMeans(s, u, n, dir, page / ENTRIES);
    OwnWord(u.words, dir, first, page);
    WalkInTable(u.words, n, dir, u.free, page);
    TranslationAt(u.words, dir, page);
    TranslationAt(s.words, dir, page);
  }

  /** Before its turn a page has the translation it had at first. */
  lemma NotYet(states: seq<Memory>, seen: seq<bool>, n: nat, dir: nat, a: nat, k: nat, page: nat)
    requires Run(states, seen, n, dir, a) && k < |seen| && page == a + k
    ensures Walk(states[k].words, dir, page) == Walk(states[0].words, dir, page)
  {
    FillsTo(states, seen, n, dir, a, k);
    var tables :| RunMeans(states[0], states[k], n, dir, a, seen[..k], tables);
    TranslationAt(states[k].words, dir, page);
    TranslationAt(states[0].words, dir, page);
  }

  /** What was read for page number k agrees with the page as it was at entry. */
  ghost predicate SeenRight(m: seq<nat>, dir: nat, a: nat, seen: seq<bool>, k: nat)
    requires k < |seen|
  {
    seen[k] <==> Walk(m, dir, a + k).Some?
  }

  lemma AgreesIs(m: seq<nat>, dir: nat, a: nat, seen: seq<bool>)
    requires a + |seen| <= PAGES
    ensures Agrees(Translation(m, dir), a, seen) <==> forall k: nat :: k < |seen| ==> SeenRight(m, dir, a, seen, k)
  {
    if Agrees(Translation(m, dir), a, seen) {
      forall k: nat | k < |seen| ensures SeenRight(m, dir, a, seen, k) {
        TranslationAt(m, dir, a + k);
      }
    }
    if forall k: nat :: k < |seen| ==> SeenRight(m, dir, a, seen, k) {
      forall k: nat | k < |seen| ensures seen[k] <==> Translation(m, dir)[a + k].Some? {
        TranslationAt(m, dir, a + k);
        assert SeenRight(m, dir, a, seen, k);
      }
    }
  }

  /** In the first table, what is read of a page is what the page was at entry. */
  lemma FirstTableAt(states: seq<Memory>, seen: seq<bool>, n: nat, dir: nat, a: nat, k: nat, page: nat)
    requires Run(states, seen, n, dir, a) && k < |seen| && page == a + k && page / ENTRIES == a / ENTRIES
    ensures seen[k] <==> Walk(states[0].words, dir, page).Some?
  {
    var s, t, b := states[k], states[k + 1], seen[k];
    TurnAt(states, seen, n, dir, a, k, s, t, page, b);
    OwnTurn(s, t, n, dir, a, page, b);
    NotYet(states, seen, n, dir, a, k, page);
  }

  /** For an area with one table every word agrees, whatever is in memory. */
  lemma OneTableAgrees(states: seq<Memory>, seen: seq<bool>, n: nat, dir: nat, a: nat)
    requires Run(states, seen, n, dir, a) && (seen == [] || (a + |seen| - 1) / ENTRIES == a / ENTRIES)
    ensures Agrees(Translation(states[0].words, dir), a, seen)
  {
    forall k: nat | k < |seen| ensures SeenRight(states[0].words, dir, a, seen, k) {
      SameTable(a, k, |seen|);
      FirstTableAt(states, seen, n, dir, a, k, a + k);
    }
    AgreesIs(states[0].words, dir, a, seen);
  }

  lemma SameTable(a: nat, i: nat, k: nat)
    requires i < k && (a + k - 1) / ENTRIES == a / ENTRIES
    ensures (a + i) / ENTRIES == a / ENTRIES
  {
  }

  // ------------------------------------------------------------------ further tables, when they are there already

  /** The table of the page is there at entry, and the word that will be read is in a page of memory in use. */
  ghost predicate BackedAt(s: Memory, n: nat, dir: nat, a: nat, page: nat)
    requires MemoryOk(s, n, dir)
  {
    && a <= page < PAGES && Present(Word(s.words, dir, page / ENTRIES))
    && WordRead(s.words, dir, a, page) / ENTRIES < n && WordRead(s.words, dir, a, page) / ENTRIES !in s.free
  }

  ghost predicate Backed(s: Memory, n: nat, dir: nat, a: nat, b: nat)
    requires MemoryOk(s, n, dir)
  {
    forall page: nat :: a <= page < b ==> BackedAt(s, n, dir, a, page)
  }

  ghost predicate SlotIs(m: seq<nat>, dir: nat, page: nat, x: nat) {
    ENTRIES * dir + page / ENTRIES < |m| && Slot(m, dir, page) == x
  }

  /**
   The word that is read for a page is there at entry, or it is the own word of a page gone over before, whose table
   then happens to lie behind this page's.
   */
  ghost predicate SeenAtEntry(m: seq<nat>, dir: nat, a: nat, page: nat)
    requires a <= page && ENTRIES * dir + page / ENTRIES < |m| && WordRead(m, dir, a, page) < |m|
  {
    Present(m[WordRead(m, dir, a, page)]) || exists p: nat :: a <= p < page && SlotIs(m, dir, p, WordRead(m, dir, a, page))
  }

  /** The condition on memory and directory at entry. */
  ghost predicate AgreesAtEntry(s: Memory, n: nat, dir: nat, a: nat, b: nat)
    requires MemoryOk(s, n, dir) && Backed(s, n, dir, a, b)
  {
    forall page: nat :: a <= page < b ==> EntryAgrees(s, n, dir, a, page)
  }

  ghost predicate EntryAgrees(s: Memory, n: nat, dir: nat, a: nat, page: nat)
    requires MemoryOk(s, n, dir) && BackedAt(s, n, dir, a, page)
  {
    SeenAtEntry(s.words, dir, a, page) <==> Walk(s.words, dir, page).Some?
  }

  /** A page before number k of the run got a frame, and x is its own word. */
  ghost predicate FilledBefore(m: seq<nat>, dir: nat, a: nat, seen: seq<bool>, k: nat, x: nat)
    requires k <= |seen|
  {
    exists i: nat :: i < k && !seen[i] && SlotIs(m, dir, a + i, x)
  }

  lemma MadeWord(u: Memory, t: Memory, dir: nat, page: nat, q: nat, x: nat)
    requires ENTRIES * dir + page / ENTRIES < |u.words| && PageMade(u, t, dir, page, q) && x < |u.words| && x / ENTRIES != q
    ensures |t.words| == |u.words| && (Present(t.words[x]) <==> Present(u.words[x]) || Slot(u.words, dir, page) == x)
  {
  }

  /** What a turn does to a word of a page in use, when the table is there. */
  lemma WordAfterTurn(s0: Memory, s: Memory, t: Memory, n: nat, dir: nat, a: nat, page: nat, b: bool, x: nat)
    requires MemoryOk(s0, n, dir) && MemoryOk(s, n, dir) && Turn(s, t, n, dir, a, page, b) && page < PAGES
    requires EntriesStay(s0.words, s.words, dir) && Present(Word(s0.words, dir, page / ENTRIES)) && s.free <= s0.free
    requires x / ENTRIES < n && x / ENTRIES !in s0.free
    ensures |t.words| == |s.words| && x < |t.words|
    ensures Present(t.words[x]) <==> Present(s.words[x]) || (!b && SlotIs(s0.words, dir, page, x))
  {
    var u :| TurnBy(s, u, t, n, dir, a, page, b);
    assert u == s && TableOf(s.words, dir, page) == TableOf(s0.words, dir, page);
    if !b {
      var q :| PageMade(u, t, dir, page, q);
      MadeWord(u, t, dir, page, q, x);
    }
  }

  /** Whether a word of a page in use is there after k turns. */
  ghost predicate WordThere(s0: Memory, s: Memory, dir: nat, a: nat, seen: seq<bool>, k: nat, x: nat)
    requires k <= |seen|
  {
    && x < |s0.words| == |s.words|
    && (Present(s.words[x]) <==> Present(s0.words[x]) || FilledBefore(s0.words, dir, a, seen, k, x))
  }

  lemma WordNext(s0: Memory, s: Memory, t: Memory, n: nat, dir: nat, a: nat, seen: seq<bool>, k: nat, x: nat, page: nat, b: bool)
    requires MemoryOk(s0, n, dir) && MemoryOk(s, n, dir) && EntriesStay(s0.words, s.words, dir) && s.free <= s0.free
    requires 0 < k <= |seen| && page == a + (k - 1) < PAGES && b == seen[k - 1]
    requires Turn(s, t, n, dir, a, page, b)
    requires BackedAt(s0, n, dir, a, page) && x / ENTRIES < n && x / ENTRIES !in s0.free
    requires WordThere(s0, s, dir, a, seen, k - 1, x)
    ensures WordThere(s0, t, dir, a, seen, k, x)
  {
    WordAfterTurn(s0, s, t, n, dir, a, page, b, x);
    FilledStep(s0.words, dir, a, seen, k, x);
  }

  /** A word of a page in use, after k turns. */
  lemma {:induction false} WordAfter(states: seq<Memory>, seen: seq<bool>, n: nat, dir: nat, a: nat, k: nat, x: nat)
    requires Run(states, seen, n, dir, a) && k <= |seen| && Backed(states[0], n, dir, a, a + |seen|)
    requires x / ENTRIES < n && x / ENTRIES !in states[0].free
    ensures WordThere(states[0], states[k], dir, a, seen, k, x)
  {
    if k > 0 {
      var s, t, page, b := states[k - 1], states[k], a + (k - 1), seen[k - 1];
      WordAfter(states, seen, n, dir, a, k - 1, x);
      Along(states, seen, n, dir, a, k - 1);
      TurnAt(states, seen, n, dir, a, k - 1, s, t, page, b);
      BackedHere(states[0], n, dir, a, a + |seen|, page);
      WordNext(states[0], s, t, n, dir, a, seen, k, x, page, b);
    }
  }

  lemma BackedHere(s: Memory, n: nat, dir: nat, a: nat, b: nat, page: nat)
    requires MemoryOk(s, n, dir) && Backed(s, n, dir, a, b) && a <= page < b
    ensures BackedAt(s, n, dir, a, page)
  {
  }

  lemma FilledStep(m: seq<nat>, dir: nat, a: nat, seen: seq<bool>, k: nat, x: nat)
    requires 0 < k <= |seen|
    ensures FilledBefore(m, dir, a, seen, k, x)
            <==> FilledBefore(m, dir, a, seen, k - 1, x) || (!seen[k - 1] && SlotIs(m, dir, a + (k - 1), x))
  {
  }

  lemma Along(states: seq<Memory>, seen: seq<bool>, n: nat, dir: nat, a: nat, k: nat)
    requires Run(states, seen, n, dir, a) && k <= |seen|
    ensures MemoryOk(states[k], n, dir) && EntriesStay(states[0].words, states[k].words, dir) && states[k].free <= states[0].free
  {
    FillsTo(states, seen, n, dir, a, k);
    var tables :| RunMeans(states[0], states[k], n, dir, a, seen[..k], tables);
  }

  /** While all words read so far agreed, the next one says what the condition at entry says. */
  lemma ReadsAsEntry(states: seq<Memory>, seen: seq<bool>, n: nat, dir: nat, a: nat, k: nat, page: nat)
    requires Run(states, seen, n, dir, a) && k < |seen| && Backed(states[0], n, dir, a, a + |seen|) && page == a + k
    requires forall i: nat :: i < k ==> SeenRight(states[0].words, dir, a, seen, i)
    ensures BackedAt(states[0], n, dir, a, page) && (seen[k] <==> SeenAtEntry(states[0].words, dir, a, page))
  {
    var s0, s, t, b := states[0], states[k], states[k + 1], seen[k];
    BackedHere(s0, n, dir, a, a + |seen|, page);
    var x := WordRead(s0.words, dir, a, page);
    WordAfter(states, seen, n, dir, a, k, x);
    Along(states, seen, n, dir, a, k);
    TurnAt(states, seen, n, dir, a, k, s, t, page, b);
    WordOfTurn(s0, s, t, n, dir, a, page, b);
    SlotsAsEntry(s0, n, dir, a, seen, k, x, page);
  }

  lemma WordOfTurn(s0: Memory, s: Memory, t: Memory, n: nat, dir: nat, a: nat, page: nat, b: bool)
    requires MemoryOk(s0, n, dir) && MemoryOk(s, n, dir) && EntriesStay(s0.words, s.words, dir)
    requires BackedAt(s0, n, dir, a, page) && Turn(s, t, n, dir, a, page, b)
    ensures WordRead(s0.words, dir, a, page) < |s.words|
    ensures b <==> Present(s.words[WordRead(s0.words, dir, a, page)])
  {
    var u :| TurnBy(s, u, t, n, dir, a, page, b);
    assert u == s;
  }

  /** A page that was there before its turn had its own word there at entry. */
  lemma SlotsAsEntry(s0: Memory, n: nat, dir: nat, a: nat, seen: seq<bool>, k: nat, x: nat, page: nat)
    requires MemoryOk(s0, n, dir) && k < |seen| && a + |seen| <= PAGES && Backed(s0, n, dir, a, a + |seen|)
    requires forall i: nat :: i < k ==> SeenRight(s0.words, dir, a, seen, i)
    requires x < |s0.words| && page == a + k
    ensures Present(s0.words[x]) || FilledBefore(s0.words, dir, a, seen, k, x)
            <==> Present(s0.words[x]) || exists p: nat :: a <= p < page && SlotIs(s0.words, dir, p, x)
  {
    if p: nat :| a <= p < page && SlotIs(s0.words, dir, p, x) {
      BackedHere(s0, n, dir, a, a + |seen|, p);
      WalkInTable(s0.words, n, dir, s0.free, p);
      var i := p - a;
      assert SlotIs(s0.words, dir, a + i, x) && SeenRight(s0.words, dir, a, seen, i);
    }
  }

  lemma {:induction false} AgreesUpTo(states: seq<Memory>, seen: seq<bool>, n: nat, dir: nat, a: nat, k: nat)
    requires Run(states, seen, n, dir, a) && k <= |seen| && Backed(states[0], n, dir, a, a + |seen|)
    requires AgreesAtEntry(states[0], n, dir, a, a + |seen|)
    ensures forall i: nat :: i < k ==> SeenRight(states[0].words, dir, a, seen, i)
  {
    if k > 0 {
      var page := a + (k - 1);
      AgreesUpTo(states, seen, n, dir, a, k - 1);
      ReadsAsEntry(states, seen, n, dir, a, k - 1, page);
      assert EntryAgrees(states[0], n, dir, a, page);
    }
  }

  lemma EntryFromSeen(states: seq<Memory>, seen: seq<bool>, n: nat, dir: nat, a: nat, page: nat)
    requires Run(states, seen, n, dir, a) && Backed(states[0], n, dir, a, a + |seen|) && a <= page < a + |seen|
    requires forall i: nat :: i < |seen| ==> SeenRight(states[0].words, dir, a, seen, i)
    ensures BackedAt(states[0], n, dir, a, page) && EntryAgrees(states[0], n, dir, a, page)
  {
    ReadsAsEntry(states, seen, n, dir, a, page - a, page);
    assert SeenRight(states[0].words, dir, a, seen, page - a);
  }

  /**
   With the further tables there, and the words that will be read in pages in use, every word agrees with its page
   exactly when the condition at entry holds of every page.
   */
  lemma AgreesIffAtEntry(states: seq<Memory>, seen: seq<bool>, n: nat, dir: nat, a: nat)
    requires Run(states, seen, n, dir, a) && Backed(states[0], n, dir, a, a + |seen|)
    ensures Agrees(Translation(states[0].words, dir), a, seen) <==> AgreesAtEntry(states[0], n, dir, a, a + |seen|)
  {
    AgreesIs(states[0].words, dir, a, seen);
    if AgreesAtEntry(states[0], n, dir, a, a + |seen|) {
      AgreesUpTo(states, seen, n, dir, a, |seen|);
    }
    if Agrees(Translation(states[0].words, dir), a, seen) {
      forall page: nat | a <= page < a + |seen| ensures EntryAgrees(states[0], n, dir, a, page) {
        EntryFromSeen(states, seen, n, dir, a, page);
      }
    }
  }

  /** A run is right exactly when the condition at entry holds. */
  lemma RightIffAtEntry(states: seq<Memory>, seen: seq<bool>, n: nat, dir: nat, a: nat)
    requires Run(states, seen, n, dir, a) && Backed(states[0], n, dir, a, a + |seen|)
    requires FramesUsed(Translation(states[0].words, dir), states[0].free, a, a + |seen|)
    ensures Right(Translation(states[0].words, dir), Translation(states[|seen|].words, dir), a, a + |seen|)
            <==> AgreesAtEntry(states[0], n, dir, a, a + |seen|)
  {
    RightIffAgrees(states, seen, n, dir, a);
    AgreesIffAtEntry(states, seen, n, dir, a);
  }

  // ------------------------------------------------------------------ two areas that go wrong

  /**
   Six pages of memory: the directory, tables for the first two spans, a page whose first word is `behind`, and two
   free pages.  Page 1024, the first of the second span, has the word `own`.
   */
  function Example(behind: nat, own: nat): (s: Memory)
    ensures |s.words| == 6 * ENTRIES && s.free == {4, 5}
  {
    Memory(seq(6 * ENTRIES, x requires 0 <= x => ExampleWord(behind, own, x)), {4, 5})
  }

  function ExampleWord(behind: nat, own: nat, x: nat): nat {
    if x == 0 then Entry(1) else if x == 1 then Entry(2)
    else if x == 2 * ENTRIES then own else if x == 3 * ENTRIES then behind else 0
  }

  lemma ExampleOk(behind: nat, own: nat)
    requires Present(own) ==> Frame(own) == 3
    ensures MemoryOk(Example(behind, own), 6, 0) && Backed(Example(behind, own), 6, 0, 1023, 1025)
    ensures Walk(Example(behind, own).words, 0, 1023) == None
    ensures Walk(Example(behind, own).words, 0, 1024) == if Present(own) then Some(3) else None
    ensures WordRead(Example(behind, own).words, 0, 1023, 1024) == 3 * ENTRIES
    ensures SeenAtEntry(Example(behind, own).words, 0, 1023, 1024) <==> Present(behind)
  {
    var s := Example(behind, own);
    assert Word(s.words, 0, 0) == Entry(1) && Word(s.words, 0, 1) == Entry(2);
    assert forall i: nat :: 2 <= i < ENTRIES ==> !Present(Word(s.words, 0, i));
    assert Slot(s.words, 0, 1023) == 2 * ENTRIES - 1 && WordRead(s.words, 0, 1023, 1024) == 3 * ENTRIES;
    assert WordRead(s.words, 0, 1023, 1023) == 2 * ENTRIES - 1;
  }

  lemma ExampleFrames(behind: nat, own: nat)
    requires Present(own) ==> Frame(own) == 3
    ensures FramesUsed(Translation(Example(behind, own).words, 0), {4, 5}, 1023, 1025)
  {
    ExampleOk(behind, own);
    TranslationAt(Example(behind, own).words, 0, 1023);
    TranslationAt(Example(behind, own).words, 0, 1024);
  }

  function ExampleStart(odd: bool): Memory {
    if odd then Example(1, 0) else Example(0, Entry(3))
  }

  lemma ExampleWrong(states: seq<Memory>, seen: seq<bool>, odd: bool)
    requires Run(states, seen, 6, 0, 1023) && |seen| == 2 && states[0] == ExampleStart(odd)
    ensures !Right(Translation(states[0].words, 0), Translation(states[2].words, 0), 1023, 1025)
  {
    var behind, own := if odd then 1 else 0, if odd then 0 else Entry(3);
    ExampleOk(behind, own);
    ExampleFrames(behind, own);
    RightIffAtEntry(states, seen, 6, 0, 1023);
    assert !EntryAgrees(states[0], 6, 0, 1023, 1024);
  }

  /** A turn that fills a page of the example with the free page q. */
  lemma ExampleFill(s: Memory, page: nat, q: nat) returns (t: Memory)
    requires MemoryOk(s, 6, 0) && 1023 <= page <= 1024 && q in s.free && q < 6 && Present(Word(s.words, 0, page / ENTRIES))
    requires WordRead(s.words, 0, 1023, page) < |s.words| && !Present(s.words[WordRead(s.words, 0, 1023, page)])
    ensures MemoryOk(t, 6, 0) && Turn(s, t, 6, 0, 1023, page, false)
    ensures |t.words| == |s.words| && t.free == s.free - {q} && Word(t.words, 0, 1) == Word(s.words, 0, 1)
    ensures forall x :: 0 <= x < |s.words| && x / ENTRIES != q && x / ENTRIES != TableOf(s.words, 0, page) ==> t.words[x] == s.words[x]
  {
    EntriesApart(s.words, 6, 0, s.free, page, q);
    t := Memory(WithWord(PageCleared(s.words, q), TableOf(s.words, 0, page), page % ENTRIES, Entry(q)), s.free - {q});
    assert PageMade(s, t, 0, page, q);
    assert TurnBy(s, s, t, 6, 0, 1023, page, false);
    var f := PageTurnMeans(s, t, 6, 0, 1023, page, false);
    assert TableAt(s.words, 6, 0, s.free, page / ENTRIES);
  }

  /**
   Two runs that go wrong.  The word behind the second table is odd, and page 1024 is taken for mapped; or it is even,
   and page 1024 loses its frame.
   */
  lemma MisreadGoesWrong(odd: bool) returns (states: seq<Memory>, seen: seq<bool>)
    ensures Run(states, seen, 6, 0, 1023) && |seen| == 2 && states[0] == ExampleStart(odd)
    ensures !Right(Translation(states[0].words, 0), Translation(states[2].words, 0), 1023, 1025)
  {
    var s := ExampleStart(odd);
    ExampleOk(if odd then 1 else 0, if odd then 0 else Entry(3));
    var t := ExampleFill(s, 1023, 4);
    assert t.words[3 * ENTRIES] == s.words[3 * ENTRIES];
    var u := t;
    if odd {
      assert TurnBy(t, t, t, 6, 0, 1023, 1024, true);
    } else {
      u := ExampleFill(t, 1024, 5);
    }
    states, seen := [s, t, u], [false, odd];
    assert TurnNo(states, seen, 6, 0, 1023, 0) && TurnNo(states, seen, 6, 0, 1023, 1);
    ExampleWrong(states, seen, odd);
  }

  // ------------------------------------------------------------------ areas

  /** Once the run is right, all pages of the area are mapped, unless the last one is left out and was not mapped before. */
  lemma AreaReachable(t0: seq<Option<nat>>, t: seq<Option<nat>>, start: nat, end: nat)
    requires start <= end < WORD && |t0| == |t| == PAGES
    requires Right(t0, t, start / PAGE_SIZE, StopsAt(start, end))
    requires forall p :: StopsAt(start, end) <= p < PAGES ==> t[p] == t0[p]
    ensures (forall page :: start / PAGE_SIZE <= page <= end / PAGE_SIZE ==> t[page].Some?)
            <==> LastPageToo(start, end) || t0[end / PAGE_SIZE].Some?
  {
    WholeArea(start, end);
  }

  /** A whole run over an area whose words all agreed is right, and leaves the other pages as they were. */
  lemma WholeRun(states: seq<Memory>, seen: seq<bool>, n: nat, dir: nat, start: nat, end: nat)
    requires start < WORD && Run(states, seen, n, dir, start / PAGE_SIZE) && |seen| == StopsAt(start, end) - start / PAGE_SIZE
    requires Agrees(Translation(states[0].words, dir), start / PAGE_SIZE, seen)
    ensures Right(Translation(states[0].words, dir), Translation(states[|seen|].words, dir), start / PAGE_SIZE, StopsAt(start, end))
    ensures forall p :: StopsAt(start, end) <= p < PAGES ==>
                          Translation(states[|seen|].words, dir)[p] == Translation(states[0].words, dir)[p]
  {
    var tables := RunFills(states, seen, n, dir, start / PAGE_SIZE);
    AgreeingIsRight(Translation(states[0].words, dir), states[0].free, Translation(states[|seen|].words, dir),
                    states[|seen|].free, start / PAGE_SIZE, seen, tables);
  }

  /** An area of two pages that ends on the first byte of the second one: that page stays as it was, here unmapped. */
  lemma LastPageLeftOut(t0: seq<Option<nat>>, t: seq<Option<nat>>)
    requires |t0| == |t| == PAGES && t0[1] == None
    requires Right(t0, t, 0, StopsAt(0, 0x1000)) && forall p :: StopsAt(0, 0x1000) <= p < PAGES ==> t[p] == t0[p]
    ensures StopsAt(0, 0x1000) == 1 && t[0].Some? && t[1] == None
  {
    WholeArea(0, 0x1000);
  }

  // ------------------------------------------------------------------ user pages have frames of their own

  const USER_PAGES: nat := 0xC_0000

  /** The frames of the directory and of its tables. */
  ghost function TableFramesOf(m: seq<nat>, dir: nat): set<nat>
    requires ENTRIES * dir + ENTRIES <= |m|
  {
    {dir} + set i: nat | i < ENTRIES && Present(Word(m, dir, i)) :: Frame(Word(m, dir, i))
  }

  /** No two pages below the kernel's share a frame, and no frame of theirs is free, or a table. */
  ghost predicate OwnFrames(t: seq<Option<nat>>, free: set<nat>, tables: set<nat>)
    requires |t| == PAGES
  {
    && (forall p :: 0 <= p < USER_PAGES && t[p].Some? ==> t[p].value !in free && t[p].value !in tables)
    && (forall p, p' :: 0 <= p < p' < USER_PAGES && t[p].Some? && t[p'].Some? ==> t[p] != t[p'])
  }

  ghost predicate UserOk(s: Memory, n: nat, dir: nat) {
    MemoryOk(s, n, dir) && OwnFrames(Translation(s.words, dir), s.free, TableFramesOf(s.words, dir))
  }

  lemma TableFramesMore(s: Memory, t: Memory, n: nat, dir: nat, i: nat)
    requires MemoryOk(s, n, dir) && MemoryOk(t, n, dir) && i < ENTRIES && EntriesKept(s, t, n, dir, i)
    ensures TableFramesOf(t.words, dir) == TableFramesOf(s.words, dir) + NewTable(s, t, dir, i)
    ensures TableFramesOf(s.words, dir) !! s.free
  {
    forall j: nat | j < ENTRIES && Present(Word(s.words, dir, j)) ensures TableAt(s.words, n, dir, s.free, j) {}
    forall q | q in TableFramesOf(t.words, dir) ensures q in TableFramesOf(s.words, dir) + NewTable(s, t, dir, i) {
      if q != dir {
        var j: nat :| j < ENTRIES && Present(Word(t.words, dir, j)) && Frame(Word(t.words, dir, j)) == q;
        assert j != i ==> Word(t.words, dir, j) == Word(s.words, dir, j);
      }
    }
    forall q | q in TableFramesOf(s.words, dir) ensures q in TableFramesOf(t.words, dir) {
      if q != dir {
        var j: nat :| j < ENTRIES && Present(Word(s.words, dir, j)) && Frame(Word(s.words, dir, j)) == q;
        assert Word(t.words, dir, j) == Word(s.words, dir, j);
      }
    }
  }

  lemma OwnFramesMore(t: seq<Option<nat>>, free: set<nat>, tables: set<nat>, t': seq<Option<nat>>, free': set<nat>,
                      page: nat, b: bool, q: nat, table: set<nat>)
    requires |t| == PAGES && page < PAGES && OwnFrames(t, free, tables) && table <= free && tables !! free
    requires t' == if b then t else t[page := Some(q)]
    requires if b then free' == free - table else q in free - table && free' == free - table - {q}
    ensures OwnFrames(t', free', tables + table)
  {
  }

  /** Each turn, whatever word it reads, keeps the frames of user pages their own. */
  lemma TurnKeepsUser(s: Memory, t: Memory, n: nat, dir: nat, a: nat, page: nat, b: bool)
    requires UserOk(s, n, dir) && Turn(s, t, n, dir, a, page, b)
    ensures UserOk(t, n, dir)
  {
    var q := TurnMeans(s, t, n, dir, a, page, b);
    var i := page / ENTRIES;
    TableFramesMore(s, t, n, dir, i);
    OwnFramesMore(Translation(s.words, dir), s.free, TableFramesOf(s.words, dir), Translation(t.words, dir), t.free, page, b, q,
                  NewTable(s, t, dir, i));
  }

  lemma {:induction false} RunKeepsUser(states: seq<Memory>, seen: seq<bool>, n: nat, dir: nat, a: nat, k: nat)
    requires Run(states, seen, n, dir, a) && k <= |seen| && UserOk(states[0], n, dir)
    ensures UserOk(states[k], n, dir)
  {
    if k > 0 {
      var s, t, page, b := states[k - 1], states[k], a + (k - 1), seen[k - 1];
      RunKeepsUser(states, seen, n, dir, a, k - 1);
      TurnAt(states, seen, n, dir, a, k - 1, s, t, page, b);
      TurnKeepsUser(s, t, n, dir, a, page, b);
    }
  }
}
