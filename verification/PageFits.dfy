/**
 A condition on memory and directory at entry under which map_vm_area goes right, with tables that it makes on the way.
 */
module PageFits {
  import opened PageTables
  import opened PageRuns

  /** The frames that the table behind directory entry i can be in: the one that is there, or any free one. */
  ghost function TableChoices(s: Memory, dir: nat, i: nat): set<nat>
    requires ENTRIES * dir + i < |s.words|
  {
    if Present(Word(s.words, dir, i)) then {Frame(Word(s.words, dir, i))} else s.free
  }

  /** x may become the own word of page p. */
  ghost predicate MayBeSlot(s: Memory, dir: nat, p: nat, x: nat) {
    ENTRIES * dir + p / ENTRIES < |s.words|
    && exists q :: q in TableChoices(s, dir, p / ENTRIES) && x == ENTRIES * q + p % ENTRIES
  }

  /** x is the directory entry of a table that has to be made for the pages from a to p. */
  ghost predicate MayBeEntry(s: Memory, dir: nat, a: nat, p: nat, x: nat) {
    exists i: nat :: MissingEntry(s, dir, i) && a / ENTRIES <= i <= p / ENTRIES && x == ENTRIES * dir + i
  }

  ghost predicate MissingEntry(s: Memory, dir: nat, i: nat) {
    ENTRIES * dir + i < |s.words| && !Present(Word(s.words, dir, i))
  }

  /** No turn before that of page p writes the word x. */
  ghost predicate Unwritten(s: Memory, dir: nat, a: nat, p: nat, x: nat) {
    && x < |s.words| && !MayBeEntry(s, dir, a, p, x)
    && forall p': nat :: a <= p' < p ==> !MayBeSlot(s, dir, p', x)
  }

  /** The word says at entry what it has to say of page p; and if it is present, it lies in a page in use. */
  ghost predicate SaysRight(s: Memory, dir: nat, p: nat, x: nat)
    requires x < |s.words|
  {
    && (Present(s.words[x]) <==> Walk(s.words, dir, p).Some?)
    && (Present(s.words[x]) ==> x / ENTRIES !in s.free)
  }

  /** The word that will be read for page p, when its table is in frame q. */
  function ReadIn(q: nat, a: nat, p: nat): nat
    requires a <= p
  {
    ENTRIES * q + (p - ENTRIES * (a / ENTRIES))
  }

  /** Whatever frame its table is in, the word that will be read for page p is the right one. */
  ghost predicate Fits(s: Memory, dir: nat, a: nat, p: nat) {
    && a <= p && ENTRIES * dir + p / ENTRIES < |s.words|
    && (p / ENTRIES == a / ENTRIES || forall q :: q in TableChoices(s, dir, p / ENTRIES) ==> FitsIn(s, dir, a, p, q))
  }

  ghost predicate FitsIn(s: Memory, dir: nat, a: nat, p: nat, q: nat)
    requires a <= p
  {
    Unwritten(s, dir, a, p, ReadIn(q, a, p)) && SaysRight(s, dir, p, ReadIn(q, a, p))
  }

  // ------------------------------------------------------------------ what stays while a run goes on

  /** Since s0, tables were made in frames that were free then, and entries that were there stayed. */
  ghost predicate Since(s0: Memory, s: Memory, n: nat, dir: nat) {
    && MemoryOk(s0, n, dir) && MemoryOk(s, n, dir) && s.free <= s0.free && EntriesStay(s0.words, s.words, dir)
    && forall i: nat :: i < ENTRIES && MissingEntry(s0, dir, i) && Present(Word(s.words, dir, i)) ==> Frame(Word(s.words, dir, i)) in s0.free
  }

  lemma SinceKept(s0: Memory, s: Memory, t: Memory, n: nat, dir: nat, i: nat)
    requires Since(s0, s, n, dir) && MemoryOk(t, n, dir) && i < ENTRIES && t.free <= s.free
    requires EntriesKept(s, t, n, dir, i) && NewTable(s, t, dir, i) <= s.free
    ensures Since(s0, t, n, dir)
  {
    forall j: nat | j < ENTRIES && Present(Word(s0.words, dir, j)) ensures Word(t.words, dir, j) == Word(s0.words, dir, j) {
      assert Word(s.words, dir, j) == Word(s0.words, dir, j);
    }
    forall j: nat | j < ENTRIES && MissingEntry(s0, dir, j) && Present(Word(t.words, dir, j))
      ensures Frame(Word(t.words, dir, j)) in s0.free
    {
      if j == i && !Present(Word(s.words, dir, i)) {
        assert Frame(Word(t.words, dir, i)) in NewTable(s, t, dir, i);
      } else {
        assert Word(t.words, dir, j) == Word(s.words, dir, j);
      }
    }
  }

  lemma SinceTurn(s0: Memory, s: Memory, t: Memory, n: nat, dir: nat, a: nat, page: nat, b: bool)
    requires Since(s0, s, n, dir) && Turn(s, t, n, dir, a, page, b)
    ensures Since(s0, t, n, dir)
  {
    var q := TurnMeans(s, t, n, dir, a, page, b);
    SinceKept(s0, s, t, n, dir, page / ENTRIES);
  }

  /** The table of a page is in one of the frames it could be in at s0. */
  lemma TableChosen(s0: Memory, u: Memory, n: nat, dir: nat, page: nat)
    requires Since(s0, u, n, dir) && page < PAGES && Present(Word(u.words, dir, page / ENTRIES))
    ensures TableOf(u.words, dir, page) in TableChoices(s0, dir, page / ENTRIES)
  {
    if Present(Word(s0.words, dir, page / ENTRIES)) {
      assert Word(u.words, dir, page / ENTRIES) == Word(s0.words, dir, page / ENTRIES);
    } else {
      assert MissingEntry(s0, dir, page / ENTRIES);
    }
  }

  /** A word that is not there does not come, and one in a page in use stays. */
  ghost predicate Stays(s0: Memory, s: Memory, x: nat) {
    && x < |s0.words| == |s.words|
    && (!Present(s0.words[x]) ==> !Present(s.words[x]))
    && (Present(s0.words[x]) && x / ENTRIES !in s0.free ==> Present(s.words[x]))
  }

  /** One page cleared and one word written. */
  lemma WordWritten(m: seq<nat>, q: nat, f: nat, i: nat, w: nat, x: nat)
    requires ENTRIES * q + ENTRIES <= |m| && ENTRIES * f + i < |m| && x < |m|
    ensures WithWord(PageCleared(m, q), f, i, w)[x] == if x == ENTRIES * f + i then w else if x / ENTRIES == q then 0 else m[x]
  {
    assert x / ENTRIES == q <==> ENTRIES * q <= x < ENTRIES * q + ENTRIES;
  }

  /** Clearing a free page and writing another word does not disturb x. */
  lemma WriteStays(s0: Memory, s: Memory, u: Memory, q: nat, f: nat, i: nat, w: nat, x: nat)
    requires Stays(s0, s, x) && q in s0.free && ENTRIES * q + ENTRIES <= |s.words| && ENTRIES * f + i < |s.words|
    requires u.words == WithWord(PageCleared(s.words, q), f, i, w) && x != ENTRIES * f + i
    ensures Stays(s0, u, x)
  {
    WordWritten(s.words, q, f, i, w, x);
  }

  lemma TableTurnStays(s0: Memory, s: Memory, u: Memory, n: nat, dir: nat, i: nat, x: nat)
    requires Since(s0, s, n, dir) && i < ENTRIES && TableTurn(s, u, dir, i) && Stays(s0, s, x)
    requires MissingEntry(s0, dir, i) ==> x != ENTRIES * dir + i
    ensures Stays(s0, u, x)
  {
    if !Present(Word(s.words, dir, i)) {
      var q :| TableMade(s, u, dir, i, q);
      WriteStays(s0, s, u, q, dir, i, Entry(q), x);
    }
  }

  lemma PageTurnStays(s0: Memory, u: Memory, t: Memory, n: nat, dir: nat, a: nat, page: nat, b: bool, x: nat)
    requires Since(s0, u, n, dir) && page < PAGES && PageTurn(u, t, dir, a, page, b) && Stays(s0, u, x)
    requires !MayBeSlot(s0, dir, page, x)
    ensures Stays(s0, t, x)
  {
    if !b {
      TableChosen(s0, u, n, dir, page);
      var q :| PageMade(u, t, dir, page, q);
      WriteStays(s0, u, t, q, TableOf(u.words, dir, page), page % ENTRIES, Entry(q), x);
    }
  }

  /** The state after any number of turns. */
  lemma {:induction false} SinceStart(states: seq<Memory>, seen: seq<bool>, n: nat, dir: nat, a: nat, k: nat)
    requires Run(states, seen, n, dir, a) && k <= |seen|
    ensures Since(states[0], states[k], n, dir)
  {
    if k > 0 {
      var s, t, page, b := states[k - 1], states[k], a + (k - 1), seen[k - 1];
      SinceStart(states, seen, n, dir, a, k - 1);
      TurnAt(states, seen, n, dir, a, k - 1, s, t, page, b);
      SinceTurn(states[0], s, t, n, dir, a, page, b);
    }
  }

  /** The table of a turn, made or there. */
  lemma TableMadeSince(s0: Memory, s: Memory, u: Memory, n: nat, dir: nat, i: nat)
    requires Since(s0, s, n, dir) && i < ENTRIES && TableTurn(s, u, dir, i)
    ensures Since(s0, u, n, dir) && Present(Word(u.words, dir, i))
  {
    TableTurnMeans(s, u, n, dir, i);
    SinceKept(s0, s, u, n, dir, i);
  }

  lemma TurnStays(s0: Memory, s: Memory, t: Memory, n: nat, dir: nat, a: nat, page: nat, b: bool, x: nat)
    requires Since(s0, s, n, dir) && page < PAGES && Turn(s, t, n, dir, a, page, b) && Stays(s0, s, x)
    requires (MissingEntry(s0, dir, page / ENTRIES) ==> x != ENTRIES * dir + page / ENTRIES) && !MayBeSlot(s0, dir, page, x)
    ensures Stays(s0, t, x)
  {
    var u :| TurnBy(s, u, t, n, dir, a, page, b);
    TableMadeSince(s0, s, u, n, dir, page / ENTRIES);
    TableTurnStays(s0, s, u, n, dir, page / ENTRIES, x);
    PageTurnStays(s0, u, t, n, dir, a, page, b, x);
  }

  /** The turns before page p leave a word alone that is unwritten. */
  lemma {:induction false} StaysTo(states: seq<Memory>, seen: seq<bool>, n: nat, dir: nat, a: nat, k: nat, p: nat, x: nat)
    requires Run(states, seen, n, dir, a) && k <= |seen| && a + k <= p < PAGES && Unwritten(states[0], dir, a, p, x)
    ensures Stays(states[0], states[k], x)
  {
    if k > 0 {
      var s, t, page, b := states[k - 1], states[k], a + (k - 1), seen[k - 1];
      StaysTo(states, seen, n, dir, a, k - 1, p, x);
      SinceStart(states, seen, n, dir, a, k - 1);
      TurnAt(states, seen, n, dir, a, k - 1, s, t, page, b);
      EntryApart(states[0], dir, a, page, p, x);
      SlotApart(states[0], dir, a, page, p, x);
      TurnStays(states[0], s, t, n, dir, a, page, b, x);
    }
  }

  lemma SlotApart(s0: Memory, dir: nat, a: nat, page: nat, p: nat, x: nat)
    requires a <= page < p && Unwritten(s0, dir, a, p, x)
    ensures !MayBeSlot(s0, dir, page, x)
  {
  }

  lemma EntryApart(s0: Memory, dir: nat, a: nat, page: nat, p: nat, x: nat)
    requires a <= page <= p && Unwritten(s0, dir, a, p, x)
    ensures MissingEntry(s0, dir, page / ENTRIES) ==> x != ENTRIES * dir + page / ENTRIES
  {
    assert a / ENTRIES <= page / ENTRIES <= p / ENTRIES;
  }

  // ------------------------------------------------------------------ the run is right

  /** In a further table, what is read of a page that fits is what the page was at entry. */
  lemma FitRead(s0: Memory, s: Memory, t: Memory, n: nat, dir: nat, a: nat, page: nat, b: bool)
    requires Since(s0, s, n, dir) && a <= page < PAGES && Turn(s, t, n, dir, a, page, b)
    requires Fits(s0, dir, a, page) && page / ENTRIES != a / ENTRIES
    requires forall q :: q in TableChoices(s0, dir, page / ENTRIES) ==> Stays(s0, s, ReadIn(q, a, page))
    ensures b <==> Walk(s0.words, dir, page).Some?
  {
    var u :| TurnBy(s, u, t, n, dir, a, page, b);
    TableMadeSince(s0, s, u, n, dir, page / ENTRIES);
    TableChosen(s0, u, n, dir, page);
    var x := ReadIn(TableOf(u.words, dir, page), a, page);
    assert FitsIn(s0, dir, a, page, TableOf(u.words, dir, page));
    EntryApart(s0, dir, a, page, page, x);
    TableTurnStays(s0, s, u, n, dir, page / ENTRIES, x);
  }

  lemma FitSeen(states: seq<Memory>, seen: seq<bool>, n: nat, dir: nat, a: nat, k: nat, page: nat)
    requires Run(states, seen, n, dir, a) && k < |seen| && page == a + k && Fits(states[0], dir, a, page)
    ensures seen[k] <==> Walk(states[0].words, dir, page).Some?
  {
    if page / ENTRIES == a / ENTRIES {
      FirstTableAt(states, seen, n, dir, a, k, page);
    } else {
      SinceStart(states, seen, n, dir, a, k);
      TurnAt(states, seen, n, dir, a, k, states[k], states[k + 1], page, seen[k]);
      forall q | q in TableChoices(states[0], dir, page / ENTRIES) ensures Stays(states[0], states[k], ReadIn(q, a, page)) {
        assert FitsIn(states[0], dir, a, page, q);
        StaysTo(states, seen, n, dir, a, k, page, ReadIn(q, a, page));
      }
      FitRead(states[0], states[k], states[k + 1], n, dir, a, page, seen[k]);
    }
  }

  /**
   If at entry every page fits, the run is right: whatever frames the page allocator picks for pages, and for tables
   that have to be made.
   */
  lemma FitsIsRight(states: seq<Memory>, seen: seq<bool>, n: nat, dir: nat, a: nat)
    requires Run(states, seen, n, dir, a) && forall page: nat :: a <= page < a + |seen| ==> Fits(states[0], dir, a, page)
    ensures Right(Translation(states[0].words, dir), Translation(states[|seen|].words, dir), a, a + |seen|)
  {
    forall k: nat | k < |seen| ensures SeenRight(states[0].words, dir, a, seen, k) {
      FitSeen(states, seen, n, dir, a, k, a + k);
    }
    AgreesIs(states[0].words, dir, a, seen);
    var tables := RunFills(states, seen, n, dir, a);
    AgreeingIsRight(Translation(states[0].words, dir), states[0].free, Translation(states[|seen|].words, dir),
                    states[|seen|].free, a, seen, tables);
  }

  // ------------------------------------------------------------------ areas of at most 4 MiB

  /** Among 1024 pages in a row no two have the same place in their tables. */
  lemma PlacesDiffer(a: nat, p': nat, p: nat)
    requires a <= p' < p < a + ENTRIES
    ensures p' % ENTRIES != p % ENTRIES
  {
    assert p == ENTRIES * (p / ENTRIES) + p % ENTRIES && p' == ENTRIES * (p' / ENTRIES) + p' % ENTRIES;
  }

  lemma PlaceRead(q: nat, a: nat, p: nat)
    requires a <= p
    ensures ReadIn(q, a, p) % ENTRIES == p % ENTRIES
  {
    assert p == ENTRIES * (p / ENTRIES) + p % ENTRIES;
    assert ReadIn(q, a, p) == ENTRIES * (q + p / ENTRIES - a / ENTRIES) + p % ENTRIES;
  }

  /** No own word of an earlier page is read. */
  lemma NoSlotRead(s: Memory, dir: nat, a: nat, p': nat, p: nat, q: nat)
    requires a <= p' < p < a + ENTRIES
    ensures !MayBeSlot(s, dir, p', ReadIn(q, a, p))
  {
    PlaceRead(q, a, p);
    PlacesDiffer(a, p', p);
  }

  /** For page p of a short area: the word behind each frame that the second table can be in, and no directory entry. */
  ghost predicate ShortFits(s: Memory, dir: nat, a: nat, p: nat)
    requires a <= p && ENTRIES * dir + p / ENTRIES < |s.words|
  {
    p / ENTRIES == a / ENTRIES
    || forall q :: q in TableChoices(s, dir, p / ENTRIES) ==>
         var x := ReadIn(q, a, p);
         x < |s.words| && !MayBeEntry(s, dir, a, p, x) && SaysRight(s, dir, p, x)
  }

  lemma ShortFitsIsFit(s: Memory, dir: nat, a: nat, p: nat)
    requires a <= p < a + ENTRIES && ENTRIES * dir + p / ENTRIES < |s.words| && ShortFits(s, dir, a, p)
    ensures Fits(s, dir, a, p)
  {
    if p / ENTRIES != a / ENTRIES {
      forall q | q in TableChoices(s, dir, p / ENTRIES) ensures FitsIn(s, dir, a, p, q) {
        forall p': nat | a <= p' < p ensures !MayBeSlot(s, dir, p', ReadIn(q, a, p)) {
          NoSlotRead(s, dir, a, p', p, q);
        }
      }
    }
  }

  /**
   Where the second table has to be made, the page fits if the page of memory behind every free one is not the
   directory, and its word at the page's place is not present.
   */
  lemma MissingTableFits(s: Memory, n: nat, dir: nat, a: nat, p: nat)
    requires MemoryOk(s, n, dir) && a <= p < a + ENTRIES && p < PAGES && p / ENTRIES != a / ENTRIES
    requires !Present(Word(s.words, dir, p / ENTRIES))
    requires forall q :: q in s.free ==> q + 1 < n && q + 1 != dir && !Present(Word(s.words, q + 1, p % ENTRIES))
    ensures ShortFits(s, dir, a, p)
  {
    forall q | q in s.free
      ensures ReadIn(q, a, p) == ENTRIES * (q + 1) + p % ENTRIES && ReadIn(q, a, p) < |s.words|
      ensures !MayBeEntry(s, dir, a, p, ReadIn(q, a, p))
    {
      NextTable(a, p);
    }
  }

  lemma NextTable(a: nat, p: nat)
    requires a <= p < a + ENTRIES && p / ENTRIES != a / ENTRIES
    ensures p - ENTRIES * (a / ENTRIES) == ENTRIES + p % ENTRIES
  {
    assert p == ENTRIES * (p / ENTRIES) + p % ENTRIES && p / ENTRIES == a / ENTRIES + 1;
  }

  /** An area of at most 4 MiB: the words behind the frames that the second table can be in decide. */
  lemma ShortIsRight(states: seq<Memory>, seen: seq<bool>, n: nat, dir: nat, a: nat)
    requires Run(states, seen, n, dir, a) && |seen| <= ENTRIES
    requires forall page: nat :: a <= page < a + |seen| ==>
                                   ENTRIES * dir + page / ENTRIES < |states[0].words| && ShortFits(states[0], dir, a, page)
    ensures Right(Translation(states[0].words, dir), Translation(states[|seen|].words, dir), a, a + |seen|)
  {
    forall page: nat | a <= page < a + |seen| ensures Fits(states[0], dir, a, page) {
      ShortFitsIsFit(states[0], dir, a, page);
    }
    FitsIsRight(states, seen, n, dir, a);
  }
}
