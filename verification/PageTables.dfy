/**
 Two-level page tables in physical memory (section 4.3, "32-bit paging", of the Intel 64 and IA-32 Architectures
 Software Developer's Manual, volume 3A), and the kernel's own: map_all_memory and set_page_table of kernel/mm.c.

 Memory is an array of 32-bit words, 1024 to a page.  The page at frame f starts at word 1024 * f.
 */
module PageTables {
  import opened Machine

  const ENTRIES: nat := 1024
  const PAGES: nat := 0x10_0000
  /** The bytes one page table maps. */
  const SPAN: nat := 0x40_0000
  /** Present, writable, user. */
  const FLAGS: nat := 7

  datatype Option<T> = None | Some(value: T)

  predicate Present(entry: nat) {
    entry % 2 == 1
  }

  function Frame(entry: nat): nat {
    entry / PAGE_SIZE
  }

  function Entry(frame: nat): (e: nat)
    ensures Present(e) && Frame(e) == frame && e % 4096 == 7
  {
    frame * PAGE_SIZE + FLAGS
  }

  function Word(m: seq<nat>, f: nat, i: nat): nat
    requires ENTRIES * f + i < |m|
  {
    m[ENTRIES * f + i]
  }

  function WithWord(m: seq<nat>, f: nat, i: nat, w: nat): (r: seq<nat>)
    requires ENTRIES * f + i < |m|
    ensures |r| == |m|
  {
    m[ENTRIES * f + i := w]
  }

  /** The page at frame q is cleared. */
  function PageCleared(m: seq<nat>, q: nat): (r: seq<nat>)
    requires ENTRIES * q + ENTRIES <= |m|
    ensures |r| == |m|
    ensures forall x :: 0 <= x < |m| ==> r[x] == if ENTRIES * q <= x < ENTRIES * q + ENTRIES then 0 else m[x]
  {
    m[..ENTRIES * q] + seq(ENTRIES, _ => 0) + m[ENTRIES * q + ENTRIES..]
  }

  /** The directory's own frame and the frames of all its tables are in memory, used, and all different. */
  ghost predicate TablesOk(m: seq<nat>, n: nat, dir: nat, free: set<nat>) {
    && |m| == ENTRIES * n && dir < n && dir !in free && (forall q :: q in free ==> q < n)
    && (forall i: nat :: i < ENTRIES && Present(Word(m, dir, i)) ==> TableAt(m, n, dir, free, i))
    && (forall i: nat, j: nat :: i < j < ENTRIES && Present(Word(m, dir, i)) && Present(Word(m, dir, j)) ==>
                                   Frame(Word(m, dir, i)) != Frame(Word(m, dir, j)))
  }

  ghost predicate TableAt(m: seq<nat>, n: nat, dir: nat, free: set<nat>, i: nat)
    requires |m| == ENTRIES * n && dir < n && i < ENTRIES
  {
    var f := Frame(Word(m, dir, i));
    f < n && f != dir && f !in free
  }

  /** The frame that the processor finds for a page, if any. */
  ghost function Walk(m: seq<nat>, dir: nat, page: nat): Option<nat> {
    if ENTRIES * dir + page / ENTRIES >= |m| then None else
    var e := Word(m, dir, page / ENTRIES);
    if !Present(e) || ENTRIES * Frame(e) + page % ENTRIES >= |m| then None else
    var t := Word(m, Frame(e), page % ENTRIES);
    if Present(t) then Some(Frame(t)) else None
  }

  /** The frames, if any, of the first k pages. */
  ghost function Frames(m: seq<nat>, dir: nat, k: nat): (t: seq<Option<nat>>)
    ensures |t| == k
  {
    if k == 0 then [] else Frames(m, dir, k - 1) + [Walk(m, dir, k - 1)]
  }

  /** The whole translation: the frame, if any, of each of the 2^20 pages. */
  ghost function Translation(m: seq<nat>, dir: nat): (t: seq<Option<nat>>)
    ensures |t| == PAGES
  {
    Frames(m, dir, PAGES)
  }

  lemma {:induction false} FramesAt(m: seq<nat>, dir: nat, k: nat, p: nat)
    requires p < k
    ensures Frames(m, dir, k)[p] == Walk(m, dir, p)
  {
    if p < k - 1 { FramesAt(m, dir, k - 1, p); }
  }

  lemma TranslationAt(m: seq<nat>, dir: nat, p: nat)
    requires p < PAGES
    ensures Translation(m, dir)[p] == Walk(m, dir, p)
  {
    FramesAt(m, dir, PAGES, p);
  }

  lemma TranslationSame(m: seq<nat>, r: seq<nat>, dir: nat)
    requires forall p: nat :: p < PAGES ==> Walk(r, dir, p) == Walk(m, dir, p)
    ensures Translation(r, dir) == Translation(m, dir)
  {
    forall p: nat | p < PAGES ensures Translation(r, dir)[p] == Translation(m, dir)[p] {
      TranslationAt(m, dir, p);
      TranslationAt(r, dir, p);
    }
  }

  lemma TranslationPut(m: seq<nat>, r: seq<nat>, dir: nat, page: nat, q: nat)
    requires page < PAGES
    requires forall p: nat :: p < PAGES ==> Walk(r, dir, p) == if p == page then Some(q) else Walk(m, dir, p)
    ensures Translation(r, dir) == Translation(m, dir)[page := Some(q)]
  {
    forall p: nat | p < PAGES ensures Translation(r, dir)[p] == Translation(m, dir)[page := Some(q)][p] {
      TranslationAt(m, dir, p);
      TranslationAt(r, dir, p);
    }
  }

  /** A cleared fresh page becomes the table of directory entry i: no page is mapped, or unmapped, by that. */
  lemma AddTable(m: seq<nat>, n: nat, dir: nat, free: set<nat>, i: nat, q: nat)
    requires TablesOk(m, n, dir, free) && i < ENTRIES && !Present(Word(m, dir, i)) && q in free
    ensures ENTRIES * q + ENTRIES <= |m|
    ensures TablesOk(WithWord(PageCleared(m, q), dir, i, Entry(q)), n, dir, free - {q})
    ensures Translation(WithWord(PageCleared(m, q), dir, i, Entry(q)), dir) == Translation(m, dir)
  {
    var r := WithWord(PageCleared(m, q), dir, i, Entry(q));
    forall j: nat | j < ENTRIES ensures Word(r, dir, j) == if j == i then Entry(q) else Word(m, dir, j) {
    }
    forall page: nat | page < PAGES ensures Walk(r, dir, page) == Walk(m, dir, page) {
      var e := Word(m, dir, page / ENTRIES);
      if page / ENTRIES != i && Present(e) {
        assert TableAt(m, n, dir, free, page / ENTRIES);
        assert Word(r, Frame(e), page % ENTRIES) == Word(m, Frame(e), page % ENTRIES);
      }
    }
    TranslationSame(m, r, dir);
  }

  /** A cleared fresh page is entered in a table: that page is now mapped to it, and no other page changes. */
  lemma AddPage(m: seq<nat>, n: nat, dir: nat, free: set<nat>, page: nat, q: nat)
    requires TablesOk(m, n, dir, free) && page < PAGES && q in free
    requires Present(Word(m, dir, page / ENTRIES))
    ensures ENTRIES * q + ENTRIES <= |m| && TableAt(m, n, dir, free, page / ENTRIES)
    ensures var f := Frame(Word(m, dir, page / ENTRIES));
            var r := WithWord(PageCleared(m, q), f, page % ENTRIES, Entry(q));
            && TablesOk(r, n, dir, free - {q})
            && Translation(r, dir) == Translation(m, dir)[page := Some(q)]
  {
    assert TableAt(m, n, dir, free, page / ENTRIES);
    var f := Frame(Word(m, dir, page / ENTRIES));
    var r := WithWord(PageCleared(m, q), f, page % ENTRIES, Entry(q));
    forall j: nat | j < ENTRIES ensures Word(r, dir, j) == Word(m, dir, j) {
    }
    forall p: nat | p < PAGES
      ensures Walk(r, dir, p) == if p == page then Some(q) else Walk(m, dir, p)
    {
      var e := Word(m, dir, p / ENTRIES);
      if Present(e) {
        assert TableAt(m, n, dir, free, p / ENTRIES);
        if p != page {
          assert Word(r, Frame(e), p % ENTRIES) == Word(m, Frame(e), p % ENTRIES);
        }
      }
    }
    TranslationPut(m, r, dir, page, q);
  }

  /** The word that decides a page. */
  lemma WalkInTable(m: seq<nat>, n: nat, dir: nat, free: set<nat>, page: nat)
    requires TablesOk(m, n, dir, free) && page < PAGES && Present(Word(m, dir, page / ENTRIES))
    ensures var f := Frame(Word(m, dir, page / ENTRIES));
            ENTRIES * f + page % ENTRIES < |m| && (Walk(m, dir, page).Some? <==> Present(Word(m, f, page % ENTRIES)))
  {
    assert TableAt(m, n, dir, free, page / ENTRIES);
  }

  /** alloc_page_dir: a cleared fresh page is a directory that maps nothing. */
  lemma EmptyDirectory(m: seq<nat>, n: nat, free: set<nat>, q: nat)
    requires |m| == ENTRIES * n && q in free && forall p :: p in free ==> p < n
    ensures ENTRIES * q + ENTRIES <= |m|
    ensures TablesOk(PageCleared(m, q), n, q, free - {q})
    ensures forall p :: 0 <= p < PAGES ==> Translation(PageCleared(m, q), q)[p] == None
  {
    forall i: nat | i < ENTRIES ensures !Present(Word(PageCleared(m, q), q, i)) {
    }
    forall p: nat | p < PAGES ensures Translation(PageCleared(m, q), q)[p] == None {
      TranslationAt(PageCleared(m, q), q, p);
    }
  }

  /** The kernel's second directory entry: 0x0c04 / 4. */
  const KVM_ENTRY: nat := 769

  /** Table number s of map_all_memory: entered in the directory, and mapping the physical pages from 1024 * (s + 1). */
  ghost predicate TableMaps(m: seq<nat>, kdir: nat, img: nat, s: nat)
    requires ENTRIES * kdir + KVM_ENTRY + s < |m| && ENTRIES * (img + s) + ENTRIES <= |m|
  {
    && Word(m, kdir, KVM_ENTRY + s) == 4096 * (img + s) + 7
    && forall x :: ENTRIES * (img + s) <= x < ENTRIES * (img + s) + ENTRIES ==> m[x] == 4096 * TablePage(img, s, x) + 7
  }

  /** The physical page that word x of memory, in table s, has to name. */
  function TablePage(img: nat, s: nat, x: int): (p: nat)
    requires ENTRIES * (img + s) <= x
  {
    ENTRIES * (s + 1) + (x - ENTRIES * (img + s))
  }

  /** How many tables map_all_memory makes. */
  function Tables(pageCnt: nat): nat
    requires 0 < pageCnt
  {
    (pageCnt - 1) / ENTRIES
  }

  /** map_all_memory may use directory entries up to 1023, and table pages inside the 4 MiB mapped already. */
  ghost predicate KernelFits(length: nat, kdir: nat, img: nat, pageCnt: nat) {
    && 0 < pageCnt <= 0x4_0000 && length == ENTRIES * pageCnt && kdir < img && kdir < pageCnt
    && img + Tables(pageCnt) <= ENTRIES
  }

  /** Words that map_all_memory has no business with: all but t directory entries and t tables. */
  ghost predicate Elsewhere(kdir: nat, img: nat, t: nat, x: int) {
    && !(ENTRIES * kdir + KVM_ENTRY <= x < ENTRIES * kdir + KVM_ENTRY + t)
    && !(ENTRIES * img <= x < ENTRIES * (img + t))
  }

  /** The first t tables are made, and nothing else is changed. */
  ghost predicate KernelMapped(m0: seq<nat>, m: seq<nat>, kdir: nat, img: nat, t: nat, pageCnt: nat)
    requires KernelFits(|m|, kdir, img, pageCnt) && |m0| == |m| && t <= Tables(pageCnt)
  {
    && (forall s: nat :: s < t ==> TableMaps(m, kdir, img, s))
    && (forall x :: 0 <= x < |m| && Elsewhere(kdir, img, t, x) ==> m[x] == m0[x])
  }

  /** The words on the way to KVM_BASE + p. */
  lemma KernelWords(m0: seq<nat>, m: seq<nat>, kdir: nat, img: nat, pageCnt: nat, p: nat, s: nat)
    requires KernelFits(|m|, kdir, img, pageCnt) && |m0| == |m|
    requires KernelMapped(m0, m, kdir, img, Tables(pageCnt), pageCnt)
    requires ENTRIES <= p < pageCnt && s == p / ENTRIES - 1
    ensures s < Tables(pageCnt) && Word(m, kdir, KVM_ENTRY + s) == 4096 * (img + s) + 7
    ensures ENTRIES * (img + s) + p % ENTRIES < |m| && Word(m, img + s, p % ENTRIES) == 4096 * p + 7
  {
    assert TableMaps(m, kdir, img, s);
    var x := ENTRIES * (img + s) + p % ENTRIES;
    assert m[x] == 4096 * TablePage(img, s, x) + 7;
  }

  lemma WalkIs(m: seq<nat>, dir: nat, page: nat, i: nat, k: nat, f: nat, q: nat)
    requires page / ENTRIES == i && page % ENTRIES == k && ENTRIES * dir + i < |m| && ENTRIES * f + k < |m|
    requires Word(m, dir, i) == 4096 * f + 7 && Word(m, f, k) == 4096 * q + 7
    ensures Walk(m, dir, page) == Some(q)
  {
    SevenIsEntry(Word(m, dir, i), f);
    SevenIsEntry(Word(m, f, k), q);
  }

  lemma SevenIsEntry(w: nat, f: nat)
    requires w == 4096 * f + 7
    ensures Present(w) && Frame(w) == f
  {
    assert w == 2 * (2048 * f + 3) + 1;
  }

  lemma KernelPage(p: nat, s: nat)
    requires ENTRIES <= p < 0x4_0000 && s == p / ENTRIES - 1
    ensures KVM_BASE / PAGE_SIZE + p < PAGES && KVM_BASE / PAGE_SIZE == 0xC_0000
    ensures (0xC_0000 + p) / 1024 == KVM_ENTRY + s && (0xC_0000 + p) % 1024 == p % 1024
  {
  }

  /** The walk of KVM_BASE + p yields p, for every physical page p from 4 MiB up. */
  lemma KernelWalk(m0: seq<nat>, m: seq<nat>, kdir: nat, img: nat, pageCnt: nat, p: nat)
    requires KernelFits(|m|, kdir, img, pageCnt) && |m0| == |m|
    requires KernelMapped(m0, m, kdir, img, Tables(pageCnt), pageCnt)
    requires ENTRIES <= p < pageCnt
    ensures KVM_BASE / PAGE_SIZE + p < PAGES && Walk(m, kdir, KVM_BASE / PAGE_SIZE + p) == Some(p)
  {
    var s := p / ENTRIES - 1;
    KernelPage(p, s);
    KernelWords(m0, m, kdir, img, pageCnt, p, s);
    WalkIs(m, kdir, KVM_BASE / PAGE_SIZE + p, KVM_ENTRY + s, p % ENTRIES, img + s, p);
  }

  /** The words on the way have the flags 7. */
  lemma KernelOpens(m0: seq<nat>, m: seq<nat>, kdir: nat, img: nat, pageCnt: nat, p: nat)
    requires KernelFits(|m|, kdir, img, pageCnt) && |m0| == |m|
    requires KernelMapped(m0, m, kdir, img, Tables(pageCnt), pageCnt)
    requires ENTRIES <= p < pageCnt
    ensures var x := 1024 * kdir + (0xC_0000 + p) / 1024;
            x < |m| && m[x] % 4096 == 7 && 1024 * (m[x] / 4096) + p % 1024 < |m|
            && m[1024 * (m[x] / 4096) + p % 1024] == 4096 * p + 7
  {
    var s := p / ENTRIES - 1;
    KernelPage(p, s);
    KernelWords(m0, m, kdir, img, pageCnt, p, s);
  }

  /** No page below the second kernel directory entry is mapped differently, if its table lies apart. */
  lemma KernelKeeps(m0: seq<nat>, m: seq<nat>, kdir: nat, img: nat, pageCnt: nat, page: nat)
    requires KernelFits(|m|, kdir, img, pageCnt) && |m0| == |m|
    requires KernelMapped(m0, m, kdir, img, Tables(pageCnt), pageCnt)
    requires page / ENTRIES < KVM_ENTRY
    requires var f := Frame(Word(m0, kdir, page / ENTRIES)); f != kdir && !(img <= f < img + Tables(pageCnt))
    ensures Walk(m, kdir, page) == Walk(m0, kdir, page)
  {
    var x := ENTRIES * kdir + page / ENTRIES;
    assert Elsewhere(kdir, img, Tables(pageCnt), x);
    var y := ENTRIES * Frame(m0[x]) + page % ENTRIES;
    assert Elsewhere(kdir, img, Tables(pageCnt), y);
  }

  /** set_page_table: the table at frame f maps 1024 pages in a row, with the flags 7. */
  method SetPageTable(mem: array<nat>, f: nat, physAddr: nat)
    requires ENTRIES * f + ENTRIES <= mem.Length && physAddr % PAGE_SIZE == 0
    modifies mem
    ensures forall x :: 0 <= x < mem.Length ==>
                          mem[x] == if ENTRIES * f <= x < ENTRIES * f + ENTRIES
                                    then physAddr + 4096 * (x - ENTRIES * f) + 7 else old(mem[x])
  {
    var i, phys := 0, physAddr;
    while i < ENTRIES
      invariant i <= ENTRIES && phys == physAddr + PAGE_SIZE * i
      invariant forall x :: 0 <= x < mem.Length ==>
                              mem[x] == if ENTRIES * f <= x < ENTRIES * f + i
                                        then physAddr + 4096 * (x - ENTRIES * f) + 7 else old(mem[x])
    {
      mem[ENTRIES * f + i] := phys + FLAGS;
      i := i + 1;
      phys := phys + PAGE_SIZE;
    }
  }

  /** map_all_memory, with the kernel's directory at frame kdir and the image's end at frame img. */
  method MapAllMemory(mem: array<nat>, kdir: nat, img: nat, pageCnt: nat) returns (imgEnd: nat)
    requires KernelFits(mem.Length, kdir, img, pageCnt)
    modifies mem
    ensures imgEnd == img + Tables(pageCnt)
    ensures KernelMapped(old(mem[..]), mem[..], kdir, img, Tables(pageCnt), pageCnt)
  {
    var phys := SPAN;
    var maxPhys := pageCnt * PAGE_SIZE;
    var entry := ENTRIES * kdir + KVM_ENTRY;
    ghost var t: nat := 0;
    imgEnd := img;
    while phys < maxPhys
      invariant t <= Tables(pageCnt) && phys == SPAN * (t + 1) && entry == ENTRIES * kdir + KVM_ENTRY + t && imgEnd == img + t
      invariant KernelMapped(old(mem[..]), mem[..], kdir, img, t, pageCnt)
      decreases maxPhys - phys
    {
      ghost var m := mem[..];
      mem[entry] := imgEnd * PAGE_SIZE + FLAGS;
      SetPageTable(mem, imgEnd, phys);
      AnotherTable(old(mem[..]), m, mem[..], kdir, img, t, pageCnt);
      phys := phys + SPAN;
      entry := entry + 1;
      imgEnd := imgEnd + 1;
      t := t + 1;
    }
  }

  lemma AnotherTable(m0: seq<nat>, m: seq<nat>, r: seq<nat>, kdir: nat, img: nat, t: nat, pageCnt: nat)
    requires KernelFits(|m|, kdir, img, pageCnt) && |m0| == |m| == |r| && t < Tables(pageCnt)
    requires KernelMapped(m0, m, kdir, img, t, pageCnt)
    requires forall x :: 0 <= x < |m| ==>
                           r[x] == if ENTRIES * (img + t) <= x < ENTRIES * (img + t) + ENTRIES
                                   then SPAN * (t + 1) + 4096 * (x - ENTRIES * (img + t)) + 7
                                   else if x == ENTRIES * kdir + KVM_ENTRY + t then 4096 * (img + t) + 7 else m[x]
    ensures KernelMapped(m0, r, kdir, img, t + 1, pageCnt)
  {
    forall s: nat | s < t + 1 ensures TableMaps(r, kdir, img, s) {
      if s < t { assert TableMaps(m, kdir, img, s); }
    }
    forall x | 0 <= x < |m| && Elsewhere(kdir, img, t + 1, x) ensures r[x] == m0[x] {
      assert Elsewhere(kdir, img, t, x);
    }
  }
}
