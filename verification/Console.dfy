/**
 The terminal interpreter of kernel/console.c on the CGA's memory, as con_init sets it up: the cursor is kept three
 times over (x, y, and the address pos), and the screen is edited by block moves and fills.

 Abs() is the terminal of Terminal.dfy that this state stands for; each method does to it what Terminal says.
 */
module Console {
  import opened Machine
  import opened Terminal
  import opened Tty

  /** KVM_BASE + 0xb8000, where origin stays. */
  const ORIGIN: nat := 0xC00B_8000
  const ROW_BYTES: nat := 160
  const SCREEN: nat := 2000
  /** Cells of video memory, up to video_mem_end. */
  const CELLS: nat := 4096

  /** The first n rows of the cells on the screen. */
  function Rows(m: seq<nat>, n: nat): seq<Row>
    requires |m| == CELLS && n <= LINES
  {
    if n == 0 then [] else Rows(m, n - 1) + [m[COLS * (n - 1)..COLS * n]]
  }

  function Grid(m: seq<nat>): seq<Row>
    requires |m| == CELLS
  {
    Rows(m, LINES)
  }

  lemma {:induction false} RowsAt(m: seq<nat>, n: nat)
    requires |m| == CELLS && n <= LINES
    ensures |Rows(m, n)| == n && forall r :: 0 <= r < n ==> Rows(m, n)[r] == m[COLS * r..COLS * r + COLS]
  {
    if n > 0 { RowsAt(m, n - 1); }
  }

  lemma GridAt(m: seq<nat>)
    requires |m| == CELLS
    ensures GridOk(Grid(m))
    ensures forall r, c {:trigger Grid(m)[r][c]} :: 0 <= r < LINES && 0 <= c < COLS ==> Grid(m)[r][c] == m[COLS * r + c]
  {
    RowsAt(m, LINES);
  }

  lemma SameRow(r: Row, q: Row)
    requires |r| == |q| && forall c :: 0 <= c < |r| ==> r[c] == q[c]
    ensures r == q
  {
  }

  /** m has the rows of g if its cells are theirs. */
  lemma GridIs(m: seq<nat>, g: seq<Row>)
    requires |m| == CELLS && GridOk(g)
    requires forall r, c {:trigger g[r][c]} :: 0 <= r < LINES && 0 <= c < COLS ==> m[COLS * r + c] == g[r][c]
    ensures Grid(m) == g
  {
    GridAt(m);
    forall r | 0 <= r < LINES ensures Grid(m)[r] == g[r] {
      SameRow(Grid(m)[r], g[r]);
    }
  }

  /** Cells from `to` up to `to + n` get what was from `from` on; the rest stays. */
  ghost predicate Copied(m0: seq<nat>, m: seq<nat>, to: int, from: int, n: int) {
    && |m| == |m0| && 0 <= to <= to + n <= |m| && 0 <= from <= from + n <= |m|
    && (forall i :: to <= i < to + n ==> m[i] == m0[i - to + from])
    && (forall i {:trigger m[i]} :: 0 <= i < |m| && !(to <= i < to + n) ==> m[i] == m0[i])
  }

  ghost predicate Filled(m0: seq<nat>, m: seq<nat>, at: int, n: int) {
    && |m| == |m0|
    && forall i :: 0 <= i < |m| ==> m[i] == if at <= i < at + n then ERASE else m0[i]
  }

  /** The cell below. */
  lemma Below(m: seq<nat>, r: nat, c: nat)
    requires |m| == CELLS && r < LINES && c < COLS
    ensures GridOk(Grid(m)) && Grid(m)[r][c] == m[COLS * r + c]
    ensures r + 1 < LINES ==> Grid(m)[r + 1][c] == m[COLS * r + c + COLS]
  {
    GridAt(m);
    assert COLS * (r + 1) + c == COLS * r + c + COLS;
  }

  lemma Tails(m0: seq<nat>, m: seq<nat>)
    requires |m0| == |m| == CELLS && forall i :: SCREEN <= i < CELLS ==> m[i] == m0[i]
    ensures m[SCREEN..] == m0[SCREEN..]
  {
  }

  /** The cell in column c of row r, when the lines below top have moved up by one. */
  lemma ScrolledUpAt(m0: seq<nat>, m1: seq<nat>, m: seq<nat>, top: nat, bottom: nat, r: nat, c: nat)
    requires |m0| == CELLS && top < bottom <= LINES && r < LINES && c < COLS
    requires Copied(m0, m1, COLS * top, COLS * (top + 1), COLS * (bottom - top - 1))
    requires Filled(m1, m, COLS * (bottom - 1), COLS)
    ensures |m| == CELLS
    ensures m[COLS * r + c] == if r < top || r >= bottom then m0[COLS * r + c]
                               else if r < bottom - 1 then m0[COLS * r + c + COLS] else ERASE
  {
    var i := COLS * r + c;
    assert m1[i] == if top <= r < bottom - 1 then m0[i - COLS * top + COLS * (top + 1)] else m0[i];
  }

  /** The same, when they have moved down. */
  lemma ScrolledDownAt(m0: seq<nat>, m1: seq<nat>, m: seq<nat>, top: nat, bottom: nat, r: nat, c: nat)
    requires |m0| == CELLS && top < bottom <= LINES && r < LINES && c < COLS
    requires Copied(m0, m1, COLS * (top + 1), COLS * top, COLS * (bottom - top - 1))
    requires Filled(m1, m, COLS * top, COLS)
    ensures |m| == CELLS
    ensures m[COLS * r + c] == if r < top || r >= bottom then m0[COLS * r + c]
                               else if r > top then m0[COLS * (r - 1) + c] else ERASE
  {
    var i := COLS * r + c;
    assert m1[i] == if top < r < bottom then m0[i - COLS * (top + 1) + COLS * top] else m0[i];
  }

  /** rep movsl forwards, then rep stosw: one line of the region goes. */
  lemma ScrolledUp(m0: seq<nat>, m1: seq<nat>, m: seq<nat>, top: nat, bottom: nat)
    requires |m0| == CELLS && top < bottom <= LINES
    requires Copied(m0, m1, COLS * top, COLS * (top + 1), COLS * (bottom - top - 1))
    requires Filled(m1, m, COLS * (bottom - 1), COLS)
    ensures |Grid(m0)| == LINES && Grid(m) == LinesGone(Grid(m0), top, bottom, 1)
    ensures m[SCREEN..] == m0[SCREEN..]
  {
    GridAt(m0);
    var g := LinesGone(Grid(m0), top, bottom, 1);
    forall r, c {:trigger g[r][c]} | 0 <= r < LINES && 0 <= c < COLS ensures m[COLS * r + c] == g[r][c] {
      assert g[r] == if r < top || r >= bottom then Grid(m0)[r]
                     else if r < bottom - 1 then Grid(m0)[r + 1] else Blanks(COLS);
      Below(m0, r, c);
      ScrolledUpAt(m0, m1, m, top, bottom, r, c);
    }
    Tails(m0, m);
    GridIs(m, g);
  }

  /** rep movsl backwards, then rep stosw. */
  lemma ScrolledDown(m0: seq<nat>, m1: seq<nat>, m: seq<nat>, top: nat, bottom: nat)
    requires |m0| == CELLS && top < bottom <= LINES
    requires Copied(m0, m1, COLS * (top + 1), COLS * top, COLS * (bottom - top - 1))
    requires Filled(m1, m, COLS * top, COLS)
    ensures |Grid(m0)| == LINES && Grid(m) == LinesCome(Grid(m0), top, bottom, 1)
    ensures m[SCREEN..] == m0[SCREEN..]
  {
    GridAt(m0);
    var g := LinesCome(Grid(m0), top, bottom, 1);
    forall r, c {:trigger g[r][c]} | 0 <= r < LINES && 0 <= c < COLS ensures m[COLS * r + c] == g[r][c] {
      assert g[r] == if r < top || r >= bottom then Grid(m0)[r]
                     else if r > top then Grid(m0)[r - 1] else Blanks(COLS);
      if r > 0 { Below(m0, r - 1, c); } else { Below(m0, r, c); }
      ScrolledDownAt(m0, m1, m, top, bottom, r, c);
    }
    Tails(m0, m);
    GridIs(m, g);
  }

  /** Only cells of row y change. */
  lemma RowChanged(m0: seq<nat>, m: seq<nat>, y: nat, row: Row)
    requires |m0| == |m| == CELLS && y < LINES && |row| == COLS && |Grid(m0)| == LINES
    requires forall i :: 0 <= i < CELLS ==> m[i] == if COLS * y <= i < COLS * y + COLS then row[i - COLS * y] else m0[i]
    ensures Grid(m) == Grid(m0)[y := row]
    ensures m[SCREEN..] == m0[SCREEN..]
  {
    GridAt(m0);
    var g := Grid(m0)[y := row];
    forall r, c {:trigger g[r][c]} | 0 <= r < LINES && 0 <= c < COLS ensures m[COLS * r + c] == g[r][c] {
    }
    GridIs(m, g);
  }

  function Pushed(m: seq<nat>, at: nat, k: nat): nat
    requires at <= k < |m|
  {
    if k == at then ERASE else m[k - 1]
  }

  function Pulled(m: seq<nat>, k: nat): nat
    requires k + 1 < |m|
  {
    m[k + 1]
  }

  lemma CharIn(m0: seq<nat>, m: seq<nat>, y: nat, x: nat)
    requires |m0| == |m| == CELLS && y < LINES && x <= COLS
    requires forall k :: 0 <= k < CELLS ==>
                           m[k] == if COLS * y + x <= k < COLS * y + COLS then Pushed(m0, COLS * y + x, k) else m0[k]
    ensures GridOk(Grid(m0)) && m[SCREEN..] == m0[SCREEN..]
    ensures Grid(m) == Grid(m0)[y := CellsCome(Grid(m0)[y], x, Least(1, COLS - x))]
  {
    GridAt(m0);
    var row := CellsCome(Grid(m0)[y], x, Least(1, COLS - x));
    forall c: nat | c < COLS ensures row[c] == m[COLS * y + c] {
      CellsComeAt(Grid(m0)[y], x, Least(1, COLS - x), c);
    }
    RowChanged(m0, m, y, row);
  }

  lemma CharOut(m0: seq<nat>, m: seq<nat>, y: nat, x: nat)
    requires |m0| == |m| == CELLS && y < LINES && x <= COLS
    requires forall k :: 0 <= k < CELLS ==>
                           m[k] == if COLS * y + x <= k < COLS * y + COLS - 1 then Pulled(m0, k)
                                   else if k == COLS * y + COLS - 1 && x < COLS then ERASE else m0[k]
    ensures GridOk(Grid(m0)) && m[SCREEN..] == m0[SCREEN..]
    ensures Grid(m) == Grid(m0)[y := CellsGone(Grid(m0)[y], x, Least(1, COLS - x))]
  {
    GridAt(m0);
    var row := CellsGone(Grid(m0)[y], x, Least(1, COLS - x));
    forall c: nat | c < COLS ensures row[c] == m[COLS * y + c] {
      CellsGoneAt(Grid(m0)[y], x, Least(1, COLS - x), c);
    }
    RowChanged(m0, m, y, row);
  }

  /** What rep stosw does to a row. */
  function RowFilled(q: Row, r: nat, at: nat, n: nat): (t: Row)
    requires |q| == COLS
    ensures |t| == COLS
    ensures forall c {:trigger t[c]} :: 0 <= c < COLS ==> t[c] == if at <= COLS * r + c < at + n then ERASE else q[c]
  {
    seq(COLS, c requires 0 <= c < COLS => if at <= COLS * r + c < at + n then ERASE else q[c])
  }

  /** rep stosw on the screen: g is what it leaves if each of its rows is. */
  lemma Erased(m0: seq<nat>, m: seq<nat>, at: nat, n: nat, g: seq<Row>)
    requires |m0| == CELLS && Filled(m0, m, at, n) && at + n <= SCREEN && GridOk(g) && GridOk(Grid(m0))
    requires forall r: nat :: r < LINES ==> g[r] == RowFilled(Grid(m0)[r], r, at, n)
    ensures Grid(m) == g && m[SCREEN..] == m0[SCREEN..]
  {
    GridAt(m0);
    forall r, c {:trigger g[r][c]} | 0 <= r < LINES && 0 <= c < COLS ensures m[COLS * r + c] == g[r][c] {
      var q := Grid(m0)[r];
      assert g[r] == RowFilled(q, r, at, n);
    }
    GridIs(m, g);
  }

  lemma RowIs(t: Row, q: Row, r: nat, at: nat, n: nat)
    requires |t| == |q| == COLS
    requires forall c {:trigger t[c]} :: 0 <= c < COLS ==> t[c] == if at <= COLS * r + c < at + n then ERASE else q[c]
    ensures t == RowFilled(q, r, at, n)
  {
    SameRow(t, RowFilled(q, r, at, n));
  }

  /** The erasing functions, row by row: csi_J and csi_K fill n cells from cell number at on. */
  lemma DisplayErased(s: Screen, how: nat, at: nat, n: nat, r: nat)
    requires ScreenOk(s) && how < 3 && r < LINES
    requires at == (if how == 0 then COLS * s.y + s.x else 0)
    requires n == (if how == 0 then SCREEN - at else if how == 1 then COLS * s.y + s.x else SCREEN)
    ensures EraseDisplay(s, how).grid[r] == RowFilled(s.grid[r], r, at, n)
  {
    var t := EraseDisplay(s, how).grid[r];
    RowIs(t, s.grid[r], r, at, n);
  }

  lemma LineErased(s: Screen, how: nat, at: nat, n: nat, r: nat)
    requires ScreenOk(s) && how < 3 && r < LINES
    requires at == (if how == 0 then COLS * s.y + s.x else COLS * s.y)
    requires n == (if how == 0 then COLS - s.x else if how == 1 then s.x else COLS)
    ensures EraseLine(s, how).grid[r] == RowFilled(s.grid[r], r, at, n)
  {
    var t := EraseLine(s, how).grid[r];
    RowIs(t, s.grid[r], r, at, n);
  }

  /** The characters of "*CGA" in the last four cells of the first row; their attributes stay. */
  function Labelled(m: seq<nat>): (r: seq<nat>)
    requires |m| == CELLS
    ensures |r| == CELLS && forall k :: 0 <= k < CELLS && !(76 <= k < 80) ==> r[k] == m[k]
    ensures r[76] % 256 == '*' as int && r[77] % 256 == 'C' as int && r[78] % 256 == 'G' as int && r[79] % 256 == 'A' as int
    ensures forall k :: 76 <= k < 80 ==> r[k] / 256 == m[k] / 256
  {
    seq(CELLS, k requires 0 <= k < CELLS => if 76 <= k < 80 then m[k] / 256 * 256 + "*CGA"[k - 76] as nat else m[k])
  }

  class Console {
    /** Video memory, two bytes to a cell. */
    const cells: array<nat>
    const par: array<nat>
    var pos: nat
    var x: nat
    var y: nat
    var top: nat
    var bottom: nat
    var state: nat
    var npar: nat
    var ques: bool
    var attr: nat
    var savedX: nat
    var savedY: nat

    /** The three forms of the cursor agree, and the scroll region is one. */
    ghost predicate CursorOk()
      reads this
    {
      && x <= COLS && y < LINES && pos == ORIGIN + ROW_BYTES * y + 2 * x
      && top < bottom <= LINES && savedX <= COLS && savedY < LINES
    }

    ghost predicate Valid()
      reads this, cells, par
    {
      && cells != par && cells.Length == CELLS && par.Length == NPAR
      && CursorOk() && state < 4 && npar < NPAR && forall i :: 0 <= i < NPAR ==> par[i] < WORD
    }

    ghost function Parsing(): Parser
      reads this, par
    {
      if state == 0 then Ground else if state == 1 then Escape else if state == 2 then Bracket
      else Params(npar, par[..])
    }

    /** The terminal that this state stands for. */
    ghost function Abs(): (s: Screen)
      reads this, cells, par
      requires Valid()
      ensures ScreenOk(s)
    {
      GridAt(cells[..]);
      Screen(Grid(cells[..]), x, y, top, bottom, savedX, savedY, attr, Parsing())
    }

    /** con_init: it writes "*CGA" at the end of the first row, and leaves the rest of video memory. */
    constructor (cells: array<nat>)
      requires cells.Length == CELLS
      modifies cells
      ensures Valid() && fresh(par) && this.cells == cells
      ensures Abs() == Screen(Grid(Labelled(old(cells[..]))), 0, 0, 0, LINES, 0, 0, 0x07, Ground)
      ensures cells[SCREEN..] == old(cells[SCREEN..])
    {
      this.cells := cells;
      par := new nat[NPAR](_ => 0);
      pos, x, y := ORIGIN, 0, 0;
      top, bottom := 0, LINES;
      state, npar, ques, attr := 0, 0, false, 0x07;
      savedX, savedY := 0, 0;
      new;
      var i := 0;
      while i < 4
        invariant i <= 4 && fresh(par) && Valid() && Parsing() == Ground
        invariant x == y == top == savedX == savedY == 0 && bottom == LINES && attr == 0x07
        invariant forall k :: 0 <= k < CELLS ==> cells[k] == if 76 <= k < 76 + i then Labelled(old(cells[..]))[k] else old(cells[k])
      {
        cells[76 + i] := cells[76 + i] / 256 * 256 + "*CGA"[i] as nat;
        i := i + 1;
      }
      assert cells[..] == Labelled(old(cells[..]));
    }

    /** cld; rep movs */
    method MoveUp(to: nat, from: nat, n: nat)
      requires to <= from && from + n <= cells.Length
      modifies cells
      ensures Copied(old(cells[..]), cells[..], to, from, n)
    {
      var i := 0;
      while i < n
        invariant i <= n
        invariant Copied(old(cells[..]), cells[..], to, from, i)
      {
        assert cells[from + i] == cells[..][from + i];
        cells[to + i] := cells[from + i];
        i := i + 1;
      }
    }

    /** std; rep movs */
    method MoveDown(to: nat, from: nat, n: nat)
      requires from <= to && to + n <= cells.Length
      modifies cells
      ensures Copied(old(cells[..]), cells[..], to, from, n)
    {
      var i := n;
      while i > 0
        invariant 0 <= i <= n
        invariant Copied(old(cells[..]), cells[..], to + i, from + i, n - i)
      {
        i := i - 1;
        assert cells[from + i] == cells[..][from + i];
        cells[to + i] := cells[from + i];
      }
    }

    /** rep stosw */
    method Fill(at: nat, n: nat)
      requires at + n <= cells.Length
      modifies cells
      ensures Filled(old(cells[..]), cells[..], at, n)
    {
      var i := 0;
      while i < n
        invariant i <= n && Filled(old(cells[..]), cells[..], at, i)
      {
        cells[at + i] := ERASE;
        i := i + 1;
      }
    }

    /** scrup */
    method ScrUp()
      requires Valid()
      modifies cells
      ensures Valid() && cells[SCREEN..] == old(cells[SCREEN..])
      ensures Abs() == old(Abs()).(grid := LinesGone(old(Abs()).grid, top, bottom, 1))
    {
      ghost var m0 := cells[..];
      MoveUp(COLS * top, COLS * (top + 1), (bottom - top - 1) * COLS);
      ghost var m1 := cells[..];
      Fill(COLS * (bottom - 1), COLS);
      ScrolledUp(m0, m1, cells[..], top, bottom);
      assert cells[SCREEN..] == cells[..][SCREEN..];
    }

    /** scrdown */
    method ScrDown()
      requires Valid()
      modifies cells
      ensures Valid() && cells[SCREEN..] == old(cells[SCREEN..])
      ensures Abs() == old(Abs()).(grid := LinesCome(old(Abs()).grid, top, bottom, 1))
    {
      ghost var m0 := cells[..];
      MoveDown(COLS * (top + 1), COLS * top, (bottom - top - 1) * COLS);
      ghost var m1 := cells[..];
      Fill(COLS * top, COLS);
      ScrolledDown(m0, m1, cells[..], top, bottom);
      assert cells[SCREEN..] == cells[..][SCREEN..];
    }

    // The cursor

    method GotoXY(newX: nat, newY: nat)
      requires Valid()
      modifies this`x, this`y, this`pos
      ensures Valid() && Abs() == GoTo(old(Abs()), newX, newY)
    {
      if newX > COLS || newY >= LINES {
        return;
      }
      x := newX;
      y := newY;
      pos := ORIGIN + y * ROW_BYTES + 2 * x;
    }

    method LF()
      requires Valid()
      modifies this`y, this`pos, cells
      ensures Valid() && Abs() == LineFeed(old(Abs())) && cells[SCREEN..] == old(cells[SCREEN..])
    {
      if y + 1 < bottom {
        y := y + 1;
        pos := pos + ROW_BYTES;
        return;
      }
      ScrUp();
    }

    method RI()
      requires Valid()
      modifies this`y, this`pos, cells
      ensures Valid() && Abs() == ReverseFeed(old(Abs())) && cells[SCREEN..] == old(cells[SCREEN..])
    {
      if y > top {
        y := y - 1;
        pos := pos - ROW_BYTES;
        return;
      }
      ScrDown();
    }

    method CR()
      requires Valid()
      modifies this`x, this`pos
      ensures Valid() && Abs() == old(Abs()).(x := 0)
    {
      pos := pos - 2 * x;
      x := 0;
    }

    /** Stores one cell at pos. */
    method Store(v: nat)
      requires Valid() && x < COLS
      modifies cells
      ensures Valid() && Abs() == WithRow(old(Abs()), old(Abs()).grid[y][x := v]) && cells[SCREEN..] == old(cells[SCREEN..])
    {
      ghost var m0 := cells[..];
      GridAt(m0);
      cells[(pos - ORIGIN) / 2] := v;
      RowChanged(m0, cells[..], y, Grid(m0)[y][x := v]);
      assert cells[SCREEN..] == cells[..][SCREEN..];
    }

    method Del()
      requires Valid()
      modifies this`x, this`pos, cells
      ensures Valid() && Abs() == Plain(old(Abs()), 127) && cells[SCREEN..] == old(cells[SCREEN..])
    {
      if x > 0 {
        pos := pos - 2;
        x := x - 1;
        Store(ERASE);
      }
    }

    /** The first case of con_write: a printable character. */
    method PrintChar(c: nat)
      requires Valid() && 31 < c < 127
      modifies this`x, this`y, this`pos, cells
      ensures Valid() && Abs() == Print(old(Abs()), c) && cells[SCREEN..] == old(cells[SCREEN..])
    {
      if x >= COLS {
        x := x - COLS;
        pos := pos - ROW_BYTES;
        LF();
      }
      Store(attr * 256 + c);
      pos := pos + 2;
      x := x + 1;
    }

    method TabStop()
      requires Valid()
      modifies this`x, this`y, this`pos, cells
      ensures Valid() && Abs() == Tab(old(Abs())) && cells[SCREEN..] == old(cells[SCREEN..])
    {
      var c := 8 - x % 8;
      x := x + c;
      pos := pos + 2 * c;
      if x > COLS {
        x := x - COLS;
        pos := pos - ROW_BYTES;
        LF();
      }
    }

    // Editing

    /** Lines y and below move, as if they were the scroll region. */
    method InsertLine()
      requires Valid()
      modifies this`top, this`bottom, cells
      ensures Valid() && Abs() == LinesIn(old(Abs()), 1)
      ensures cells[SCREEN..] == old(cells[SCREEN..])
    {
      var oldTop, oldBottom := top, bottom;
      top := y;
      bottom := LINES;
      ScrDown();
      top := oldTop;
      bottom := oldBottom;
    }

    method DeleteLine()
      requires Valid()
      modifies this`top, this`bottom, cells
      ensures Valid() && Abs() == LinesOut(old(Abs()), 1)
      ensures cells[SCREEN..] == old(cells[SCREEN..])
    {
      var oldTop, oldBottom := top, bottom;
      top := y;
      bottom := LINES;
      ScrUp();
      top := oldTop;
      bottom := oldBottom;
    }

    /** A turn of the loop of csi_L. */
    method OneLineIn(ghost s: Screen, ghost k: nat)
      requires Valid() && ScreenOk(s) && Abs() == LinesIn(s, k)
      modifies this`top, this`bottom, cells
      ensures Valid() && Abs() == LinesIn(s, k + 1) && cells[SCREEN..] == old(cells[SCREEN..])
    {
      LinesInSteps(s, 1, k);
      InsertLine();
    }

    /** csi_L */
    method CsiL(par0: nat)
      requires Valid()
      modifies this`top, this`bottom, cells
      ensures Valid() && Abs() == LinesIn(old(Abs()), Times(par0, LINES, LINES)) && cells[SCREEN..] == old(cells[SCREEN..])
    {
      var nr := if par0 > LINES then LINES else if par0 == 0 then 1 else par0;
      ghost var s, k := Abs(), 0;
      NoLinesIn(s);
      while nr > 0
        invariant Valid() && 0 <= nr && k + nr == Times(par0, LINES, LINES) && cells[SCREEN..] == old(cells[SCREEN..])
        invariant Abs() == LinesIn(s, k)
      {
        OneLineIn(s, k);
        nr, k := nr - 1, k + 1;
      }
      assert k == Times(par0, LINES, LINES);
    }

    /** A turn of the loop of csi_M. */
    method OneLineOut(ghost s: Screen, ghost k: nat)
      requires Valid() && ScreenOk(s) && Abs() == LinesOut(s, k)
      modifies this`top, this`bottom, cells
      ensures Valid() && Abs() == LinesOut(s, k + 1) && cells[SCREEN..] == old(cells[SCREEN..])
    {
      LinesOutSteps(s, 1, k);
      DeleteLine();
    }

    /** csi_M */
    method CsiM(par0: nat)
      requires Valid()
      modifies this`top, this`bottom, cells
      ensures Valid() && Abs() == LinesOut(old(Abs()), Times(par0, LINES, LINES)) && cells[SCREEN..] == old(cells[SCREEN..])
    {
      var nr := if par0 > LINES then LINES else if par0 == 0 then 1 else par0;
      ghost var s, k := Abs(), 0;
      NoLinesOut(s);
      while nr > 0
        invariant Valid() && 0 <= nr && k + nr == Times(par0, LINES, LINES) && cells[SCREEN..] == old(cells[SCREEN..])
        invariant Abs() == LinesOut(s, k)
      {
        OneLineOut(s, k);
        nr, k := nr - 1, k + 1;
      }
      assert k == Times(par0, LINES, LINES);
    }

    /** insert_char: each cell from the cursor on gets its left neighbour's, the first one a blank. */
    method InsertChar()
      requires Valid()
      modifies cells
      ensures Valid() && Abs() == CellsIn(old(Abs()), 1)
      ensures cells[SCREEN..] == old(cells[SCREEN..])
    {
      ghost var m0 := cells[..];
      var i, before := x, ERASE;
      var p := (pos - ORIGIN) / 2;
      ghost var at := p;
      while i < COLS
        invariant x <= i <= COLS && p == at + (i - x)
        invariant before == if i == x then ERASE else m0[p - 1]
        invariant forall k :: 0 <= k < CELLS ==> cells[k] == if at <= k < p then Pushed(m0, at, k) else m0[k]
      {
        var tmp := cells[p];
        cells[p] := before;
        before := tmp;
        p := p + 1;
        i := i + 1;
      }
      CharIn(m0, cells[..], y, x);
      assert cells[SCREEN..] == cells[..][SCREEN..];
    }

    /** delete_char */
    method DeleteChar()
      requires Valid()
      modifies cells
      ensures Valid() && Abs() == CellsOut(old(Abs()), 1)
      ensures cells[SCREEN..] == old(cells[SCREEN..])
    {
      ghost var m0 := cells[..];
      if x >= COLS {
        CharOut(m0, m0, y, x);
        return;
      }
      var i, p := x + 1, (pos - ORIGIN) / 2;
      ghost var at := p;
      while i < COLS
        invariant x < i <= COLS && p == at + (i - x - 1)
        invariant forall k :: 0 <= k < CELLS ==> cells[k] == if at <= k < p then Pulled(m0, k) else m0[k]
      {
        cells[p] := cells[p + 1];
        p := p + 1;
        i := i + 1;
      }
      cells[p] := ERASE;
      CharOut(m0, cells[..], y, x);
      assert cells[SCREEN..] == cells[..][SCREEN..];
    }

    /** A turn of the loop of csi_at. */
    method OneCellIn(ghost s: Screen, ghost k: nat)
      requires Valid() && ScreenOk(s) && Abs() == CellsIn(s, k)
      modifies cells
      ensures Valid() && Abs() == CellsIn(s, k + 1) && cells[SCREEN..] == old(cells[SCREEN..])
    {
      CellsInSteps(s, 1, k);
      InsertChar();
    }

    /** csi_at */
    method CsiAt(par0: nat)
      requires Valid()
      modifies cells
      ensures Valid() && Abs() == InsertChars(old(Abs()), par0) && cells[SCREEN..] == old(cells[SCREEN..])
    {
      var nr := if par0 > COLS then COLS else if par0 == 0 then 1 else par0;
      ghost var s, k := Abs(), 0;
      NoCellsIn(s);
      while nr > 0
        invariant Valid() && 0 <= nr && k + nr == Times(par0, COLS, COLS) && cells[SCREEN..] == old(cells[SCREEN..])
        invariant Abs() == CellsIn(s, k)
      {
        OneCellIn(s, k);
        nr, k := nr - 1, k + 1;
      }
      CellsInSteps(s, par0, 0);
    }

    /** A turn of the loop of csi_P. */
    method OneCellOut(ghost s: Screen, ghost k: nat)
      requires Valid() && ScreenOk(s) && Abs() == CellsOut(s, k)
      modifies cells
      ensures Valid() && Abs() == CellsOut(s, k + 1) && cells[SCREEN..] == old(cells[SCREEN..])
    {
      CellsOutSteps(s, 1, k);
      DeleteChar();
    }

    /** csi_P */
    method CsiP(par0: nat)
      requires Valid()
      modifies cells
      ensures Valid() && Abs() == DeleteChars(old(Abs()), par0) && cells[SCREEN..] == old(cells[SCREEN..])
    {
      var nr := if par0 > COLS then COLS else if par0 == 0 then 1 else par0;
      ghost var s, k := Abs(), 0;
      NoCellsOut(s);
      while nr > 0
        invariant Valid() && 0 <= nr && k + nr == Times(par0, COLS, COLS) && cells[SCREEN..] == old(cells[SCREEN..])
        invariant Abs() == CellsOut(s, k)
      {
        OneCellOut(s, k);
        nr, k := nr - 1, k + 1;
      }
      CellsOutSteps(s, par0, 0);
    }

    /** csi_J */
    method CsiJ(how: nat)
      requires Valid()
      modifies cells
      ensures Valid() && Abs() == EraseDisplay(old(Abs()), how) && cells[SCREEN..] == old(cells[SCREEN..])
    {
      var start, count;
      match how {
        case 0 => count, start := (ORIGIN + LINES * ROW_BYTES - pos) / 2, pos;
        case 1 => count, start := (pos - ORIGIN) / 2, ORIGIN;
        case 2 => count, start := COLS * LINES, ORIGIN;
        case _ => return;
      }
      ghost var s, m0 := Abs(), cells[..];
      Fill((start - ORIGIN) / 2, count);
      forall r: nat | r < LINES {
        DisplayErased(s, how, (start - ORIGIN) / 2, count, r);
      }
      Erased(m0, cells[..], (start - ORIGIN) / 2, count, EraseDisplay(s, how).grid);
      assert cells[SCREEN..] == cells[..][SCREEN..];
    }

    /** csi_K */
    method CsiK(how: nat)
      requires Valid()
      modifies cells
      ensures Valid() && Abs() == EraseLine(old(Abs()), how) && cells[SCREEN..] == old(cells[SCREEN..])
    {
      var start, count;
      ghost var s, m0 := Abs(), cells[..];
      match how {
        case 0 =>
          if x >= COLS {
            assert s.grid[y][..COLS] + Blanks(0) == s.grid[y];
            return;
          }
          count, start := COLS - x, pos;
        case 1 => start, count := pos - 2 * x, if x < COLS then x else COLS;
        case 2 => start, count := pos - 2 * x, COLS;
        case _ => return;
      }
      Fill((start - ORIGIN) / 2, count);
      forall r: nat | r < LINES {
        LineErased(s, how, (start - ORIGIN) / 2, count, r);
      }
      Erased(m0, cells[..], (start - ORIGIN) / 2, count, EraseLine(s, how).grid);
      assert cells[SCREEN..] == cells[..][SCREEN..];
    }

    /** csi_m */
    method CsiSgr()
      requires Valid()
      modifies this`attr
      ensures Valid() && Abs() == old(Abs()).(attr := Attr(old(attr), par[..], npar + 1))
    {
      var i := 0;
      while i <= npar
        invariant i <= npar + 1 && attr == Attr(old(attr), par[..], i)
      {
        attr := AttrAfter(attr, par[i]);
        i := i + 1;
      }
    }

    /** The case 'r' of con_write. */
    method SetMargins()
      requires Valid() && state == 0
      modifies this`top, this`bottom, par
      ensures Valid() && Abs() == Margins(old(Abs()), old(par[0]), old(par[1]))
    {
      if par[0] != 0 {
        par[0] := par[0] - 1;
      }
      if par[1] == 0 {
        par[1] := LINES;
      }
      if par[0] < par[1] && par[1] <= LINES {
        top := par[0];
        bottom := par[1];
      }
    }

    method SaveCur()
      requires Valid()
      modifies this`savedX, this`savedY
      ensures Valid() && Abs() == Save(old(Abs()))
    {
      savedX := x;
      savedY := y;
    }

    method RestoreCur()
      requires Valid()
      modifies this`x, this`y, this`pos
      ensures Valid() && Abs() == GoTo(old(Abs()), old(savedX), old(savedY))
    {
      GotoXY(savedX, savedY);
    }

    // Control sequences.  Outside of a sequence the parameters are stale, so that they may be changed at will.

    /** if(par[i]) par[i]-- */
    method LessOne(i: nat)
      requires Valid() && state == 0 && i < NPAR
      modifies par
      ensures Valid() && Abs() == old(Abs()) && par[i] == Less1(old(par[i]))
      ensures forall k :: 0 <= k < NPAR && k != i ==> par[k] == old(par[k])
    {
      if par[i] != 0 {
        par[i] := par[i] - 1;
      }
    }

    /** if(!par[0]) par[0]++ */
    method OneAtLeast()
      requires Valid() && state == 0
      modifies par
      ensures Valid() && Abs() == old(Abs()) && par[0] == AtLeast1(old(par[0]))
    {
      if par[0] == 0 {
        par[0] := par[0] + 1;
      }
    }

    /** The cursor movements that count from where the cursor is. */
    method MoveBy(c: int)
      requires Valid() && state == 0
      requires c == 'A' as int || c == 'B' as int || c == 'e' as int || c == 'C' as int || c == 'a' as int
               || c == 'D' as int || c == 'E' as int || c == 'F' as int
      modifies this`x, this`y, this`pos, par
      ensures Valid() && Abs() == Moved(old(Abs()), old(par[..]), c)
    {
      OneAtLeast();
      var n := par[0];
      if c == 'A' as int {
        GotoXY(x, (y - n) % WORD);
      } else if c == 'B' as int || c == 'e' as int {
        GotoXY(x, (y + n) % WORD);
      } else if c == 'C' as int || c == 'a' as int {
        GotoXY((x + n) % WORD, y);
      } else if c == 'D' as int {
        GotoXY((x - n) % WORD, y);
      } else if c == 'E' as int {
        GotoXY(0, (y + n) % WORD);
      } else {
        GotoXY(0, (y - n) % WORD);
      }
    }

    /** The cursor movements to a given line or column. */
    method MoveTo(c: int)
      requires Valid() && state == 0
      requires c == 'G' as int || c == '`' as int || c == 'd' as int || c == 'H' as int || c == 'f' as int
      modifies this`x, this`y, this`pos, par
      ensures Valid() && Abs() == Moved(old(Abs()), old(par[..]), c)
    {
      LessOne(0);
      if c == 'G' as int || c == '`' as int {
        GotoXY(par[0], y);
      } else if c == 'd' as int {
        GotoXY(x, par[0]);
      } else {
        LessOne(1);
        GotoXY(par[1], par[0]);
      }
    }

    method Edit(c: int)
      requires Valid() && state == 0 && !IsMove(c)
      modifies this, cells, par
      ensures Valid() && Abs() == Edited(old(Abs()), old(npar), old(par[..]), c)
      ensures cells[SCREEN..] == old(cells[SCREEN..])
    {
      ghost var s := Abs();
      if c == 'J' as int {
        CsiJ(par[0]);
      } else if c == 'K' as int {
        CsiK(par[0]);
      } else if c == 'L' as int {
        LinesInSteps(s, par[0], 0);
        CsiL(par[0]);
      } else if c == 'M' as int {
        LinesOutSteps(s, par[0], 0);
        CsiM(par[0]);
      } else if c == 'P' as int {
        CsiP(par[0]);
      } else if c == '@' as int {
        CsiAt(par[0]);
      } else if c == 'm' as int {
        CsiSgr();
      } else if c == 'r' as int {
        SetMargins();
      } else if c == 's' as int {
        SaveCur();
      } else if c == 'u' as int {
        RestoreCur();
      }
    }

    /** case 4 of con_write: the final byte. */
    method Dispatch(c: int)
      requires Valid()
      modifies this, cells, par
      ensures Valid() && cells[SCREEN..] == old(cells[SCREEN..])
      ensures Abs() == Dispatched(old(Abs()).(parser := Ground), old(npar), old(par[..]), c)
    {
      state := 0;
      if c == 'G' as int || c == '`' as int || c == 'd' as int || c == 'H' as int || c == 'f' as int {
        MoveTo(c);
      } else if IsMove(c) {
        MoveBy(c);
      } else {
        Edit(c);
      }
    }

    /** case 3 of con_write: a parameter's digit, a separator, or the final byte. */
    method Parameter(c: int)
      requires Valid() && state == 3
      modifies this, cells, par
      ensures Valid() && Abs() == Param(old(Abs()), old(npar), old(par[..]), c)
      ensures cells[SCREEN..] == old(cells[SCREEN..])
    {
      if c == ';' as int && npar < NPAR - 1 {
        npar := npar + 1;
      } else if IsDigit(c) {
        par[npar] := (10 * par[npar] + c - '0' as int) % WORD;
      } else {
        Dispatch(c);
      }
    }

    /** case 0 of con_write. */
    method Ordinary(c: int)
      requires Valid() && state == 0
      modifies this`x, this`y, this`pos, this`state, cells
      ensures Valid() && Abs() == Plain(old(Abs()), c) && cells[SCREEN..] == old(cells[SCREEN..])
    {
      if 31 < c < 127 {
        PrintChar(c);
      } else if c == 27 {
        state := 1;
      } else if c == 10 || c == 11 || c == 12 {
        LF();
      } else if c == 13 {
        CR();
      } else if c == 127 {
        Del();
      } else if c == 8 {
        if x > 0 {
          x := x - 1;
          pos := pos - 2;
        }
      } else if c == 9 {
        TabStop();
      }
    }

    /** case 1 of con_write. */
    method AfterEscape(c: int)
      requires Valid() && state == 1
      modifies this, cells
      ensures Valid() && Abs() == Escaped(old(Abs()).(parser := Ground), c) && cells[SCREEN..] == old(cells[SCREEN..])
    {
      state := 0;
      if c == '[' as int {
        state := 2;
      } else if c == 'E' as int {
        GotoXY(0, y + 1);
      } else if c == 'M' as int {
        RI();
      } else if c == 'D' as int {
        LF();
      } else if x == '7' as int {
        SaveCur();
      } else if x == '8' as int {
        RestoreCur();
      }
    }

    /** case 2 of con_write: all parameters are 0. */
    method StartParameters()
      requires Valid() && state == 2
      modifies this`npar, this`state, par
      ensures Valid() && Abs() == old(Abs()).(parser := Params(0, Zeros()))
      ensures state == 3 && npar == 0 && par[..] == Zeros()
    {
      npar := 0;
      while npar < NPAR
        invariant npar <= NPAR && forall i :: 0 <= i < npar ==> par[i] == 0
        decreases NPAR - npar
      {
        par[npar] := 0;
        npar := npar + 1;
      }
      assert par[..] == Zeros();
      npar := 0;
      state := 3;
    }

    /** One turn of con_write, on a byte as the signed char it is. */
    method Put(c: int)
      requires Valid() && -128 <= c < 128
      modifies this, cells, par
      ensures Valid() && Abs() == Next(old(Abs()), c) && cells[SCREEN..] == old(cells[SCREEN..])
    {
      if state == 0 {
        Ordinary(c);
      } else if state == 1 {
        AfterEscape(c);
      } else {
        if state == 2 {
          StartParameters();
          ques := c == '?' as int;
          if ques {
            return;
          }
        }
        Parameter(c);
      }
    }

    /** One turn of con_write. */
    method PutNext(q: TtyQueue)
      requires Valid() && q.Valid() && q.buf as object !in {cells, par}
      requires q.Contents() != [] && -128 <= q.Contents()[0] < 128
      modifies this, cells, par, q`tail
      ensures Valid() && q.Valid() && cells[SCREEN..] == old(cells[SCREEN..])
      ensures q.Contents() == old(q.Contents())[1..] && Run(Abs(), q.Contents()) == Run(old(Abs()), old(q.Contents()))
    {
      var c := q.GetCh();
      Put(c);
    }

    /** con_write: everything that waits in the queue, in order. */
    method ConWrite(q: TtyQueue)
      requires Valid() && q.Valid() && q.buf as object !in {cells, par}
      requires forall i :: 0 <= i < |q.Contents()| ==> -128 <= q.Contents()[i] < 128
      modifies this, cells, par, q`tail
      ensures Valid() && q.Valid() && cells[SCREEN..] == old(cells[SCREEN..])
      ensures q.Contents() == [] && Abs() == Run(old(Abs()), old(q.Contents()))
    {
      var nr := q.Chars();
      ghost var s, bytes := Abs(), q.Contents();
      while nr > 0
        invariant Valid() && q.Valid() && 0 <= nr == |q.Contents()| <= |bytes|
        invariant q.Contents() == bytes[|bytes| - nr..]
        invariant Run(Abs(), q.Contents()) == Run(s, bytes)
        invariant cells[SCREEN..] == old(cells[SCREEN..])
      {
        PutNext(q);
        nr := nr - 1;
      }
    }
  }
}
