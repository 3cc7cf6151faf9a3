/**
 What the terminal of kernel/console.c means, without video memory: a grid of 25 rows of 80 cells, a cursor, a
 scroll region, and a parser of escape sequences.  The editing functions are the control functions of ECMA-48,
 section 8.3 (CUP, ED, EL, ICH, DCH, IL, DL and the cursor movements), in closed form.

 Console.dfy proves that the interpreter, with its redundant cursor and its block moves, does exactly this.
 */
module Terminal {
  import opened Machine

  const LINES: nat := 25
  const NPAR: nat := 16
  /** A space in the normal attribute. */
  const ERASE: nat := 0x0720

  type Row = seq<nat>

  /** Where the bytes so far leave an escape sequence: nowhere, after ESC, after ESC [, or among its parameters. */
  datatype Parser = Ground | Escape | Bracket | Params(npar: nat, par: seq<nat>)

  datatype Screen = Screen(
    grid: seq<Row>, x: nat, y: nat, top: nat, bottom: nat, savedX: nat, savedY: nat, attr: nat, parser: Parser)

  ghost predicate GridOk(g: seq<Row>) {
    |g| == LINES && forall r :: 0 <= r < LINES ==> |g[r]| == COLS
  }

  ghost predicate ParserOk(p: Parser) {
    p.Params? ==> p.npar < NPAR && |p.par| == NPAR && forall i :: 0 <= i < NPAR ==> p.par[i] < WORD
  }

  /** The cursor may stand behind the last column, waiting to wrap. */
  ghost predicate ScreenOk(s: Screen) {
    && GridOk(s.grid) && s.x <= COLS && s.y < LINES && s.top < s.bottom <= LINES
    && s.savedX <= COLS && s.savedY < LINES && ParserOk(s.parser)
  }

  function Blanks(n: nat): (r: Row)
    ensures |r| == n && forall i :: 0 <= i < n ==> r[i] == ERASE
  {
    seq(n, _ => ERASE)
  }

  function BlankRows(n: nat): (g: seq<Row>)
    ensures |g| == n && forall i :: 0 <= i < n ==> g[i] == Blanks(COLS)
  {
    seq(n, _ => Blanks(COLS))
  }

  // Scrolling and editing

  /** The first n of the lines from top up to bottom go; n blank lines follow the others. */
  function LinesGone(g: seq<Row>, top: nat, bottom: nat, n: nat): seq<Row>
    requires top + n <= bottom <= |g|
  {
    g[..top] + g[top + n..bottom] + BlankRows(n) + g[bottom..]
  }

  /** n blank lines come in at top; the last n lines above bottom go. */
  function LinesCome(g: seq<Row>, top: nat, bottom: nat, n: nat): seq<Row>
    requires top + n <= bottom <= |g|
  {
    g[..top] + BlankRows(n) + g[top..bottom - n] + g[bottom..]
  }

  function CellsGone(r: Row, x: nat, n: nat): Row
    requires x + n <= |r|
  {
    r[..x] + r[x + n..] + Blanks(n)
  }

  function CellsCome(r: Row, x: nat, n: nat): Row
    requires x + n <= |r|
  {
    r[..x] + Blanks(n) + r[x..|r| - n]
  }

  /** How often an editing function is done for parameter nr: once for 0, and no more often than there is room. */
  function Times(nr: nat, max: nat, room: nat): (n: nat)
    ensures n <= room
  {
    var wanted := if nr > max then max else if nr == 0 then 1 else nr;
    if wanted < room then wanted else room
  }

  function LineFeed(s: Screen): (t: Screen)
    requires ScreenOk(s)
    ensures ScreenOk(t)
  {
    if s.y + 1 < s.bottom then s.(y := s.y + 1) else s.(grid := LinesGone(s.grid, s.top, s.bottom, 1))
  }

  function ReverseFeed(s: Screen): (t: Screen)
    requires ScreenOk(s)
    ensures ScreenOk(t)
  {
    if s.y > s.top then s.(y := s.y - 1) else s.(grid := LinesCome(s.grid, s.top, s.bottom, 1))
  }

  /** A move to a place that does not exist is not made. */
  function GoTo(s: Screen, x: nat, y: nat): (t: Screen)
    requires ScreenOk(s)
    ensures ScreenOk(t)
  {
    if x <= COLS && y < LINES then s.(x := x, y := y) else s
  }

  function WithRow(s: Screen, r: Row): (t: Screen)
    requires ScreenOk(s) && |r| == COLS
    ensures ScreenOk(t)
  {
    s.(grid := s.grid[s.y := r])
  }

  function Print(s: Screen, c: nat): (t: Screen)
    requires ScreenOk(s)
    ensures ScreenOk(t)
  {
    var w := if s.x >= COLS then LineFeed(s.(x := 0)) else s;
    WithRow(w, w.grid[w.y][w.x := w.attr * 256 + c]).(x := w.x + 1)
  }

  /** To the next multiple of eight; past column 80, to the next line. */
  function Tab(s: Screen): (t: Screen)
    requires ScreenOk(s)
    ensures ScreenOk(t)
  {
    var x := (s.x / 8 + 1) * 8;
    if x > COLS then LineFeed(s.(x := x - COLS)) else s.(x := x)
  }

  function EraseDisplay(s: Screen, how: nat): (t: Screen)
    requires ScreenOk(s)
    ensures ScreenOk(t)
  {
    var row := s.grid[s.y];
    match how
    case 0 => s.(grid := s.grid[..s.y] + [row[..s.x] + Blanks(COLS - s.x)] + BlankRows(LINES - s.y - 1))
    case 1 => s.(grid := BlankRows(s.y) + [Blanks(s.x) + row[s.x..]] + s.grid[s.y + 1..])
    case 2 => s.(grid := BlankRows(LINES))
    case _ => s
  }

  function EraseLine(s: Screen, how: nat): (t: Screen)
    requires ScreenOk(s)
    ensures ScreenOk(t)
  {
    var row := s.grid[s.y];
    match how
    case 0 => WithRow(s, row[..s.x] + Blanks(COLS - s.x))
    case 1 => WithRow(s, Blanks(s.x) + row[s.x..])
    case 2 => WithRow(s, Blanks(COLS))
    case _ => s
  }

  function InsertChars(s: Screen, nr: nat): (t: Screen)
    requires ScreenOk(s)
    ensures ScreenOk(t)
  {
    WithRow(s, CellsCome(s.grid[s.y], s.x, Times(nr, COLS, COLS - s.x)))
  }

  function DeleteChars(s: Screen, nr: nat): (t: Screen)
    requires ScreenOk(s)
    ensures ScreenOk(t)
  {
    WithRow(s, CellsGone(s.grid[s.y], s.x, Times(nr, COLS, COLS - s.x)))
  }

  /** The lines from the cursor's down to the last of the screen move, whatever the scroll region is. */
  function InsertLines(s: Screen, nr: nat): (t: Screen)
    requires ScreenOk(s)
    ensures ScreenOk(t)
  {
    s.(grid := LinesCome(s.grid, s.y, LINES, Times(nr, LINES, LINES - s.y)))
  }

  function DeleteLines(s: Screen, nr: nat): (t: Screen)
    requires ScreenOk(s)
    ensures ScreenOk(t)
  {
    s.(grid := LinesGone(s.grid, s.y, LINES, Times(nr, LINES, LINES - s.y)))
  }

  function AttrAfter(attr: nat, p: nat): nat {
    match p
    case 0 => 0x07
    case 1 => 0x0f
    case 4 => 0x0f
    case 7 => 0x70
    case 27 => 0x07
    case _ => attr
  }

  /** The attribute after the first n parameters. */
  function Attr(attr: nat, par: seq<nat>, n: nat): nat
    requires n <= |par|
  {
    if n == 0 then attr else AttrAfter(Attr(attr, par, n - 1), par[n - 1])
  }

  function Less1(p: nat): nat {
    if p == 0 then 0 else p - 1
  }

  function AtLeast1(p: nat): nat {
    if p == 0 then 1 else p
  }

  /** Scroll region from line a up to, and without, line b; b == 0 stands for all lines. */
  function Margins(s: Screen, a: nat, b: nat): (t: Screen)
    requires ScreenOk(s)
    ensures ScreenOk(t)
  {
    var last := if b == 0 then LINES else b;
    if Less1(a) < last <= LINES then s.(top := Less1(a), bottom := last) else s
  }

  // Control characters, escape sequences, control sequences

  function Plain(s: Screen, c: int): (t: Screen)
    requires ScreenOk(s)
    ensures ScreenOk(t)
  {
    if 31 < c < 127 then Print(s, c)
    else if c == 27 then s.(parser := Escape)
    else if c == 10 || c == 11 || c == 12 then LineFeed(s)
    else if c == 13 then s.(x := 0)
    else if c == 127 && s.x > 0 then WithRow(s, s.grid[s.y][s.x - 1 := ERASE]).(x := s.x - 1)
    else if c == 8 && s.x > 0 then s.(x := s.x - 1)
    else if c == 9 then Tab(s)
    else s
  }

  function Save(s: Screen): (t: Screen)
    requires ScreenOk(s)
    ensures ScreenOk(t)
  {
    s.(savedX := s.x, savedY := s.y)
  }

  /** After ESC.  Saving and restoring depend on the column, 55 or 56, not on the byte. */
  function Escaped(s: Screen, c: int): (t: Screen)
    requires ScreenOk(s)
    ensures ScreenOk(t)
  {
    if c == '[' as int then s.(parser := Bracket)
    else if c == 'E' as int then GoTo(s, 0, s.y + 1)
    else if c == 'M' as int then ReverseFeed(s)
    else if c == 'D' as int then LineFeed(s)
    else if s.x == '7' as int then Save(s)
    else if s.x == '8' as int then GoTo(s, s.savedX, s.savedY)
    else s
  }

  /** Cursor movements, in 32-bit arithmetic: a move past the left or upper edge wraps, and is not made. */
  function Moved(s: Screen, par: seq<nat>, c: int): (t: Screen)
    requires ScreenOk(s) && |par| == NPAR
    ensures ScreenOk(t)
  {
    var n := AtLeast1(par[0]);
    if c == 'G' as int || c == '`' as int then GoTo(s, Less1(par[0]), s.y)
    else if c == 'A' as int then GoTo(s, s.x, (s.y - n) % WORD)
    else if c == 'B' as int || c == 'e' as int then GoTo(s, s.x, (s.y + n) % WORD)
    else if c == 'C' as int || c == 'a' as int then GoTo(s, (s.x + n) % WORD, s.y)
    else if c == 'D' as int then GoTo(s, (s.x - n) % WORD, s.y)
    else if c == 'E' as int then GoTo(s, 0, (s.y + n) % WORD)
    else if c == 'F' as int then GoTo(s, 0, (s.y - n) % WORD)
    else if c == 'd' as int then GoTo(s, s.x, Less1(par[0]))
    else if c == 'H' as int || c == 'f' as int then GoTo(s, Less1(par[1]), Less1(par[0]))
    else s
  }

  function Edited(s: Screen, npar: nat, par: seq<nat>, c: int): (t: Screen)
    requires ScreenOk(s) && |par| == NPAR && npar < NPAR
    ensures ScreenOk(t)
  {
    if c == 'J' as int then EraseDisplay(s, par[0])
    else if c == 'K' as int then EraseLine(s, par[0])
    else if c == 'L' as int then InsertLines(s, par[0])
    else if c == 'M' as int then DeleteLines(s, par[0])
    else if c == 'P' as int then DeleteChars(s, par[0])
    else if c == '@' as int then InsertChars(s, par[0])
    else if c == 'm' as int then s.(attr := Attr(s.attr, par, npar + 1))
    else if c == 'r' as int then Margins(s, par[0], par[1])
    else if c == 's' as int then Save(s)
    else if c == 'u' as int then GoTo(s, s.savedX, s.savedY)
    else s
  }

  predicate IsMove(c: int) {
    || c == 'G' as int || c == '`' as int || c == 'A' as int || c == 'B' as int || c == 'e' as int || c == 'C' as int
    || c == 'a' as int || c == 'D' as int || c == 'E' as int || c == 'F' as int || c == 'd' as int || c == 'H' as int
    || c == 'f' as int
  }

  /** The final byte of a control sequence. */
  function Dispatched(s: Screen, npar: nat, par: seq<nat>, c: int): (t: Screen)
    requires ScreenOk(s) && |par| == NPAR && npar < NPAR
    ensures ScreenOk(t)
  {
    if IsMove(c) then Moved(s, par, c) else Edited(s, npar, par, c)
  }

  function Zeros(): (r: seq<nat>)
    ensures |r| == NPAR && forall i :: 0 <= i < NPAR ==> r[i] == 0
  {
    seq(NPAR, _ => 0)
  }

  /** A byte among the parameters. */
  function Param(s: Screen, npar: nat, par: seq<nat>, c: int): (t: Screen)
    requires ScreenOk(s) && ParserOk(Params(npar, par))
    ensures ScreenOk(t)
  {
    if c == ';' as int && npar < NPAR - 1 then
      s.(parser := Params(npar + 1, par))
    else if IsDigit(c) then
      s.(parser := Params(npar, par[npar := (10 * par[npar] + c - '0' as int) % WORD]))
    else
      Dispatched(s.(parser := Ground), npar, par, c)
  }

  /** One byte. */
  function Next(s: Screen, c: int): (t: Screen)
    requires ScreenOk(s)
    ensures ScreenOk(t)
  {
    match s.parser
    case Ground => Plain(s, c)
    case Escape => Escaped(s.(parser := Ground), c)
    case Bracket => if c == '?' as int then s.(parser := Params(0, Zeros())) else Param(s, 0, Zeros(), c)
    case Params(npar, par) => Param(s, npar, par, c)
  }

  /** All bytes of a stream. */
  function Run(s: Screen, bytes: seq<int>): (t: Screen)
    requires ScreenOk(s)
    ensures ScreenOk(t)
    decreases |bytes|
  {
    if bytes == [] then s else Run(Next(s, bytes[0]), bytes[1..])
  }

  // Repetition: the source does an editing function once per unit of its parameter

  function Least(a: nat, b: nat): nat {
    if a < b then a else b
  }

  lemma LinesComeAt(g: seq<Row>, top: nat, bottom: nat, n: nat, r: nat)
    requires top + n <= bottom <= |g| && r < |g|
    ensures LinesCome(g, top, bottom, n)[r]
            == if r < top || bottom <= r then g[r] else if r < top + n then Blanks(COLS) else g[r - n]
  {
  }

  lemma LinesGoneAt(g: seq<Row>, top: nat, bottom: nat, n: nat, r: nat)
    requires top + n <= bottom <= |g| && r < |g|
    ensures LinesGone(g, top, bottom, n)[r]
            == if r < top || bottom <= r then g[r] else if r < bottom - n then g[r + n] else Blanks(COLS)
  {
  }

  lemma CellsComeAt(q: Row, x: nat, n: nat, i: nat)
    requires x + n <= |q| && i < |q|
    ensures CellsCome(q, x, n)[i] == if i < x then q[i] else if i < x + n then ERASE else q[i - n]
  {
  }

  lemma CellsGoneAt(q: Row, x: nat, n: nat, i: nat)
    requires x + n <= |q| && i < |q|
    ensures CellsGone(q, x, n)[i] == if i < x then q[i] else if i < |q| - n then q[i + n] else ERASE
  {
  }

  lemma LinesComeAgain(g: seq<Row>, top: nat, bottom: nat, n: nat)
    requires top < bottom <= |g|
    ensures LinesCome(LinesCome(g, top, bottom, Least(n, bottom - top)), top, bottom, 1)
            == LinesCome(g, top, bottom, Least(n + 1, bottom - top))
  {
    var m := LinesCome(g, top, bottom, Least(n, bottom - top));
    var a, b := LinesCome(m, top, bottom, 1), LinesCome(g, top, bottom, Least(n + 1, bottom - top));
    forall r: nat | r < |g| ensures a[r] == b[r] {
      LinesComeAt(m, top, bottom, 1, r);
      LinesComeAt(g, top, bottom, Least(n + 1, bottom - top), r);
      LinesComeAt(g, top, bottom, Least(n, bottom - top), r);
      if r > 0 { LinesComeAt(g, top, bottom, Least(n, bottom - top), r - 1); }
    }
  }

  lemma LinesGoneAgain(g: seq<Row>, top: nat, bottom: nat, n: nat)
    requires top < bottom <= |g|
    ensures LinesGone(LinesGone(g, top, bottom, Least(n, bottom - top)), top, bottom, 1)
            == LinesGone(g, top, bottom, Least(n + 1, bottom - top))
  {
    var m := LinesGone(g, top, bottom, Least(n, bottom - top));
    var a, b := LinesGone(m, top, bottom, 1), LinesGone(g, top, bottom, Least(n + 1, bottom - top));
    forall r: nat | r < |g| ensures a[r] == b[r] {
      LinesGoneAt(m, top, bottom, 1, r);
      LinesGoneAt(g, top, bottom, Least(n + 1, bottom - top), r);
      LinesGoneAt(g, top, bottom, Least(n, bottom - top), r);
      if r + 1 < |g| { LinesGoneAt(g, top, bottom, Least(n, bottom - top), r + 1); }
    }
  }

  /** Inserting a cell once more; behind the last column nothing happens. */
  lemma CellsComeAgain(q: Row, x: nat, n: nat)
    requires x <= |q|
    ensures CellsCome(CellsCome(q, x, Least(n, |q| - x)), x, Least(1, |q| - x)) == CellsCome(q, x, Least(n + 1, |q| - x))
  {
    var m := CellsCome(q, x, Least(n, |q| - x));
    var a, b := CellsCome(m, x, Least(1, |q| - x)), CellsCome(q, x, Least(n + 1, |q| - x));
    forall i: nat | i < |q| ensures a[i] == b[i] {
      CellsComeAt(m, x, Least(1, |q| - x), i);
      CellsComeAt(q, x, Least(n + 1, |q| - x), i);
      CellsComeAt(q, x, Least(n, |q| - x), i);
      if i > 0 { CellsComeAt(q, x, Least(n, |q| - x), i - 1); }
    }
  }

  lemma CellsGoneAgain(q: Row, x: nat, n: nat)
    requires x <= |q|
    ensures CellsGone(CellsGone(q, x, Least(n, |q| - x)), x, Least(1, |q| - x)) == CellsGone(q, x, Least(n + 1, |q| - x))
  {
    var m := CellsGone(q, x, Least(n, |q| - x));
    var a, b := CellsGone(m, x, Least(1, |q| - x)), CellsGone(q, x, Least(n + 1, |q| - x));
    forall i: nat | i < |q| ensures a[i] == b[i] {
      CellsGoneAt(m, x, Least(1, |q| - x), i);
      CellsGoneAt(q, x, Least(n + 1, |q| - x), i);
      CellsGoneAt(q, x, Least(n, |q| - x), i);
      if i + 1 < |q| { CellsGoneAt(q, x, Least(n, |q| - x), i + 1); }
    }
  }

  // The same, for the whole screen: k lines or cells at the cursor, or as many as there is room for

  function LinesIn(s: Screen, k: nat): (t: Screen)
    requires ScreenOk(s)
    ensures ScreenOk(t)
  {
    s.(grid := LinesCome(s.grid, s.y, LINES, Least(k, LINES - s.y)))
  }

  function LinesOut(s: Screen, k: nat): (t: Screen)
    requires ScreenOk(s)
    ensures ScreenOk(t)
  {
    s.(grid := LinesGone(s.grid, s.y, LINES, Least(k, LINES - s.y)))
  }

  function CellsIn(s: Screen, k: nat): (t: Screen)
    requires ScreenOk(s)
    ensures ScreenOk(t)
  {
    WithRow(s, CellsCome(s.grid[s.y], s.x, Least(k, COLS - s.x)))
  }

  function CellsOut(s: Screen, k: nat): (t: Screen)
    requires ScreenOk(s)
    ensures ScreenOk(t)
  {
    WithRow(s, CellsGone(s.grid[s.y], s.x, Least(k, COLS - s.x)))
  }

  lemma NoLinesIn(s: Screen)
    requires ScreenOk(s)
    ensures LinesIn(s, 0) == s
  {
    assert LinesCome(s.grid, s.y, LINES, 0) == s.grid;
  }

  lemma NoLinesOut(s: Screen)
    requires ScreenOk(s)
    ensures LinesOut(s, 0) == s
  {
    assert LinesGone(s.grid, s.y, LINES, 0) == s.grid;
  }

  lemma NoCellsIn(s: Screen)
    requires ScreenOk(s)
    ensures CellsIn(s, 0) == s
  {
    assert CellsCome(s.grid[s.y], s.x, 0) == s.grid[s.y];
  }

  lemma NoCellsOut(s: Screen)
    requires ScreenOk(s)
    ensures CellsOut(s, 0) == s
  {
    assert CellsGone(s.grid[s.y], s.x, 0) == s.grid[s.y];
  }

  lemma LinesInSteps(s: Screen, nr: nat, k: nat)
    requires ScreenOk(s)
    ensures LinesIn(s, 0) == s && LinesIn(LinesIn(s, k), 1) == LinesIn(s, k + 1)
    ensures InsertLines(s, nr) == LinesIn(s, Times(nr, LINES, LINES))
  {
    LinesComeAgain(s.grid, s.y, LINES, k);
    NoLinesIn(s);
  }

  lemma LinesOutSteps(s: Screen, nr: nat, k: nat)
    requires ScreenOk(s)
    ensures LinesOut(s, 0) == s && LinesOut(LinesOut(s, k), 1) == LinesOut(s, k + 1)
    ensures DeleteLines(s, nr) == LinesOut(s, Times(nr, LINES, LINES))
  {
    LinesGoneAgain(s.grid, s.y, LINES, k);
    NoLinesOut(s);
  }

  lemma CellsInSteps(s: Screen, nr: nat, k: nat)
    requires ScreenOk(s)
    ensures CellsIn(s, 0) == s && CellsIn(CellsIn(s, k), 1) == CellsIn(s, k + 1)
    ensures InsertChars(s, nr) == CellsIn(s, Times(nr, COLS, COLS))
  {
    var row := s.grid[s.y];
    CellsComeAgain(row, s.x, k);
    NoCellsIn(s);
  }

  lemma CellsOutSteps(s: Screen, nr: nat, k: nat)
    requires ScreenOk(s)
    ensures CellsOut(s, 0) == s && CellsOut(CellsOut(s, k), 1) == CellsOut(s, k + 1)
    ensures DeleteChars(s, nr) == CellsOut(s, Times(nr, COLS, COLS))
  {
    var row := s.grid[s.y];
    CellsGoneAgain(row, s.x, k);
    NoCellsOut(s);
  }
}
