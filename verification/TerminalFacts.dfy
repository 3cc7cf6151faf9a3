/**
 What byte streams do to the terminal of Terminal.dfy: control sequences say what they spell, editing functions undo
 each other, text lands where the cursor is and stays inside the scroll region.
 */
module TerminalFacts {
  import opened Machine
  import opened Terminal

  lemma {:induction false} RunConcat(s: Screen, a: seq<int>, b: seq<int>)
    requires ScreenOk(s)
    ensures Run(s, a + b) == Run(Run(s, a), b)
    decreases |a|
  {
    if a == [] {
      assert a + b == b;
    } else {
      assert (a + b)[1..] == a[1..] + b;
      RunConcat(Next(s, a[0]), a[1..], b);
    }
  }

  lemma RunThen(s: Screen, a: seq<int>, b: seq<int>, t: Screen)
    requires ScreenOk(s) && ScreenOk(t) && Run(s, a) == t
    ensures Run(s, a + b) == Run(t, b)
  {
    RunConcat(s, a, b);
  }

  lemma RunOne(s: Screen, c: int)
    requires ScreenOk(s)
    ensures Run(s, [c]) == Next(s, c)
  {
    assert [c][1..] == [];
  }

  // Writing control sequences

  function Decimal(n: nat): (d: seq<int>)
    ensures d != [] && forall i :: 0 <= i < |d| ==> IsDigit(d[i])
  {
    if n < 10 then ['0' as int + n] else Decimal(n / 10) + ['0' as int + n % 10]
  }

  /** The parameters in decimal, with semicolons between them. */
  function Spelled(ps: seq<nat>): seq<int> {
    if ps == [] then [] else if |ps| == 1 then Decimal(ps[0]) else Spelled(ps[..|ps| - 1]) + [';' as int] + Decimal(ps[|ps| - 1])
  }

  /** ESC [ parameters final */
  function Csi(ps: seq<nat>, final: int): seq<int> {
    [27, '[' as int] + (Spelled(ps) + [final])
  }

  /** The parameters as the interpreter keeps them: zeros where none is given. */
  function Padded(ps: seq<nat>): (r: seq<nat>)
    requires |ps| <= NPAR
    ensures |r| == NPAR && forall i :: 0 <= i < NPAR ==> r[i] == if i < |ps| then ps[i] else 0
  {
    seq(NPAR, i requires 0 <= i < NPAR => if i < |ps| then ps[i] else 0)
  }

  ghost predicate Words(ps: seq<nat>) {
    forall i :: 0 <= i < |ps| ==> ps[i] < WORD
  }

  lemma ModDigit(n: nat)
    ensures (10 * ((n / 10) % WORD) + n % 10) % WORD == n % WORD
  {
    var q, r := (n / 10) / WORD, (n / 10) % WORD;
    assert n == 10 * q * WORD + (10 * r + n % 10);
    ModShift(10 * r + n % 10, 10 * q);
  }

  lemma {:induction false} ModShift(a: nat, q: nat)
    ensures (q * WORD + a) % WORD == a % WORD
  {
    if q > 0 {
      ModShift(a, q - 1);
      assert q * WORD + a == (q - 1) * WORD + a + WORD;
    }
  }

  /** Digits are read as the number they spell, as a 32-bit word. */
  lemma {:induction false} ReadNumber(s: Screen, npar: nat, par: seq<nat>, n: nat)
    requires ScreenOk(s) && s.parser == Params(npar, par) && par[npar] == 0
    ensures Run(s, Decimal(n)) == s.(parser := Params(npar, par[npar := n % WORD]))
  {
    if n < 10 {
      RunOne(s, '0' as int + n);
    } else {
      ReadNumber(s, npar, par, n / 10);
      var t := Run(s, Decimal(n / 10));
      RunConcat(s, Decimal(n / 10), ['0' as int + n % 10]);
      RunOne(t, '0' as int + n % 10);
      ModDigit(n);
      assert par[npar := (n / 10) % WORD][npar := n % WORD] == par[npar := n % WORD];
    }
  }

  lemma ReadInto(s: Screen, npar: nat, par: seq<nat>, n: nat, after: seq<nat>)
    requires ScreenOk(s) && s.parser == Params(npar, par) && par[npar] == 0 && n < WORD
    requires after == par[npar := n]
    ensures Run(s, Decimal(n)) == s.(parser := Params(npar, after))
  {
    assert n % WORD == n;
    ReadNumber(s, npar, par, n);
    assert par[npar := n % WORD] == after;
  }

  lemma NextParameter(s: Screen, init: seq<nat>, p: nat)
    requires ScreenOk(s) && 0 < |init| < NPAR && Words(init) && p < WORD
    requires s.parser == Params(|init| - 1, Padded(init))
    ensures Run(s, [';' as int] + Decimal(p)) == s.(parser := Params(|init|, Padded(init + [p])))
  {
    var n := |init|;
    var t := s.(parser := Params(n, Padded(init)));
    PaddedMore(init, p);
    Separator(s, n - 1, Padded(init));
    ReadInto(t, n, Padded(init), p, Padded(init + [p]));
    RunThen(s, [';' as int], Decimal(p), t);
  }

  lemma Separator(s: Screen, npar: nat, par: seq<nat>)
    requires ScreenOk(s) && s.parser == Params(npar, par) && npar < NPAR - 1
    ensures Run(s, [';' as int]) == s.(parser := Params(npar + 1, par))
  {
    RunOne(s, ';' as int);
  }

  lemma PaddedMore(init: seq<nat>, p: nat)
    requires |init| < NPAR
    ensures Padded(init)[|init| := p] == Padded(init + [p]) && Padded(init)[|init|] == 0
  {
  }

  lemma SpelledMore(init: seq<nat>, last: nat)
    requires init != []
    ensures Spelled(init + [last]) == Spelled(init) + ([';' as int] + Decimal(last))
  {
    assert (init + [last])[..|init + [last]| - 1] == init;
  }

  lemma {:induction false} ReadParameters(s: Screen, ps: seq<nat>)
    requires ScreenOk(s) && s.parser == Params(0, Zeros()) && 0 < |ps| <= NPAR && Words(ps)
    ensures Run(s, Spelled(ps)) == s.(parser := Params(|ps| - 1, Padded(ps)))
  {
    if |ps| == 1 {
      ReadInto(s, 0, Zeros(), ps[0], Padded(ps));
    } else {
      var init, last := ps[..|ps| - 1], ps[|ps| - 1];
      var t := s.(parser := Params(|init| - 1, Padded(init)));
      ReadParameters(s, init);
      NextParameter(t, init, last);
      RunThen(s, Spelled(init), [';' as int] + Decimal(last), t);
      SpelledMore(init, last);
      assert init + [last] == ps;
    }
  }

  lemma {:induction false} SpelledStarts(ps: seq<nat>)
    requires ps != []
    ensures Spelled(ps) != [] && IsDigit(Spelled(ps)[0])
  {
    if |ps| > 1 { SpelledStarts(ps[..|ps| - 1]); }
  }

  /** A control sequence does what its final byte and its parameters say. */
  lemma CsiMeans(s: Screen, ps: seq<nat>, final: int)
    requires ScreenOk(s) && s.parser == Ground && 0 < |ps| <= NPAR && Words(ps)
    requires !IsDigit(final) && final != ';' as int
    ensures Run(s, Csi(ps, final)) == Dispatched(s, |ps| - 1, Padded(ps), final)
  {
    var body := Spelled(ps) + [final];
    var bracket := s.(parser := Bracket);
    RunConcat(s, [27, '[' as int], body);
    Opens(s);
    SpelledStarts(ps);
    var within := s.(parser := Params(0, Zeros()));
    assert Next(bracket, body[0]) == Next(within, body[0]);
    RunConcat(within, Spelled(ps), [final]);
    ReadParameters(within, ps);
    RunOne(within.(parser := Params(|ps| - 1, Padded(ps))), final);
    assert within.(parser := Ground) == s;
  }

  lemma Opens(s: Screen)
    requires ScreenOk(s) && s.parser == Ground
    ensures Run(s, [27, '[' as int]) == s.(parser := Bracket)
  {
    assert [27, '[' as int][1..] == ['[' as int];
    RunOne(s.(parser := Escape), '[' as int);
  }

  /** CUP: ESC [ line ; column H goes to that place, counted from 1, if there is one. */
  lemma CursorPosition(s: Screen, line: nat, column: nat)
    requires ScreenOk(s) && s.parser == Ground && 0 < line < WORD && 0 < column < WORD
    ensures Run(s, Csi([line, column], 'H' as int))
            == if line <= LINES && column <= COLS + 1 then s.(x := column - 1, y := line - 1) else s
  {
    CsiMeans(s, [line, column], 'H' as int);
  }

  lemma OneParameter(s: Screen, n: nat, final: int)
    requires ScreenOk(s) && s.parser == Ground && n < WORD && !IsDigit(final) && final != ';' as int
    ensures Padded([n])[0] == n && Run(s, Csi([n], final)) == Dispatched(s, 0, Padded([n]), final)
  {
    CsiMeans(s, [n], final);
  }

  lemma DispatchedDown(s: Screen, n: nat, par: seq<nat>)
    requires ScreenOk(s) && s.parser == Ground && 0 < n && s.y + n < LINES && |par| == NPAR && par[0] == n
    ensures Dispatched(s, 0, par, 'B' as int) == s.(y := s.y + n)
  {
    assert (s.y + n) % WORD == s.y + n;
  }

  lemma DispatchedUp(s: Screen, n: nat, par: seq<nat>)
    requires ScreenOk(s) && s.parser == Ground && 0 < n <= s.y && |par| == NPAR && par[0] == n
    ensures Dispatched(s, 0, par, 'A' as int) == s.(y := s.y - n)
  {
    assert (s.y - n) % WORD == s.y - n;
  }

  lemma Down(s: Screen, n: nat)
    requires ScreenOk(s) && s.parser == Ground && 0 < n && s.y + n < LINES
    ensures Run(s, Csi([n], 'B' as int)) == s.(y := s.y + n)
  {
    OneParameter(s, n, 'B' as int);
    DispatchedDown(s, n, Padded([n]));
  }

  lemma Up(s: Screen, n: nat)
    requires ScreenOk(s) && s.parser == Ground && 0 < n <= s.y
    ensures Run(s, Csi([n], 'A' as int)) == s.(y := s.y - n)
  {
    OneParameter(s, n, 'A' as int);
    DispatchedUp(s, n, Padded([n]));
  }

  /** A move down and the same move up cancel, unless the first one is not made. */
  lemma DownThenUp(s: Screen, n: nat)
    requires ScreenOk(s) && s.parser == Ground && 0 < n && s.y + n < LINES
    ensures Run(s, Csi([n], 'B' as int) + Csi([n], 'A' as int)) == s
  {
    var t := s.(y := s.y + n);
    Down(s, n);
    Up(t, n);
    RunThen(s, Csi([n], 'B' as int), Csi([n], 'A' as int), t);
  }

  lemma LinesBack(g: seq<Row>, y: nat, n: nat)
    requires |g| == LINES && y + n <= LINES
    ensures LinesGone(LinesCome(g, y, LINES, n), y, LINES, n) == g[..LINES - n] + BlankRows(n)
  {
    var m := LinesCome(g, y, LINES, n);
    var h := g[..LINES - n] + BlankRows(n);
    forall r: nat | r < LINES ensures LinesGone(m, y, LINES, n)[r] == h[r] {
      LinesGoneAt(m, y, LINES, n, r);
      if r + n < LINES { LinesComeAt(g, y, LINES, n, r + n); }
      LinesComeAt(g, y, LINES, n, r);
    }
  }

  lemma Il(s: Screen, n: nat)
    requires ScreenOk(s) && s.parser == Ground && 0 < n <= LINES - s.y
    ensures Run(s, Csi([n], 'L' as int)) == s.(grid := LinesCome(s.grid, s.y, LINES, n))
  {
    OneParameter(s, n, 'L' as int);
  }

  lemma Dl(s: Screen, n: nat)
    requires ScreenOk(s) && s.parser == Ground && 0 < n <= LINES - s.y
    ensures Run(s, Csi([n], 'M' as int)) == s.(grid := LinesGone(s.grid, s.y, LINES, n))
  {
    OneParameter(s, n, 'M' as int);
  }

  lemma Ich(s: Screen, n: nat)
    requires ScreenOk(s) && s.parser == Ground && 0 < n <= COLS - s.x
    ensures Run(s, Csi([n], '@' as int)) == WithRow(s, CellsCome(s.grid[s.y], s.x, n))
  {
    OneParameter(s, n, '@' as int);
  }

  lemma Dch(s: Screen, n: nat)
    requires ScreenOk(s) && s.parser == Ground && 0 < n <= COLS - s.x
    ensures Run(s, Csi([n], 'P' as int)) == WithRow(s, CellsGone(s.grid[s.y], s.x, n))
  {
    OneParameter(s, n, 'P' as int);
  }

  /** Inserting lines and deleting as many brings the old lines back, except those that went off the screen. */
  lemma InsertThenDelete(s: Screen, n: nat)
    requires ScreenOk(s) && s.parser == Ground && 0 < n <= LINES - s.y
    ensures Run(s, Csi([n], 'L' as int) + Csi([n], 'M' as int)) == s.(grid := s.grid[..LINES - n] + BlankRows(n))
  {
    Il(s, n);
    var t := Run(s, Csi([n], 'L' as int));
    Dl(t, n);
    LinesBack(s.grid, s.y, n);
    RunThen(s, Csi([n], 'L' as int), Csi([n], 'M' as int), t);
  }

  lemma CellsBack(q: Row, x: nat, n: nat)
    requires x + n <= |q|
    ensures CellsGone(CellsCome(q, x, n), x, n) == q[..|q| - n] + Blanks(n)
  {
    var m := CellsCome(q, x, n);
    var row := q[..|q| - n] + Blanks(n);
    forall i: nat | i < |q| ensures CellsGone(m, x, n)[i] == row[i] {
      CellsGoneAt(m, x, n, i);
      if i + n < |q| { CellsComeAt(q, x, n, i + n); }
      CellsComeAt(q, x, n, i);
    }
  }

  lemma InsertThenDeleteChars(s: Screen, n: nat)
    requires ScreenOk(s) && s.parser == Ground && 0 < n <= COLS - s.x
    ensures Run(s, Csi([n], '@' as int) + Csi([n], 'P' as int)) == WithRow(s, s.grid[s.y][..COLS - n] + Blanks(n))
  {
    var q := s.grid[s.y];
    Ich(s, n);
    var t := Run(s, Csi([n], '@' as int));
    Dch(t, n);
    CellsBack(q, s.x, n);
    RunThen(s, Csi([n], '@' as int), Csi([n], 'P' as int), t);
    assert s.grid[s.y := CellsCome(q, s.x, n)][s.y := q[..COLS - n] + Blanks(n)] == s.grid[s.y := q[..COLS - n] + Blanks(n)];
  }

  // Text

  ghost predicate Printable(text: seq<int>) {
    forall i :: 0 <= i < |text| ==> 31 < text[i] < 127
  }

  /** The cells of a text in the current attribute. */
  function CellsOf(attr: nat, text: seq<int>): (r: Row)
    requires Printable(text)
    ensures |r| == |text|
  {
    seq(|text|, i requires 0 <= i < |text| => attr * 256 + text[i])
  }

  /** Text that fits on the line overwrites it from the cursor on, and moves the cursor behind it. */
  lemma {:induction false} TextLands(s: Screen, text: seq<int>)
    requires ScreenOk(s) && s.parser == Ground && Printable(text) && s.x + |text| <= COLS
    ensures Run(s, text)
            == var q := s.grid[s.y];
               WithRow(s, q[..s.x] + CellsOf(s.attr, text) + q[s.x + |text|..]).(x := s.x + |text|)
    decreases |text|
  {
    var q := s.grid[s.y];
    if text == [] {
      assert q[..s.x] + CellsOf(s.attr, []) + q[s.x..] == q;
    } else {
      var t := Next(s, text[0]);
      TextLands(t, text[1..]);
      var q1 := q[s.x := s.attr * 256 + text[0]];
      assert t == WithRow(s, q1).(x := s.x + 1);
      assert q1[..s.x + 1] + CellsOf(s.attr, text[1..]) + q1[s.x + |text|..]
             == q[..s.x] + CellsOf(s.attr, text) + q[s.x + |text|..];
    }
  }

  /** The lines outside the scroll region are the same, and the cursor is in the region. */
  ghost predicate RegionKept(s: Screen, t: Screen)
    requires ScreenOk(s) && ScreenOk(t)
  {
    && t.parser == Ground && t.top == s.top && t.bottom == s.bottom && t.top <= t.y < t.bottom
    && forall r :: 0 <= r < LINES && !(s.top <= r < s.bottom) ==> t.grid[r] == s.grid[r]
  }

  /** A cursor in the scroll region stays there, and nothing outside of it changes, until an escape sequence. */
  lemma {:induction false} StaysInRegion(s: Screen, bytes: seq<int>)
    requires ScreenOk(s) && s.parser == Ground && s.top <= s.y < s.bottom && 27 !in bytes
    ensures RegionKept(s, Run(s, bytes))
    decreases |bytes|
  {
    if bytes != [] {
      PlainInRegion(s, bytes[0]);
      var t := Next(s, bytes[0]);
      StaysInRegion(t, bytes[1..]);
    }
  }

  lemma PlainInRegion(s: Screen, c: int)
    requires ScreenOk(s) && s.parser == Ground && s.top <= s.y < s.bottom && c != 27
    ensures RegionKept(s, Next(s, c))
  {
    FeedInRegion(s);
    FeedInRegion(s.(x := 0));
  }

  lemma FeedInRegion(s: Screen)
    requires ScreenOk(s) && s.parser == Ground && s.top <= s.y < s.bottom
    ensures RegionKept(s, LineFeed(s))
  {
    forall r: nat | r < LINES && !(s.top <= r < s.bottom) ensures LineFeed(s).grid[r] == s.grid[r] {
      LinesGoneAt(s.grid, s.top, s.bottom, 1, r);
    }
  }

  // Saving and restoring the cursor with ESC 7 and ESC 8: the interpreter looks at the column, not at the byte

  /** The bytes after ESC that the interpreter knows without looking at the column. */
  predicate Known(c: int) {
    c == '[' as int || c == 'E' as int || c == 'M' as int || c == 'D' as int
  }

  lemma AfterEsc(s: Screen, c: int)
    requires ScreenOk(s) && s.parser == Ground
    ensures Run(s, [27, c]) == Escaped(s, c)
  {
    var e := s.(parser := Escape);
    RunOne(s, 27);
    RunOne(e, c);
    RunThen(s, [27], [c], e);
    assert [27] + [c] == [27, c] && e.(parser := Ground) == s;
  }

  /** Any byte that is not known saves at column 55, restores at column 56, and does nothing elsewhere. */
  lemma ColumnDecides(s: Screen, c: int)
    requires ScreenOk(s) && s.parser == Ground && !Known(c)
    ensures Run(s, [27, c]) == if s.x == 55 then Save(s) else if s.x == 56 then GoTo(s, s.savedX, s.savedY) else s
  {
    AfterEsc(s, c);
  }

  /** ESC 7 saves the cursor exactly at column 55, or when the cursor is where it was saved last. */
  lemma Esc7Saves(s: Screen)
    requires ScreenOk(s) && s.parser == Ground
    ensures Run(s, [27, '7' as int]) == Save(s) <==> s.x == 55 || (s.savedX == s.x && s.savedY == s.y)
  {
    ColumnDecides(s, '7' as int);
  }

  /** ESC 8 restores the cursor exactly at column 56, or when the cursor is where it was saved last. */
  lemma Esc8Restores(s: Screen)
    requires ScreenOk(s) && s.parser == Ground
    ensures Run(s, [27, '8' as int]) == GoTo(s, s.savedX, s.savedY)
            <==> s.x == 56 || (s.savedX == s.x && s.savedY == s.y)
  {
    ColumnDecides(s, '8' as int);
  }

  /** The screen after con_init, on blank video memory, with the cursor at column x of the line y. */
  function BlankScreen(x: nat, y: nat): (s: Screen)
    requires x <= COLS && y < LINES
    ensures ScreenOk(s)
  {
    Screen(BlankRows(LINES), x, y, 0, LINES, 0, 0, 0x07, Ground)
  }

  /** At the start of the second line neither works; and at column 55 ESC 8 saves, at column 56 ESC 7 restores. */
  lemma EscapesFail()
    ensures Run(BlankScreen(0, 1), [27, '7' as int]) != Save(BlankScreen(0, 1))
    ensures var s := BlankScreen(0, 1); Run(s, [27, '8' as int]) != GoTo(s, s.savedX, s.savedY)
    ensures Run(BlankScreen(55, 1), [27, '8' as int]) == Save(BlankScreen(55, 1))
    ensures Run(BlankScreen(56, 1), [27, '7' as int]) == BlankScreen(0, 0)
  {
    Esc7Saves(BlankScreen(0, 1));
    Esc8Restores(BlankScreen(0, 1));
    ColumnDecides(BlankScreen(55, 1), '8' as int);
    ColumnDecides(BlankScreen(56, 1), '7' as int);
  }
}
