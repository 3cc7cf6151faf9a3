/**
 The terminal of Terminal.dfy from the outside: what every control character, escape sequence and control sequence does
 to the cells, the cursor and the modes, in numbers of lines, columns and cells (ECMA-48, section 8.3).
 */
module TerminalCells {
  import opened Machine
  import opened Terminal
  import opened TerminalFacts

  // Lines and cells that move

  /** A line of spaces in the normal attribute. */
  ghost predicate BlankRow(q: seq<nat>) {
    |q| == 80 && forall i :: 0 <= i < 80 ==> q[i] == 0x0720
  }

  ghost predicate RowMovedUp(g: seq<seq<nat>>, h: seq<seq<nat>>, top: nat, bottom: nat, n: nat, r: nat)
    requires |g| == |h| == 25 && bottom <= 25 && r < 25
  {
    if r < top || bottom <= r then h[r] == g[r] else if r + n < bottom then h[r] == g[r + n] else BlankRow(h[r])
  }

  /** The lines from top up to bottom have moved up by n, and blank lines follow; other lines are the same. */
  ghost predicate MovedUp(g: seq<seq<nat>>, h: seq<seq<nat>>, top: nat, bottom: nat, n: nat) {
    && |g| == |h| == 25 && top < bottom <= 25
    && forall r: nat :: r < 25 ==> RowMovedUp(g, h, top, bottom, n, r)
  }

  ghost predicate RowMovedDown(g: seq<seq<nat>>, h: seq<seq<nat>>, top: nat, bottom: nat, n: nat, r: nat)
    requires |g| == |h| == 25 && bottom <= 25 && r < 25
  {
    if r < top || bottom <= r then h[r] == g[r] else if top + n <= r then h[r] == g[r - n] else BlankRow(h[r])
  }

  /** The lines from top up to bottom have moved down by n, after blank lines; other lines are the same. */
  ghost predicate MovedDown(g: seq<seq<nat>>, h: seq<seq<nat>>, top: nat, bottom: nat, n: nat) {
    && |g| == |h| == 25 && top < bottom <= 25
    && forall r: nat :: r < 25 ==> RowMovedDown(g, h, top, bottom, n, r)
  }

  /** t is s but for its grid, and in that for its line y, which is q. */
  ghost predicate RowIs(s: Screen, t: Screen, q: seq<nat>) {
    && t == s.(grid := t.grid) && |s.grid| == |t.grid| == 25 && |q| == 80
    && forall r :: 0 <= r < 25 ==> t.grid[r] == if r == s.y then q else s.grid[r]
  }

  lemma GoneIsUp(g: seq<Row>, top: nat, bottom: nat, n: nat)
    requires GridOk(g) && top < bottom <= 25 && top + n <= bottom
    ensures MovedUp(g, LinesGone(g, top, bottom, n), top, bottom, n)
  {
    forall r: nat | r < 25 ensures RowMovedUp(g, LinesGone(g, top, bottom, n), top, bottom, n, r) {
      LinesGoneAt(g, top, bottom, n, r);
    }
  }

  lemma ComeIsDown(g: seq<Row>, top: nat, bottom: nat, n: nat)
    requires GridOk(g) && top < bottom <= 25 && top + n <= bottom
    ensures MovedDown(g, LinesCome(g, top, bottom, n), top, bottom, n)
  {
    forall r: nat | r < 25 ensures RowMovedDown(g, LinesCome(g, top, bottom, n), top, bottom, n, r) {
      LinesComeAt(g, top, bottom, n, r);
    }
  }

  // Control characters

  lemma OneByte(s: Screen, c: int)
    requires ScreenOk(s) && s.parser == Ground
    ensures Run(s, [c]) == Plain(s, c)
  {
    RunOne(s, c);
  }

  /** LF, VT, FF and ESC D: down one line, and in the last line of the scroll region its lines move up. */
  lemma FeedsLine(s: Screen, bytes: seq<int>)
    requires ScreenOk(s) && s.parser == Ground && (bytes == [10] || bytes == [11] || bytes == [12] || bytes == [27, 'D' as int])
    ensures var t := Run(s, bytes);
            if s.y + 1 < s.bottom then t == s.(y := s.y + 1)
            else t == s.(grid := t.grid) && MovedUp(s.grid, t.grid, s.top, s.bottom, 1)
  {
    if bytes == [27, 'D' as int] { AfterEsc(s, 'D' as int); } else { OneByte(s, bytes[0]); }
    GoneIsUp(s.grid, s.top, s.bottom, 1);
  }

  /** ESC M: up one line, and in the first line of the scroll region its lines move down. */
  lemma FeedsBack(s: Screen)
    requires ScreenOk(s) && s.parser == Ground
    ensures var t := Run(s, [27, 'M' as int]);
            if s.y > s.top then t == s.(y := s.y - 1)
            else t == s.(grid := t.grid) && MovedDown(s.grid, t.grid, s.top, s.bottom, 1)
  {
    AfterEsc(s, 'M' as int);
    ComeIsDown(s.grid, s.top, s.bottom, 1);
  }

  /** ESC E: to the start of the next line, if the screen has one. */
  lemma NextLine(s: Screen)
    requires ScreenOk(s) && s.parser == Ground
    ensures Run(s, [27, 'E' as int]) == if s.y < 24 then s.(x := 0, y := s.y + 1) else s
  {
    AfterEsc(s, 'E' as int);
  }

  lemma ThreeBytes(s: Screen, c: int)
    requires ScreenOk(s) && s.parser == Ground
    ensures Run(s, [13, 10, c]) == Run(Run(s.(x := 0), [10]), [c])
  {
    var a := s.(x := 0);
    OneByte(s, 13);
    RunThen(s, [13], [10, c], a);
    assert [13] + [10, c] == [13, 10, c];
    RunConcat(a, [10], [c]);
    assert [10] + [c] == [10, c];
  }

  lemma PrintsRow(s: Screen, c: int, q: Row)
    requires ScreenOk(s) && 32 <= c <= 126 && s.x < 80 && q == s.grid[s.y][s.x := 256 * s.attr + c]
    ensures Plain(s, c) == WithRow(s, q).(x := s.x + 1) && RowIs(s, WithRow(s, q), q)
  {
  }

  /** A printable byte puts its cell under the cursor. */
  lemma Prints(s: Screen, c: int)
    requires ScreenOk(s) && s.parser == Ground && 32 <= c <= 126 && s.x < 80
    ensures var t := Run(s, [c]);
            t.x == s.x + 1 && RowIs(s, t.(x := s.x), s.grid[s.y][s.x := 256 * s.attr + c])
  {
    OneByte(s, c);
    PrintsRow(s, c, s.grid[s.y][s.x := 256 * s.attr + c]);
  }

  lemma PrintsAfterWrap(s: Screen, c: int)
    requires ScreenOk(s) && 32 <= c <= 126 && s.x == 80
    ensures Plain(s, c) == Plain(Plain(s.(x := 0), 10), c)
  {
  }

  /** Behind the last column, it does what it does after CR and LF. */
  lemma Wraps(s: Screen, c: int)
    requires ScreenOk(s) && s.parser == Ground && 32 <= c <= 126 && s.x == 80
    ensures Run(s, [c]) == Run(s, [13, 10, c])
  {
    var a := s.(x := 0);
    OneByte(s, c);
    OneByte(a, 10);
    ThreeBytes(s, c);
    OneByte(Run(a, [10]), c);
    PrintsAfterWrap(s, c);
  }

  /** CR and BS move the cursor; DEL blanks the cell before it as well; BEL and all other bytes do nothing. */
  lemma MovesOrNothing(s: Screen, c: int)
    requires ScreenOk(s) && s.parser == Ground && !(32 <= c <= 126) && !(9 <= c <= 12) && c != 27
    ensures var t := Run(s, [c]);
            if c == 13 then t == s.(x := 0)
            else if (c == 8 || c == 127) && s.x > 0 then
              if c == 8 then t == s.(x := s.x - 1)
              else t.x == s.x - 1 && RowIs(s, t.(x := s.x), s.grid[s.y][s.x - 1 := 0x0720])
            else t == s
  {
    OneByte(s, c);
  }

  lemma NextStop(x: nat, stop: nat)
    requires stop == (x / 8 + 1) * 8
    ensures x < stop <= x + 8 && stop % 8 == 0 && (x < 80 ==> stop <= 80) && (x == 80 ==> stop == 88)
  {
  }

  /** HT goes to the next multiple of eight. */
  lemma Tabs(s: Screen)
    requires ScreenOk(s) && s.parser == Ground && s.x < 80
    ensures var t := Run(s, [9]); s.x < t.x <= s.x + 8 && t.x % 8 == 0 && t == s.(x := t.x)
  {
    OneByte(s, 9);
    NextStop(s.x, (s.x / 8 + 1) * 8);
  }

  /** Behind the last column, it does what LF does at column 8. */
  lemma TabWraps(s: Screen)
    requires ScreenOk(s) && s.parser == Ground && s.x == 80
    ensures Run(s, [9]) == Run(s.(x := 8), [10])
  {
    OneByte(s, 9);
    OneByte(s.(x := 8), 10);
    NextStop(s.x, (s.x / 8 + 1) * 8);
  }

  // Cursor movements

  /** The place if it exists: 25 lines, 80 columns and one behind the last. */
  function Placed(s: Screen, x: int, y: int): Screen {
    if 0 <= x <= 80 && 0 <= y < 25 then s.(x := x, y := y) else s
  }

  /** A sum or a difference of two 32-bit words, as one. */
  function Wrapped(v: int): int {
    if v < 0 then v + 0x1_0000_0000 else if v < 0x1_0000_0000 then v else v - 0x1_0000_0000
  }

  lemma WrappedIs(v: int)
    requires -0x1_0000_0000 <= v < 2 * 0x1_0000_0000
    ensures v % 0x1_0000_0000 == Wrapped(v)
  {
  }

  // The final bytes of these, with the places as 32-bit words

  lemma FinalUp(s: Screen, n: nat, par: seq<nat>, final: int, y: int)
    requires ScreenOk(s) && |par| == NPAR && par[0] == n && (final == 'A' as int || final == 'F' as int)
    requires y == (s.y - if n == 0 then 1 else n) % 0x1_0000_0000
    ensures Dispatched(s, 0, par, final) == Placed(s, if final == 'A' as int then s.x else 0, y)
  {
  }

  lemma FinalDown(s: Screen, n: nat, par: seq<nat>, final: int, y: int)
    requires ScreenOk(s) && |par| == NPAR && par[0] == n && (final == 'B' as int || final == 'e' as int || final == 'E' as int)
    requires y == (s.y + if n == 0 then 1 else n) % 0x1_0000_0000
    ensures Dispatched(s, 0, par, final) == Placed(s, if final == 'E' as int then 0 else s.x, y)
  {
  }

  lemma FinalRight(s: Screen, n: nat, par: seq<nat>, final: int, x: int)
    requires ScreenOk(s) && |par| == NPAR && par[0] == n && (final == 'C' as int || final == 'a' as int)
    requires x == (s.x + if n == 0 then 1 else n) % 0x1_0000_0000
    ensures Dispatched(s, 0, par, final) == Placed(s, x, s.y)
  {
  }

  lemma FinalLeft(s: Screen, n: nat, par: seq<nat>, x: int)
    requires ScreenOk(s) && |par| == NPAR && par[0] == n && x == (s.x - if n == 0 then 1 else n) % 0x1_0000_0000
    ensures Dispatched(s, 0, par, 'D' as int) == Placed(s, x, s.y)
  {
  }

  /** CUU: up n lines, 1 if n is 0. */
  lemma MovesUp(s: Screen, n: nat)
    requires ScreenOk(s) && s.parser == Ground && n < 0x1_0000_0000
    ensures Run(s, Csi([n], 'A' as int)) == Placed(s, s.x, Wrapped(s.y - if n == 0 then 1 else n))
  {
    var v := s.y - if n == 0 then 1 else n;
    OneParameter(s, n, 'A' as int);
    WrappedIs(v);
    FinalUp(s, n, Padded([n]), 'A' as int, Wrapped(v));
  }

  /** CUD, VPR: down n lines. */
  lemma MovesDown(s: Screen, n: nat, final: int)
    requires ScreenOk(s) && s.parser == Ground && n < 0x1_0000_0000 && (final == 'B' as int || final == 'e' as int)
    ensures Run(s, Csi([n], final)) == Placed(s, s.x, Wrapped(s.y + if n == 0 then 1 else n))
  {
    var v := s.y + if n == 0 then 1 else n;
    OneParameter(s, n, final);
    WrappedIs(v);
    FinalDown(s, n, Padded([n]), final, Wrapped(v));
  }

  /** CUF, HPR: right n columns. */
  lemma MovesRight(s: Screen, n: nat, final: int)
    requires ScreenOk(s) && s.parser == Ground && n < 0x1_0000_0000 && (final == 'C' as int || final == 'a' as int)
    ensures Run(s, Csi([n], final)) == Placed(s, Wrapped(s.x + if n == 0 then 1 else n), s.y)
  {
    var v := s.x + if n == 0 then 1 else n;
    OneParameter(s, n, final);
    WrappedIs(v);
    FinalRight(s, n, Padded([n]), final, Wrapped(v));
  }

  /** CUB: left n columns. */
  lemma MovesLeft(s: Screen, n: nat)
    requires ScreenOk(s) && s.parser == Ground && n < 0x1_0000_0000
    ensures Run(s, Csi([n], 'D' as int)) == Placed(s, Wrapped(s.x - if n == 0 then 1 else n), s.y)
  {
    var v := s.x - if n == 0 then 1 else n;
    OneParameter(s, n, 'D' as int);
    WrappedIs(v);
    FinalLeft(s, n, Padded([n]), Wrapped(v));
  }

  /** CNL: down n lines, to the first column. */
  lemma MovesDownToStart(s: Screen, n: nat)
    requires ScreenOk(s) && s.parser == Ground && n < 0x1_0000_0000
    ensures Run(s, Csi([n], 'E' as int)) == Placed(s, 0, Wrapped(s.y + if n == 0 then 1 else n))
  {
    var v := s.y + if n == 0 then 1 else n;
    OneParameter(s, n, 'E' as int);
    WrappedIs(v);
    FinalDown(s, n, Padded([n]), 'E' as int, Wrapped(v));
  }

  /** CPL: up n lines, to the first column. */
  lemma MovesUpToStart(s: Screen, n: nat)
    requires ScreenOk(s) && s.parser == Ground && n < 0x1_0000_0000
    ensures Run(s, Csi([n], 'F' as int)) == Placed(s, 0, Wrapped(s.y - if n == 0 then 1 else n))
  {
    var v := s.y - if n == 0 then 1 else n;
    OneParameter(s, n, 'F' as int);
    WrappedIs(v);
    FinalUp(s, n, Padded([n]), 'F' as int, Wrapped(v));
  }

  /** CHA, HPA: to column n, counted from 1, where 0 stands for 1. */
  lemma GoesToColumn(s: Screen, n: nat, final: int)
    requires ScreenOk(s) && s.parser == Ground && n < 0x1_0000_0000 && (final == 'G' as int || final == '`' as int)
    ensures Run(s, Csi([n], final)) == Placed(s, if n == 0 then 0 else n - 1, s.y)
  {
    OneParameter(s, n, final);
  }

  /** VPA: to line n, counted from 1. */
  lemma GoesToLine(s: Screen, n: nat)
    requires ScreenOk(s) && s.parser == Ground && n < 0x1_0000_0000
    ensures Run(s, Csi([n], 'd' as int)) == Placed(s, s.x, if n == 0 then 0 else n - 1)
  {
    OneParameter(s, n, 'd' as int);
  }

  /** CUP, HVP: to line n and column k, counted from 1. */
  lemma GoesToPlace(s: Screen, n: nat, k: nat, final: int)
    requires ScreenOk(s) && s.parser == Ground && n < 0x1_0000_0000 && k < 0x1_0000_0000 && (final == 'H' as int || final == 'f' as int)
    ensures Run(s, Csi([n, k], final)) == Placed(s, if k == 0 then 0 else k - 1, if n == 0 then 0 else n - 1)
  {
    CsiMeans(s, [n, k], final);
  }

  /** CSI s saves the cursor. */
  lemma SavesCursor(s: Screen, n: nat)
    requires ScreenOk(s) && s.parser == Ground && n < 0x1_0000_0000
    ensures Run(s, Csi([n], 's' as int)) == s.(savedX := s.x, savedY := s.y)
  {
    OneParameter(s, n, 's' as int);
  }

  /** CSI u goes back to the saved place. */
  lemma RestoresCursor(s: Screen, n: nat)
    requires ScreenOk(s) && s.parser == Ground && n < 0x1_0000_0000
    ensures Run(s, Csi([n], 'u' as int)) == s.(x := s.savedX, y := s.savedY)
  {
    OneParameter(s, n, 'u' as int);
  }

  // Erasing and editing

  /** Which cells ED erases: from the cursor on, before the cursor, or all. */
  predicate ErasedInDisplay(s: Screen, how: nat, r: int, i: int) {
    if how == 0 then r > s.y || (r == s.y && i >= s.x) else if how == 1 then r < s.y || (r == s.y && i < s.x) else how == 2
  }

  /** Which cells EL erases. */
  predicate ErasedInLine(s: Screen, how: nat, r: int, i: int) {
    r == s.y && if how == 0 then i >= s.x else if how == 1 then i < s.x else how == 2
  }

  /** ED: exactly these cells become blank. */
  lemma ErasesDisplay(s: Screen, how: nat)
    requires ScreenOk(s) && s.parser == Ground && how < 0x1_0000_0000
    ensures var t := Run(s, Csi([how], 'J' as int));
            t == s.(grid := t.grid) && ScreenOk(t)
            && forall r, i :: 0 <= r < 25 && 0 <= i < 80 ==> t.grid[r][i] == if ErasedInDisplay(s, how, r, i) then 0x0720 else s.grid[r][i]
  {
    OneParameter(s, how, 'J' as int);
  }

  /** EL: exactly these cells become blank. */
  lemma ErasesLine(s: Screen, how: nat)
    requires ScreenOk(s) && s.parser == Ground && how < 0x1_0000_0000
    ensures var t := Run(s, Csi([how], 'K' as int));
            t == s.(grid := t.grid) && ScreenOk(t)
            && forall r, i :: 0 <= r < 25 && 0 <= i < 80 ==> t.grid[r][i] == if ErasedInLine(s, how, r, i) then 0x0720 else s.grid[r][i]
  {
    OneParameter(s, how, 'K' as int);
  }

  /** n, 1 if n is 0, and no more than there is room for. */
  function Fitting(n: nat, room: nat): nat {
    if n == 0 then (if room == 0 then 0 else 1) else if n < room then n else room
  }

  /** IL: the lines from the cursor's on move down, whatever the scroll region is. */
  lemma InsertsLines(s: Screen, n: nat)
    requires ScreenOk(s) && s.parser == Ground && n < 0x1_0000_0000
    ensures var t := Run(s, Csi([n], 'L' as int));
            t == s.(grid := t.grid) && MovedDown(s.grid, t.grid, s.y, 25, Fitting(n, 25 - s.y))
  {
    OneParameter(s, n, 'L' as int);
    ComeIsDown(s.grid, s.y, 25, Fitting(n, 25 - s.y));
  }

  /** DL: the lines below move up. */
  lemma DeletesLines(s: Screen, n: nat)
    requires ScreenOk(s) && s.parser == Ground && n < 0x1_0000_0000
    ensures var t := Run(s, Csi([n], 'M' as int));
            t == s.(grid := t.grid) && MovedUp(s.grid, t.grid, s.y, 25, Fitting(n, 25 - s.y))
  {
    OneParameter(s, n, 'M' as int);
    GoneIsUp(s.grid, s.y, 25, Fitting(n, 25 - s.y));
  }

  /** The cells from column x on have moved right by n, after blank ones. */
  ghost predicate MovedRight(q: seq<nat>, p: seq<nat>, x: nat, n: nat) {
    && |q| == |p| == 80
    && forall i :: 0 <= i < 80 ==> p[i] == if i < x then q[i] else if i < x + n then 0x0720 else q[i - n]
  }

  /** The cells from column x on have moved left by n, and blank ones follow. */
  ghost predicate MovedLeft(q: seq<nat>, p: seq<nat>, x: nat, n: nat) {
    && |q| == |p| == 80
    && forall i :: 0 <= i < 80 ==> p[i] == if i < x then q[i] else if i + n < 80 then q[i + n] else 0x0720
  }

  /** ICH: the cells from the cursor's on move right. */
  lemma InsertsCells(s: Screen, n: nat)
    requires ScreenOk(s) && s.parser == Ground && n < 0x1_0000_0000
    ensures var t := Run(s, Csi([n], '@' as int));
            ScreenOk(t) && RowIs(s, t, t.grid[s.y]) && MovedRight(s.grid[s.y], t.grid[s.y], s.x, Fitting(n, 80 - s.x))
  {
    OneParameter(s, n, '@' as int);
    var q, k := s.grid[s.y], Fitting(n, 80 - s.x);
    forall i: nat | i < 80 ensures CellsCome(q, s.x, k)[i] == if i < s.x then q[i] else if i < s.x + k then 0x0720 else q[i - k] {
      CellsComeAt(q, s.x, k, i);
    }
  }

  /** DCH: the cells behind move left. */
  lemma DeletesCells(s: Screen, n: nat)
    requires ScreenOk(s) && s.parser == Ground && n < 0x1_0000_0000
    ensures var t := Run(s, Csi([n], 'P' as int));
            ScreenOk(t) && RowIs(s, t, t.grid[s.y]) && MovedLeft(s.grid[s.y], t.grid[s.y], s.x, Fitting(n, 80 - s.x))
  {
    OneParameter(s, n, 'P' as int);
    var q, k := s.grid[s.y], Fitting(n, 80 - s.x);
    forall i: nat | i < 80 ensures CellsGone(q, s.x, k)[i] == if i < s.x then q[i] else if i + k < 80 then q[i + k] else 0x0720 {
      CellsGoneAt(q, s.x, k, i);
    }
  }

  // Modes

  /** SGR with one parameter: 0 and 27 normal, 1 and 4 bright, 7 reverse; any other changes nothing. */
  lemma SetsAttribute(s: Screen, n: nat)
    requires ScreenOk(s) && s.parser == Ground && n < 0x1_0000_0000
    ensures Run(s, Csi([n], 'm' as int))
            == s.(attr := if n == 0 || n == 27 then 0x07 else if n == 1 || n == 4 then 0x0f else if n == 7 then 0x70 else s.attr)
  {
    OneParameter(s, n, 'm' as int);
    assert Attr(s.attr, Padded([n]), 0) == s.attr;
  }

  lemma {:induction false} AttrPrefix(attr: nat, par: seq<nat>, par': seq<nat>, n: nat)
    requires n <= |par| && n <= |par'| && forall i :: 0 <= i < n ==> par[i] == par'[i]
    ensures Attr(attr, par, n) == Attr(attr, par', n)
  {
    if n > 0 { AttrPrefix(attr, par, par', n - 1); }
  }

  /** SGR with several parameters is one with each of them, in their order. */
  lemma SetsInOrder(s: Screen, init: seq<nat>, last: nat)
    requires ScreenOk(s) && s.parser == Ground && 0 < |init| < 16 && Words(init) && last < 0x1_0000_0000
    ensures Run(s, Csi(init + [last], 'm' as int)) == Run(s, Csi(init, 'm' as int) + Csi([last], 'm' as int))
  {
    var t := Run(s, Csi(init, 'm' as int));
    CsiMeans(s, init, 'm' as int);
    CsiMeans(s, init + [last], 'm' as int);
    OneParameter(t, last, 'm' as int);
    RunThen(s, Csi(init, 'm' as int), Csi([last], 'm' as int), t);
    AttrPrefix(s.attr, Padded(init), Padded(init + [last]), |init|);
    assert Attr(t.attr, Padded([last]), 0) == t.attr;
  }

  /** DECSTBM: the scroll region is the lines n to k, counted from 1; 0 stands for the first and the last line. */
  lemma SetsRegion(s: Screen, n: nat, k: nat)
    requires ScreenOk(s) && s.parser == Ground && n < 0x1_0000_0000 && k < 0x1_0000_0000
    ensures var a, b := if n == 0 then 1 else n, if k == 0 then 25 else k;
            Run(s, Csi([n, k], 'r' as int)) == if a <= b <= 25 then s.(top := a - 1, bottom := b) else s
  {
    CsiMeans(s, [n, k], 'r' as int);
  }

  // Sequences that are spelled in other ways

  /** A sequence without parameters is one with the parameter 0. */
  lemma WithoutParameters(s: Screen, final: int)
    requires ScreenOk(s) && s.parser == Ground && !IsDigit(final) && final != ';' as int && final != '?' as int
    ensures Run(s, [27, '[' as int, final]) == Run(s, Csi([0], final))
  {
    OneParameter(s, 0, final);
    Opens(s);
    var b := s.(parser := Bracket);
    RunOne(b, final);
    RunThen(s, [27, '[' as int], [final], b);
    assert [27, '[' as int] + [final] == [27, '[' as int, final];
    assert Padded([0]) == Zeros() && b.(parser := Ground) == s;
  }

  /** The parameter 0 may be left out, at any place. */
  lemma ZeroLeftOut(s: Screen, c: int)
    requires ScreenOk(s) && !IsDigit(c) && c != '?' as int
    requires s.parser == Bracket || (s.parser.Params? && s.parser.par[s.parser.npar] == 0)
    ensures Run(s, ['0' as int, c]) == Run(s, [c])
  {
    var within := if s.parser == Bracket then s.(parser := Params(0, Zeros())) else s;
    RunOne(s, '0' as int);
    var par := within.parser.par;
    assert par[within.parser.npar := 0] == par;
    RunThen(s, ['0' as int], [c], within);
    assert ['0' as int] + [c] == ['0' as int, c];
    RunOne(s, c);
    RunOne(within, c);
  }

  /** A seventeenth parameter ends the sequence, and nothing is done. */
  lemma TooManyParameters(s: Screen, ps: seq<nat>)
    requires ScreenOk(s) && s.parser == Ground && |ps| == 16 && Words(ps)
    ensures Run(s, [27, '[' as int] + (Spelled(ps) + [';' as int])) == s
  {
    var b, body := s.(parser := Bracket), Spelled(ps) + [';' as int];
    var within, last := s.(parser := Params(0, Zeros())), s.(parser := Params(15, Padded(ps)));
    Opens(s);
    RunThen(s, [27, '[' as int], body, b);
    SpelledStarts(ps);
    assert Next(b, body[0]) == Next(within, body[0]);
    ReadParameters(within, ps);
    RunThen(within, Spelled(ps), [';' as int], last);
    RunOne(last, ';' as int);
    assert last.(parser := Ground) == s;
  }

  /** A question mark before the parameters makes no difference. */
  lemma QuestionMark(s: Screen, ps: seq<nat>, final: int)
    requires ScreenOk(s) && s.parser == Ground && 0 < |ps| <= 16 && Words(ps) && !IsDigit(final) && final != ';' as int
    ensures Run(s, [27, '[' as int, '?' as int] + (Spelled(ps) + [final])) == Run(s, Csi(ps, final))
  {
    var b, body := s.(parser := Bracket), Spelled(ps) + [final];
    var within := s.(parser := Params(0, Zeros()));
    Opens(s);
    RunOne(b, '?' as int);
    RunThen(s, [27, '[' as int], ['?' as int], b);
    assert [27, '[' as int] + ['?' as int] == [27, '[' as int, '?' as int];
    RunThen(s, [27, '[' as int, '?' as int], body, within);
    SpelledStarts(ps);
    assert Next(b, body[0]) == Next(within, body[0]);
    RunThen(s, [27, '[' as int], body, b);
  }

  /** A final byte that means nothing does nothing. */
  lemma UnknownFinal(s: Screen, ps: seq<nat>, final: int)
    requires ScreenOk(s) && s.parser == Ground && 0 < |ps| <= 16 && Words(ps) && !IsDigit(final) && final != ';' as int
    requires !('A' as int <= final <= 'H' as int) && !('J' as int <= final <= 'M' as int)
    requires !('`' as int <= final <= 'a' as int) && !('d' as int <= final <= 'f' as int)
    requires final != '@' as int && final != 'P' as int && final != 'm' as int
    requires final != 'r' as int && final != 's' as int && final != 'u' as int
    ensures Run(s, Csi(ps, final)) == s
  {
    CsiMeans(s, ps, final);
  }
}
