/**
 The kernel's own display of lib/libc/display.c.  The screen is a window on the log of all cells ever written: its
 last 25 lines or less, in whole lines.
 */
module Display {
  import opened Machine

  const CELLS: nat := 2000
  const COLOR: nat := 0x0700
  const BLANK: nat := 0x0720
  const MIN_INT: int := -0x8000_0000

  /** (u16)(text_color|ch): the low half of ch, with the three bits of the color set. */
  function CellOf(ch: int): (cell: nat)
    ensures 0 <= ch < 256 ==> cell == COLOR + ch
    ensures -128 <= ch < 0 ==> cell == 0x1_0000 + ch
    ensures cell < 0x1_0000
  {
    var low := ch % 0x1_0000;
    low / 0x800 * 0x800 + COLOR + low % 0x100
  }

  function Spaces(n: nat): (r: seq<nat>)
    ensures |r| == n && forall i :: 0 <= i < n ==> r[i] == BLANK
  {
    seq(n, _ => BLANK)
  }

  /** What put_char adds to a log of n cells. */
  function Ink(n: nat, ch: int): seq<nat>
  {
    if ch == 13 || ch == 10 then Spaces(COLS - n % COLS)
    else if ch == 9 then (if n % COLS + 8 < COLS then Spaces(8) else [])
    else [CellOf(ch)]
  }

  /** The lines that have gone off the screen after n cells. */
  function Scrolled(n: nat): (k: nat)
    ensures n <= CELLS ==> k == 0
    ensures n > CELLS ==> CELLS - COLS < n - COLS * k <= CELLS
  {
    if n <= CELLS then 0 else (n - CELLS + COLS - 1) / COLS
  }

  /** Blank cells, and nothing else, up to a log of m cells. */
  ghost predicate BlankTo(log: seq<nat>, m: nat, log': seq<nat>) {
    && |log'| == m && log <= log' && forall i :: |log| <= i < m ==> log'[i] == 0x0720
  }

  /** A character puts its cell, a newline blanks the rest of the line, a tab blanks eight cells or none. */
  lemma InkShows(log: seq<nat>, ch: int)
    ensures 0 <= ch < 256 && ch != 9 && ch != 10 && ch != 13 ==> log + Ink(|log|, ch) == log + [0x0700 + ch]
    ensures ch == 10 || ch == 13 ==> BlankTo(log, (|log| / 80 + 1) * 80, log + Ink(|log|, ch))
    ensures ch == 9 ==> BlankTo(log, if |log| % 80 < 72 then |log| + 8 else |log|, log + Ink(|log|, ch))
  {
  }

  /** A newline always ends on a line's end. */
  lemma NewlineFillsLine(n: nat, ch: int)
    requires ch == 13 || ch == 10
    ensures (n + |Ink(n, ch)|) % COLS == 0 && 0 < |Ink(n, ch)| <= COLS
  {
    var r := n % COLS;
    assert n + (COLS - r) == COLS * (n / COLS + 1);
  }

  /** The log after a text. */
  function Log(log: seq<nat>, text: seq<int>): seq<nat>
  {
    if text == [] then log else
    var n := |text| - 1;
    Log(log, text[..n]) + Ink(|Log(log, text[..n])|, text[n])
  }

  lemma LogLast(log: seq<nat>, text: seq<int>, init: seq<int>, ch: int)
    requires text == init + [ch]
    ensures Log(log, text) == Log(log, init) + Ink(|Log(log, init)|, ch)
  {
    assert text[..|text| - 1] == init;
  }

  lemma LogNext(log: seq<nat>, text: seq<int>, n: nat)
    requires n < |text|
    ensures Log(log, text[..n + 1]) == Log(log, text[..n]) + Ink(|Log(log, text[..n])|, text[n])
  {
    LogLast(log, text[..n + 1], text[..n], text[n]);
  }

  lemma {:induction false} LogConcat(log: seq<nat>, a: seq<int>, b: seq<int>)
    ensures Log(log, a + b) == Log(Log(log, a), b)
    decreases |b|
  {
    if b == [] {
      assert a + b == a;
    } else {
      var n := |b| - 1;
      LogConcat(log, a, b[..n]);
      assert b == b[..n] + [b[n]] && a + b == a + b[..n] + [b[n]];
      LogLast(log, a + b, a + b[..n], b[n]);
      LogLast(Log(log, a), b, b[..n], b[n]);
    }
  }

  /** Characters whose cells are the characters in the normal color. */
  predicate Printing(text: seq<int>) {
    forall i :: 0 <= i < |text| ==> 32 <= text[i] < 256
  }

  /** The characters that cells show. */
  function Shown(cells: seq<int>): (text: seq<int>)
    ensures |text| == |cells| && forall i :: 0 <= i < |text| ==> text[i] == cells[i] - 0x0700
  {
    seq(|cells|, i requires 0 <= i < |cells| => cells[i] - 0x0700)
  }

  /** Such characters are shown one by one, in their order. */
  lemma {:induction false} TextIsShown(log: seq<nat>, text: seq<int>)
    requires Printing(text)
    ensures |Log(log, text)| == |log| + |text| && log <= Log(log, text) && Shown(Log(log, text)[|log|..]) == text
  {
    if text != [] {
      var n := |text| - 1;
      var was, now := Log(log, text[..n]), Log(log, text);
      TextIsShown(log, text[..n]);
      InkShows(was, text[n]);
      assert now == was + [0x0700 + text[n]];
      forall i | 0 <= i < |text| ensures Shown(now[|log|..])[i] == text[i] {
        if i < n { assert Shown(was[|log|..])[i] == text[..n][i]; }
      }
    }
  }

  class Screen {
    const screen: array<nat>
    var curPos: nat
    ghost var log: seq<nat>

    /** screen[0..curPos) is the log from line Scrolled on; below it, once scrolled, all is blank. */
    ghost predicate Valid()
      reads this, screen
    {
      && screen.Length == CELLS && curPos == |log| - COLS * Scrolled(|log|) <= CELLS
      && (forall i {:trigger screen[i]} :: 0 <= i < curPos ==> screen[i] == log[COLS * Scrolled(|log|) + i])
      && (|log| > CELLS ==> forall i :: curPos <= i < CELLS ==> screen[i] == BLANK)
    }

    constructor (screen: array<nat>)
      requires screen.Length == CELLS
      ensures Valid() && log == [] && this.screen == screen
    {
      this.screen := screen;
      curPos := 0;
      log := [];
    }

    /** scroll_down */
    method ScrollDown()
      requires screen.Length == CELLS && curPos == CELLS
      modifies this`curPos, screen
      ensures curPos == CELLS - COLS
      ensures forall i :: 0 <= i < CELLS ==> screen[i] == if i < curPos then old(screen[i + COLS]) else BLANK
    {
      var i := COLS;
      while i < CELLS
        invariant COLS <= i <= CELLS && curPos == CELLS
        invariant forall k :: 0 <= k < CELLS ==> screen[k] == if k < i - COLS then old(screen[k + COLS]) else old(screen[k])
      {
        screen[i - COLS] := screen[i];
        i := i + 1;
      }
      i := 0;
      while i < COLS
        invariant 0 <= i <= COLS && curPos == CELLS
        invariant forall k :: 0 <= k < CELLS ==>
                                screen[k] == if k < CELLS - COLS then old(screen[k + COLS])
                                             else if k < CELLS - COLS + i then BLANK else old(screen[k])
      {
        screen[i + CELLS - COLS] := BLANK;
        i := i + 1;
      }
      curPos := curPos - COLS;
    }

    /** The default case of put_char. */
    method PutCell(ch: int)
      requires Valid()
      modifies this, screen
      ensures Valid() && log == old(log) + [CellOf(ch)]
    {
      if curPos / COLS >= 25 {
        ScrollDown();
      }
      screen[curPos] := CellOf(ch);
      curPos := curPos + 1;
      log := log + [CellOf(ch)];
    }

    /** put_char(' '), n times */
    method PutSpaces(n: nat)
      requires Valid()
      modifies this, screen
      ensures Valid() && log == old(log) + Spaces(n)
    {
      var i := 0;
      while i < n
        invariant i <= n && Valid() && log == old(log) + Spaces(i)
      {
        PutCell(32);
        assert Spaces(i) + [BLANK] == Spaces(i + 1);
        i := i + 1;
      }
    }

    /** put_char */
    method PutChar(ch: int)
      requires Valid()
      modifies this, screen
      ensures Valid() && log == old(log) + Ink(|old(log)|, ch)
      ensures 0 <= ch < 256 && ch != 9 && ch != 10 && ch != 13 ==> log == old(log) + [0x0700 + ch]
      ensures ch == 10 || ch == 13 ==> BlankTo(old(log), (|old(log)| / 80 + 1) * 80, log)
      ensures ch == 9 ==> BlankTo(old(log), if |old(log)| % 80 < 72 then |old(log)| + 8 else |old(log)|, log)
    {
      InkShows(log, ch);
      SameColumn(|log|);
      if ch == 13 || ch == 10 {
        PutSpaces(COLS - curPos % COLS);
      } else if ch == 9 {
        if curPos / COLS == (curPos + 8) / COLS {
          PutSpaces(8);
        }
      } else {
        PutCell(ch);
      }
    }

    /** The buffer of put_int, lowest digit first. */
    method FillDigits(m: int) returns (buf: array<int>)
      ensures fresh(buf) && buf.Length == 10 && forall k: nat :: k < 10 ==> buf[k] == Digit(m, k)
    {
      buf := new int[10];
      var i := 0;
      var n := m;
      while i < 10
        invariant i <= 10 && n == Shifted(m, i)
        invariant forall k: nat :: k < i ==> buf[k] == Digit(m, k)
      {
        buf[i] := Rem10(n) + '0' as int;
        n := Quot10(n);
        i := i + 1;
      }
    }

    /** The index of the buffer's last entry that is not '0'. */
    static method SkipZeros(m: int, buf: array<int>) returns (i: int)
      requires buf.Length == 10 && (forall k: nat :: k < 10 ==> buf[k] == Digit(m, k)) && Significant(m, 10) > 0
      ensures 0 <= i < 10 && i + 1 == Significant(m, 10)
    {
      i := 9;
      while buf[i] == '0' as int
        invariant 0 <= i < 10 && Significant(m, i + 1) == Significant(m, 10)
        decreases i
      {
        i := i - 1;
      }
    }

    /** The last part of put_int: the buffer backwards, without the zeros at its end. */
    method PutDigits(m: int, buf: array<int>)
      requires Valid() && buf.Length == 10 && (forall k: nat :: k < 10 ==> buf[k] == Digit(m, k))
      requires Significant(m, 10) > 0 && buf as object != screen
      modifies this, screen
      ensures Valid()
      ensures log == Log(old(log), Digits(m, Significant(m, 10)))
    {
      var i := SkipZeros(m, buf);
      ghost var text := Digits(m, i + 1);
      while i >= 0
        invariant -1 <= i < 10 && i < |text| <= 10 && text == Digits(m, |text|) && Valid()
        invariant forall k: nat :: k < 10 ==> buf[k] == Digit(m, k)
        invariant log == Log(old(log), text[..|text| - 1 - i])
      {
        DigitsAt(m, |text|, |text| - 1 - i);
        LogNext(old(log), text, |text| - 1 - i);
        PutChar(buf[i]);
        i := i - 1;
      }
      assert text[..|text|] == text;
      assert text == Digits(m, Significant(m, 10)) && log == Log(old(log), text);
    }

    /** put_int */
    method PutInt(n: int)
      requires Valid() && MIN_INT <= n < 0x8000_0000
      modifies this, screen
      ensures Valid() && log == Log(old(log), IntText(n))
      ensures old(log) <= log && (Reads(Shown(log[|old(log)|..]), n) <==> n != MIN_INT)
    {
      IntTextShown(log, n, IntText(n));
      if n == 0 {
        Puts(['0' as int]);
        return;
      }
      var m := n;
      if n < 0 {
        Puts(['-' as int]);
        m := Neg32(n);
      }
      NonZero(m);
      var buf := FillDigits(m);
      PutDigits(m, buf);
      if n < 0 { LogConcat(old(log), ['-' as int], Digits(m, Significant(m, 10))); }
    }

    /** puts */
    method Puts(text: seq<int>)
      requires Valid()
      modifies this, screen
      ensures Valid() && log == Log(old(log), text)
      ensures Printing(text) ==> old(log) <= log && Shown(log[|old(log)|..]) == text
    {
      if Printing(text) { TextIsShown(log, text); }
      var i := 0;
      while i < |text|
        invariant i <= |text| && Valid() && log == Log(old(log), text[..i])
      {
        assert text[..i + 1][..i] == text[..i];
        PutChar(text[i]);
        i := i + 1;
      }
      assert text[..i] == text;
    }
  }

  /** Scrolling moves by whole lines. */
  lemma SameColumn(n: nat)
    ensures (n - COLS * Scrolled(n)) % COLS == n % COLS
    ensures ((n - COLS * Scrolled(n)) / COLS == (n - COLS * Scrolled(n) + 8) / COLS) <==> n % COLS + 8 < COLS
  {
    var c := n - COLS * Scrolled(n);
    assert c == COLS * (c / COLS) + c % COLS;
    assert n == COLS * (c / COLS + Scrolled(n)) + c % COLS;
  }

  // Numbers

  /** n / 10 and n % 10 as C has them: towards zero. */
  function Quot10(n: int): int {
    if n >= 0 then n / 10 else -((-n) / 10)
  }

  function Rem10(n: int): int {
    n - 10 * Quot10(n)
  }

  /** -n, as a 32-bit int. */
  function Neg32(n: int): int {
    if n == MIN_INT then n else -n
  }

  function Shifted(n: int, i: nat): int {
    if i == 0 then n else Quot10(Shifted(n, i - 1))
  }

  /** buf[i] */
  function Digit(n: int, i: nat): int {
    Rem10(Shifted(n, i)) + '0' as int
  }

  /** The characters from buf[i - 1] down to buf[0]. */
  function Digits(n: int, i: nat): (d: seq<int>)
    ensures |d| == i
  {
    if i == 0 then [] else [Digit(n, i - 1)] + Digits(n, i - 1)
  }

  /** How much of the buffer is left after the leading zeros. */
  function Significant(n: int, i: nat): (k: nat)
    ensures k <= i && (k > 0 ==> Digit(n, k - 1) != '0' as int)
  {
    if i == 0 || Digit(n, i - 1) != '0' as int then i else Significant(n, i - 1)
  }

  /** What put_int writes. */
  function IntText(n: int): seq<int> {
    if n == 0 then ['0' as int]
    else if n > 0 then Digits(n, Significant(n, 10))
    else ['-' as int] + Digits(Neg32(n), Significant(Neg32(n), 10))
  }

  /** The number that a text of digits spells; -1 for any other text. */
  function Spells(d: seq<int>): (v: int)
    ensures v >= -1
  {
    if d == [] then 0 else
    var v := Spells(d[..|d| - 1]);
    var c := d[|d| - 1];
    if v < 0 || !IsDigit(c) then -1 else 10 * v + c - '0' as int
  }

  /** At least one digit, and no zero in front of another digit. */
  ghost predicate ReadsUnsigned(text: seq<int>, n: int) {
    text != [] && Spells(text) == n >= 0 && (text[0] == '0' as int ==> |text| == 1)
  }

  /** The text is n in decimal, with a sign if n is negative. */
  ghost predicate Reads(text: seq<int>, n: int) {
    if n < 0 then text != [] && text[0] == '-' as int && ReadsUnsigned(text[1..], -n) else ReadsUnsigned(text, n)
  }

  /** For instance, -1203. */
  lemma ReadsDecimal()
    ensures Reads(['-' as int, '1' as int, '2' as int, '0' as int, '3' as int], -1203)
  {
    var d := ['1' as int, '2' as int, '0' as int, '3' as int];
    assert Spells([]) == 0 && d[..3][..2][..1][..0] == [];
    assert Spells(d[..3][..2][..1]) == 1;
    assert Spells(d[..3][..2]) == 12;
    assert Spells(d[..3]) == 120;
    assert ['-' as int, '1' as int, '2' as int, '0' as int, '3' as int][1..] == d;
  }

  lemma {:induction false} DigitsAt(n: int, k: nat, t: nat)
    requires t < k
    ensures Digits(n, k)[t] == Digit(n, k - 1 - t)
  {
    if t > 0 { DigitsAt(n, k - 1, t - 1); }
  }

  /** The digits above position j spell the number without its last j digits. */
  lemma {:induction false} TopSpells(m: nat, k: nat, j: nat)
    requires j <= k && Shifted(m, k) == 0
    ensures Shifted(m, j) >= 0 && Spells(Digits(m, k)[..k - j]) == Shifted(m, j)
    decreases k - j
  {
    if j < k {
      TopSpells(m, k, j + 1);
      ShiftedDown(m, j);
      var d := Digits(m, k)[..k - j];
      DigitsAt(m, k, k - 1 - j);
      assert d[..|d| - 1] == Digits(m, k)[..k - (j + 1)];
    }
  }

  lemma {:induction false} ShiftedDown(m: nat, j: nat)
    ensures Shifted(m, j) >= 0 && Shifted(m, j) == 10 * Shifted(m, j + 1) + (Digit(m, j) - '0' as int)
    ensures IsDigit(Digit(m, j))
  {
    if j > 0 { ShiftedDown(m, j - 1); }
  }

  /** Leading zeros do not count. */
  lemma {:induction false} ZerosDropped(m: nat, i: nat)
    requires Shifted(m, i) == 0
    ensures Shifted(m, Significant(m, i)) == 0
  {
    if i > 0 && Digit(m, i - 1) == '0' as int {
      ShiftedDown(m, i - 1);
      ZerosDropped(m, i - 1);
    }
  }

  lemma ShiftedBelow(m: nat, i: nat, b: nat)
    requires Shifted(m, i) < 10 * b
    ensures Shifted(m, i + 1) < b
  {
    ShiftedDown(m, i);
  }

  /** Ten digits are enough for a 31-bit number. */
  lemma TenDigits(m: nat)
    requires m < 0x8000_0000
    ensures Shifted(m, 10) == 0
  {
    ShiftedBelow(m, 0, 1_000_000_000);
    ShiftedBelow(m, 1, 100_000_000);
    ShiftedBelow(m, 2, 10_000_000);
    ShiftedBelow(m, 3, 1_000_000);
    ShiftedBelow(m, 4, 100_000);
    ShiftedBelow(m, 5, 10_000);
    ShiftedBelow(m, 6, 1_000);
    ShiftedBelow(m, 7, 100);
    ShiftedBelow(m, 8, 10);
    ShiftedBelow(m, 9, 1);
    ShiftedDown(m, 10);
  }

  /** A digit other than zero is found in the buffer. */
  lemma NonZero(m: int)
    requires MIN_INT <= m < 0x8000_0000 && (m < 0 ==> m == MIN_INT) && m != 0
    ensures Significant(m, 10) > 0
  {
    if m > 0 { DigitsSpell(m); } else { SomeDigit(m, 10); }
  }

  lemma {:induction false} SomeDigit(n: int, i: nat)
    requires i > 0 && Digit(n, 0) != '0' as int
    ensures Significant(n, i) > 0
  {
    if i > 1 { SomeDigit(n, i - 1); }
  }

  /** A positive number's digits spell it. */
  lemma DigitsSpell(m: nat)
    requires 0 < m < 0x8000_0000
    ensures Significant(m, 10) > 0 && Spells(Digits(m, Significant(m, 10))) == m
    ensures Digits(m, Significant(m, 10))[0] != '0' as int
  {
    TenDigits(m);
    ZerosDropped(m, 10);
    var k := Significant(m, 10);
    TopSpells(m, k, 0);
    assert Digits(m, k)[..k] == Digits(m, k);
    ShiftedDown(m, k - 1);
  }

  /** What put_int writes is the number in decimal, except for the smallest int: its digits come out negative. */
  lemma IntReadsBack(n: int)
    requires MIN_INT <= n < 0x8000_0000
    ensures Reads(IntText(n), n) <==> n != MIN_INT
  {
    if n == 0 {
      ZeroReads(['0' as int]);
    } else if n == MIN_INT {
      MinReads(n);
    } else if n > 0 {
      DigitsSpell(n);
    } else {
      DigitsSpell(-n);
      assert IntText(n)[1..] == Digits(-n, Significant(-n, 10));
    }
  }

  lemma {:induction false} DigitsPrint(n: int, k: nat)
    ensures Printing(Digits(n, k))
  {
    if k > 0 { DigitsPrint(n, k - 1); }
  }

  lemma IntTextPrints(n: int)
    ensures Printing(IntText(n))
  {
    DigitsPrint(n, Significant(n, 10));
    DigitsPrint(Neg32(n), Significant(Neg32(n), 10));
  }

  /** What put_int writes is shown as it is, and so the cells are the number in decimal but for the smallest int. */
  lemma IntTextShown(log: seq<nat>, n: int, text: seq<int>)
    requires MIN_INT <= n < 0x8000_0000 && text == IntText(n)
    ensures log <= Log(log, text)
    ensures Reads(Shown(Log(log, text)[|log|..]), n) <==> n != MIN_INT
  {
    IntTextPrints(n);
    IntReadsBack(n);
    TextIsShown(log, text);
  }

  lemma ZeroReads(text: seq<int>)
    requires text == ['0' as int]
    ensures Reads(text, 0)
  {
    assert text[..0] == [] && Spells(text) == 0;
  }

  /** The text of the smallest int has characters that are no digits. */
  lemma MinReads(n: int)
    requires n == MIN_INT
    ensures !Reads(IntText(n), n)
  {
    SomeDigit(n, 10);
    var k := Significant(n, 10);
    DigitsAt(n, k, k - 1);
    assert IntText(n)[1..] == Digits(n, k);
  }
}
