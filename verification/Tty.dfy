/**
 The character rings of include/nros/tty.h: 1024 places, of which one always stays free.
 */
module Tty {

  const SIZE: nat := 1024

  /** The characters from tail to head, going round. */
  function Ring(buf: seq<int>, head: nat, tail: nat): (s: seq<int>)
    requires |buf| == SIZE && head < SIZE && tail < SIZE
    ensures |s| == (head - tail) % SIZE
  {
    if tail <= head then buf[tail..head] else buf[tail..] + buf[..head]
  }

  /** Behind the tail, or in front of it, the ring grows by the character at its head. */
  lemma RingExtends(buf: seq<int>, head: nat, tail: nat, c: int)
    requires |buf| == SIZE && head < SIZE - 1 && tail < SIZE && tail != head + 1
    ensures Ring(buf[head := c], head + 1, tail) == Ring(buf, head, tail) + [c]
  {
    var t := buf[head := c];
    assert t[..head + 1] == buf[..head] + [c];
    if tail <= head {
      assert t[tail..head + 1] == buf[tail..head] + [c];
    } else {
      assert t[tail..] == buf[tail..];
    }
  }

  lemma RingWraps(buf: seq<int>, tail: nat, c: int)
    requires |buf| == SIZE && 0 < tail < SIZE
    ensures Ring(buf[SIZE - 1 := c], 0, tail) == Ring(buf, SIZE - 1, tail) + [c]
  {
    var t := buf[SIZE - 1 := c];
    assert t[tail..] == buf[tail..SIZE - 1] + [c] && t[..0] == [];
  }

  lemma FullWhen(head: nat, tail: nat)
    requires head < SIZE && tail < SIZE
    ensures (tail - head - 1) % SIZE > 0 <==> tail != (head + 1) % SIZE
  {
  }

  lemma RingGrows(buf: seq<int>, head: nat, tail: nat, c: int)
    requires |buf| == SIZE && head < SIZE && tail < SIZE
    ensures Ring(buf[head := c], (head + 1) % SIZE, tail)
            == if (tail - head - 1) % SIZE > 0 then Ring(buf, head, tail) + [c] else []
  {
    FullWhen(head, tail);
    assert (head + 1) % SIZE == if head == SIZE - 1 then 0 else head + 1;
    if head == SIZE - 1 {
      if tail > 0 { RingWraps(buf, tail, c); }
    } else if tail != head + 1 {
      RingExtends(buf, head, tail, c);
    }
  }

  class TtyQueue {
    const buf: array<int>
    var head: nat
    var tail: nat

    ghost predicate Valid()
      reads this, buf
    {
      buf.Length == SIZE && head < SIZE && tail < SIZE
    }

    /** The characters in the ring, oldest first. */
    ghost function Contents(): (s: seq<int>)
      reads this, buf
      requires Valid()
      ensures |s| < SIZE
    {
      Ring(buf[..], head, tail)
    }

    constructor ()
      ensures Valid() && fresh(buf) && Contents() == []
    {
      buf := new int[SIZE](_ => 0);
      head, tail := 0, 0;
    }

    /** EMPTY */
    function Empty(): (r: bool)
      reads this, buf
      requires Valid()
      ensures r <==> Contents() == []
    {
      head == tail
    }

    /** CHARS */
    function Chars(): (r: nat)
      reads this, buf
      requires Valid()
      ensures r == |Contents()|
    {
      (head - tail) % SIZE
    }

    /** LEFT */
    function Left(): (r: nat)
      reads this, buf
      requires Valid()
      ensures r == SIZE - 1 - |Contents()|
    {
      (tail - head - 1) % SIZE
    }

    /** PUTCH; on a full ring it loses everything. */
    method PutCh(c: int)
      requires Valid()
      modifies this`head, buf
      ensures Valid()
      ensures Contents() == if old(Left()) > 0 then old(Contents()) + [c] else []
    {
      RingGrows(buf[..], head, tail, c);
      ghost var was := buf[..];
      buf[head] := c;
      assert buf[..] == was[head := c];
      head := (head + 1) % SIZE;
    }

    /** GETCH; on an empty ring the tail runs past the head, and 1023 old characters seem to wait. */
    method GetCh() returns (c: int)
      requires Valid()
      modifies this`tail
      ensures Valid()
      ensures !old(Empty()) ==> c == old(Contents())[0] && Contents() == old(Contents())[1..]
      ensures old(Empty()) ==> |Contents()| == SIZE - 1
    {
      c := buf[tail];
      tail := (tail + 1) % SIZE;
    }
  }
}
