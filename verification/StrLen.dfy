/**
 The word-at-a-time strlen of lib/libc/string.c.  Memory is an array of little-endian 32-bit words.
 */
module StrLen {

  /** Byte j of a word. */
  function ByteOf(w: bv32, j: nat): bv32
    requires j < 4
  {
    if j == 0 then w & 0xff else if j == 1 then (w >> 8) & 0xff else if j == 2 then (w >> 16) & 0xff else w >> 24
  }

  /** The byte at an address. */
  function ByteAt(m: seq<bv32>, a: nat): bv32
    requires a < 4 * |m|
  {
    ByteOf(m[a / 4], a % 4)
  }

  /** (w - mask01) & mask80 */
  function Suspect(w: bv32): bool {
    (w - 0x0101_0101) & 0x8080_8080 != 0
  }

  /** A byte that makes its word suspect. */
  predicate Raises(b: bv32) {
    b == 0 || b >= 0x81
  }

  /** A word is suspect exactly when one of its bytes is zero, or 0x81 or more: then the scan looks, and goes on. */
  lemma SuspectMeans(w: bv32)
    ensures Suspect(w) <==> Raises(ByteOf(w, 0)) || Raises(ByteOf(w, 1)) || Raises(ByteOf(w, 2)) || Raises(ByteOf(w, 3))
  {
  }

  ghost predicate NoZero(m: seq<bv32>, a: nat, b: nat) {
    b <= 4 * |m| && forall i: nat :: a <= i < b ==> ByteAt(m, i) != 0
  }

  ghost predicate ZeroAt(m: seq<bv32>, a: nat) {
    a < 4 * |m| && ByteAt(m, a) == 0
  }

  lemma WordClean(m: seq<bv32>, a: nat, p: nat)
    requires p % 4 == 0 && p + 4 <= 4 * |m| && NoZero(m, a, p) && !Suspect(m[p / 4])
    ensures NoZero(m, a, p + 4)
  {
    SuspectMeans(m[p / 4]);
    forall i: nat | a <= i < p + 4 ensures ByteAt(m, i) != 0 {
      if i >= p { assert i / 4 == p / 4; }
    }
  }

  /** testbyte, for the four bytes of a word: the first zero byte among them, or 4. */
  method TestBytes(mem: array<bv32>, p: nat) returns (x: nat)
    requires p % 4 == 0 && p + 4 <= 4 * mem.Length
    ensures x <= 4 && NoZero(mem[..], p, p + x) && (x < 4 ==> ZeroAt(mem[..], p + x))
  {
    x := 0;
    while x < 4
      invariant x <= 4 && NoZero(mem[..], p, p + x)
    {
      if ByteAt(mem[..], p + x) == 0 {
        return;
      }
      x := x + 1;
    }
  }

  /**
   strlen of the string at address str, whatever its alignment: the distance to the first zero byte at or after it.
   `read` are the words it looks at: none behind the one with that byte.
   */
  method Strlen(mem: array<bv32>, str: nat, ghost end: nat) returns (n: nat, ghost read: set<nat>)
    requires str <= end && ZeroAt(mem[..], end)
    ensures ZeroAt(mem[..], str + n) && NoZero(mem[..], str, str + n)
    ensures forall w :: w in read ==> str / 4 <= w <= (str + n) / 4
  {
    var p := str;
    read := {};
    while p % 4 != 0
      invariant str <= p <= end && NoZero(mem[..], str, p) && (forall w :: w in read ==> w == str / 4)
      invariant p % 4 != 0 ==> p / 4 == str / 4
      invariant p % 4 == 0 ==> p == str || p / 4 == str / 4 + 1
      decreases 4 * mem.Length - p
    {
      read := read + {p / 4};
      if ByteAt(mem[..], p) == 0 {
        return p - str, read;
      }
      p := p + 1;
    }
    while true
      invariant str <= p <= end && p % 4 == 0 && NoZero(mem[..], str, p)
      invariant forall w :: w in read ==> str / 4 <= w <= p / 4
      decreases end - p
    {
      read := read + {p / 4};
      if Suspect(mem[p / 4]) {
        var x := TestBytes(mem, p);
        if x < 4 {
          return p + x - str, read;
        }
      } else {
        WordClean(mem[..], str, p);
      }
      p := p + 4;
    }
  }
}
