/**
 The packed 12-bit entries of a FAT12 allocation table: two entries share three bytes
 (kernel/fat12.c; Microsoft FAT32 File System Specification v1.03, section "FAT Data Structure").
 */
module FatTable {
  import opened DiskBuffer

  const FAT_BYTES: nat := 4096
  const FAT_ENTRIES: nat := 2730
  const END_MARK: nat := 0xff8

  /** The 16-bit little-endian word at byte c. */
  function Load16(bytes: seq<Byte>, c: nat): (w: nat)
    requires c + 1 < |bytes|
    ensures w < 0x1_0000
  {
    var low: nat, high: nat := bytes[c], bytes[c + 1];
    low + 256 * high
  }

  function Store16(bytes: seq<Byte>, c: nat, w: nat): (r: seq<Byte>)
    requires c + 1 < |bytes| && w < 0x1_0000
    ensures |r| == |bytes|
  {
    bytes[c := w % 256][c + 1 := w / 256]
  }

  /** Where the word that holds entry i starts. */
  function Place(i: nat): nat {
    i * 3 / 2
  }

  function Entry(fat: seq<Byte>, i: nat): nat
    requires |fat| == FAT_BYTES && i < FAT_ENTRIES
  {
    var w := Load16(fat, Place(i));
    if i % 2 == 1 then w / 16 else w % 4096
  }

  /** The word w with entry i, which it holds, replaced by v: w & 0x000f | v << 4, or w & 0xf000 | v. */
  function WithEntry(w: nat, i: nat, v: nat): (r: nat)
    requires w < 0x1_0000 && v < 4096
    ensures r < 0x1_0000
  {
    if i % 2 == 1 then w % 16 + v * 16 else w / 4096 * 4096 + v
  }

  function SetEntry(fat: seq<Byte>, i: nat, v: nat): (r: seq<Byte>)
    requires |fat| == FAT_BYTES && i < FAT_ENTRIES && v < 4096
    ensures |r| == FAT_BYTES
  {
    Store16(fat, Place(i), WithEntry(Load16(fat, Place(i)), i, v))
  }

  /** All entries of the table, unpacked. */
  function Entries(fat: seq<Byte>): (t: seq<nat>)
    requires |fat| == FAT_BYTES
    ensures |t| == FAT_ENTRIES
  {
    seq(FAT_ENTRIES, i requires 0 <= i < FAT_ENTRIES => Entry(fat, i))
  }

  /** Two entries in three bytes: the even one has the first byte and the low half of the second one. */
  lemma EntryBytes(fat: seq<Byte>, m: nat)
    requires |fat| == FAT_BYTES && 2 * m + 1 < FAT_ENTRIES
    ensures var a: nat, b: nat, c: nat := fat[3 * m], fat[3 * m + 1], fat[3 * m + 2];
            Entry(fat, 2 * m) == a + 256 * (b % 16) && Entry(fat, 2 * m + 1) == b / 16 + 16 * c
  {
    var a: nat, b: nat, c: nat := fat[3 * m], fat[3 * m + 1], fat[3 * m + 2];
    PlaceOf(2 * m);
    PlaceOf(2 * m + 1);
    Div4096(a + 256 * b, b / 16, a + 256 * (b % 16));
    Div16(b + 256 * c, b / 16 + 16 * c, b % 16);
  }

  lemma Div4096(x: nat, q: nat, r: nat)
    requires x == 4096 * q + r && r < 4096
    ensures x / 4096 == q && x % 4096 == r
  {
  }

  lemma Div256(x: nat, q: nat, r: nat)
    requires x == 256 * q + r && r < 256
    ensures x / 256 == q && x % 256 == r
  {
  }

  lemma Div16(x: nat, q: nat, r: nat)
    requires x == 16 * q + r && r < 16
    ensures x / 16 == q && x % 16 == r
  {
  }

  /** The byte an even entry shares with the odd one above it keeps its high half. */
  lemma EvenWord(low: nat, high: nat, v: nat)
    requires low < 256 && high < 256 && v < 4096
    ensures var w := (low + 256 * high) / 4096 * 4096 + v; w % 4096 == v && w / 256 / 16 == high / 16
  {
    var h := high / 16;
    Div4096(low + 256 * high, h, low + 256 * (high % 16));
    Div4096(4096 * h + v, h, v);
    Div256(4096 * h + v, 16 * h + v / 256, v % 256);
    Div16(16 * h + v / 256, h, v / 256);
  }

  /** The byte an odd entry shares with the even one below it keeps its low half. */
  lemma OddWord(low: nat, high: nat, v: nat)
    requires low < 256 && high < 256 && v < 4096
    ensures var w := (low + 256 * high) % 16 + v * 16; w / 16 == v && w % 256 % 16 == low % 16
  {
    var l := low % 16;
    Div16(low + 256 * high, low / 16 + 16 * high, l);
    Div16(16 * v + l, v, l);
    Div256(16 * v + l, v / 16, 16 * (v % 16) + l);
    Div16(16 * (v % 16) + l, v % 16, l);
  }

  /** An even entry sees only the low half of its second byte. */
  lemma EvenSees(low: nat, high: nat, other: nat)
    requires low < 256 && high < 256 && other < 256 && high % 16 == other % 16
    ensures (low + 256 * high) % 4096 == (low + 256 * other) % 4096
  {
    Div4096(low + 256 * high, high / 16, low + 256 * (high % 16));
    Div4096(low + 256 * other, other / 16, low + 256 * (other % 16));
  }

  /** An odd entry sees only the high half of its first byte. */
  lemma OddSees(low: nat, other: nat, high: nat)
    requires low < 256 && high < 256 && other < 256 && low / 16 == other / 16
    ensures (low + 256 * high) / 16 == (other + 256 * high) / 16
  {
    Div16(low + 256 * high, low / 16 + 16 * high, low % 16);
    Div16(other + 256 * high, other / 16 + 16 * high, other % 16);
  }

  lemma SetSame(fat: seq<Byte>, i: nat, v: nat)
    requires |fat| == FAT_BYTES && i < FAT_ENTRIES && v < 4096
    ensures Entry(SetEntry(fat, i, v), i) == v
  {
    var c := Place(i);
    if i % 2 == 0 { EvenWord(fat[c], fat[c + 1], v); } else { OddWord(fat[c], fat[c + 1], v); }
    assert Load16(SetEntry(fat, i, v), c) == WithEntry(Load16(fat, c), i, v);
  }

  lemma SetEvenKeepsOdd(fat: seq<Byte>, m: nat, v: nat)
    requires |fat| == FAT_BYTES && 2 * m + 1 < FAT_ENTRIES && v < 4096
    ensures Entry(SetEntry(fat, 2 * m, v), 2 * m + 1) == Entry(fat, 2 * m + 1)
  {
    var c := 3 * m;
    PlaceOf(2 * m);
    PlaceOf(2 * m + 1);
    var x := WithEntry(Load16(fat, c), 2 * m, v);
    EvenWord(fat[c], fat[c + 1], v);
    assert SetEntry(fat, 2 * m, v) == fat[c := x % 256][c + 1 := x / 256];
    OddSees(fat[c + 1], x / 256, fat[c + 2]);
  }

  lemma SetOddKeepsEven(fat: seq<Byte>, m: nat, v: nat)
    requires |fat| == FAT_BYTES && 2 * m + 1 < FAT_ENTRIES && v < 4096
    ensures Entry(SetEntry(fat, 2 * m + 1, v), 2 * m) == Entry(fat, 2 * m)
  {
    var c := 3 * m;
    PlaceOf(2 * m);
    PlaceOf(2 * m + 1);
    var x := WithEntry(Load16(fat, c + 1), 2 * m + 1, v);
    OddWord(fat[c + 1], fat[c + 2], v);
    assert SetEntry(fat, 2 * m + 1, v) == fat[c + 1 := x % 256][c + 2 := x / 256];
    EvenSees(fat[c], fat[c + 1], x % 256);
  }

  lemma PlaceOf(i: nat)
    ensures Place(i) == i / 2 * 3 + i % 2
  {
    assert i == i / 2 * 2 + i % 2;
  }

  lemma Apart(i: nat, j: nat)
    requires i / 2 != j / 2
    ensures Place(j) + 1 < Place(i) || Place(i) + 1 < Place(j)
  {
    PlaceOf(i);
    PlaceOf(j);
  }

  /** Neighbouring entries share a byte, yet setting one entry changes no other. */
  lemma SetOne(fat: seq<Byte>, i: nat, v: nat, j: nat)
    requires |fat| == FAT_BYTES && i < FAT_ENTRIES && v < 4096 && j < FAT_ENTRIES
    ensures Entry(SetEntry(fat, i, v), j) == if i == j then v else Entry(fat, j)
  {
    if i == j {
      SetSame(fat, i, v);
    } else if i / 2 != j / 2 {
      Apart(i, j);
    } else if i < j {
      assert i == 2 * (i / 2) && j == 2 * (i / 2) + 1;
      SetEvenKeepsOdd(fat, i / 2, v);
    } else {
      assert i == 2 * (i / 2) + 1 && j == 2 * (i / 2);
      SetOddKeepsEven(fat, i / 2, v);
    }
  }

  lemma SetEntries(fat: seq<Byte>, i: nat, v: nat)
    requires |fat| == FAT_BYTES && i < FAT_ENTRIES && v < 4096
    ensures Entries(SetEntry(fat, i, v)) == Entries(fat)[i := v]
  {
    forall j | 0 <= j < FAT_ENTRIES ensures Entries(SetEntry(fat, i, v))[j] == Entries(fat)[i := v][j] {
      SetOne(fat, i, v, j);
    }
  }

  /** The bytes that hold the first k entries of t, and 0 for the others. */
  function Packed(t: seq<nat>, k: nat): (fat: seq<Byte>)
    requires k <= |t| == FAT_ENTRIES && forall i :: 0 <= i < k ==> t[i] < 4096
    ensures |fat| == FAT_BYTES
  {
    if k == 0 then seq(FAT_BYTES, _ => 0) else SetEntry(Packed(t, k - 1), k - 1, t[k - 1])
  }

  lemma {:induction false} PackedReadsBack(t: seq<nat>, k: nat, i: nat)
    requires k <= |t| == FAT_ENTRIES && (forall i :: 0 <= i < k ==> t[i] < 4096) && i < k
    ensures Entry(Packed(t, k), i) == t[i]
  {
    SetOne(Packed(t, k - 1), k - 1, t[k - 1], i);
    if i < k - 1 { PackedReadsBack(t, k - 1, i); }
  }

  /** Every table of 12-bit entries can be stored, and is read back. */
  lemma PackedEntries(t: seq<nat>)
    requires |t| == FAT_ENTRIES && forall i :: 0 <= i < FAT_ENTRIES ==> t[i] < 4096
    ensures Entries(Packed(t, FAT_ENTRIES)) == t
  {
    forall i | 0 <= i < FAT_ENTRIES ensures Entries(Packed(t, FAT_ENTRIES))[i] == t[i] {
      PackedReadsBack(t, FAT_ENTRIES, i);
    }
  }
}
