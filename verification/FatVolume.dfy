/**
 Files of a FAT12 volume: cluster chains in the allocation table, directory slots in the root, and
 the bytes the chains hold on the disk (kernel/fat12.c).
 */
module FatVolume {
  import opened DiskBuffer
  import opened FatTable
  import opened Sequences

  const SLOTS: nat := 224
  const SLOT_SIZE: nat := 32
  const ROOT_BYTES: nat := 7168
  const DATA_SHIFT: nat := 31
  const DISK_SECTORS: nat := 2880
  /** Sizes below this can be rounded up to a sector in 32 bits. */
  const RANGE_END: nat := 0xffff_fe00

  // ------------------------------------------------------------------ directory slots

  function Load32(r: seq<Byte>, c: nat): nat
    requires c + 3 < |r|
  {
    Load16(r, c) + 0x1_0000 * Load16(r, c + 2)
  }

  function Store32(r: seq<Byte>, c: nat, w: nat): (r': seq<Byte>)
    requires c + 3 < |r| && w < 0x1_0000_0000
    ensures |r'| == |r|
  {
    Store16(Store16(r, c, w % 0x1_0000), c + 2, w / 0x1_0000)
  }

  /** The 32 bytes of slot s. */
  function SlotAt(root: seq<Byte>, s: nat): (r: seq<Byte>)
    requires |root| == ROOT_BYTES && s < SLOTS
    ensures |r| == SLOT_SIZE
  {
    root[s * SLOT_SIZE..(s + 1) * SLOT_SIZE]
  }

  function Slots(root: seq<Byte>): (r: seq<seq<Byte>>)
    requires |root| == ROOT_BYTES
    ensures |r| == SLOTS && forall s :: 0 <= s < SLOTS ==> r[s] == SlotAt(root, s)
  {
    seq(SLOTS, s requires 0 <= s < SLOTS => SlotAt(root, s))
  }

  predicate Live(r: seq<Byte>)
    requires |r| == SLOT_SIZE
  {
    r[0] != 0
  }

  function Name(r: seq<Byte>): seq<Byte>
    requires |r| == SLOT_SIZE
  {
    r[..8]
  }

  function Cluster(r: seq<Byte>): nat
    requires |r| == SLOT_SIZE
  {
    Load16(r, 26)
  }

  function Size(r: seq<Byte>): nat
    requires |r| == SLOT_SIZE
  {
    Load32(r, 28)
  }

  /** fname: the filename cut or padded with spaces to eight bytes. */
  function ShortName(filename: seq<Byte>): (r: seq<Byte>)
    ensures |r| == 8 && forall i :: 0 <= i < 8 ==> r[i] == if i < |filename| then filename[i] else 32
  {
    if |filename| >= 8 then filename[..8] else filename + seq(8 - |filename|, _ => 32)
  }

  /** The slot fat12_create_aux writes over slot r. */
  function NewSlot(r: seq<Byte>, filename: seq<Byte>, cluster: nat): (r': seq<Byte>)
    requires |r| == SLOT_SIZE && |filename| <= SLOT_SIZE && cluster < 0x1_0000
    ensures |r'| == SLOT_SIZE
  {
    Store32(Store16(Patch(Patch(r, 0, seq(11, _ => 32)), 0, filename), 26, cluster), 28, 0)
  }

  /** The 32 bytes of a new slot: name, eleven spaces under it, what was there, first cluster, and the size 0. */
  lemma NewSlotBytes(r: seq<Byte>, filename: seq<Byte>, cluster: nat)
    requires |r| == SLOT_SIZE && |filename| <= SLOT_SIZE && cluster < 0x1_0000
    ensures var r' := NewSlot(r, filename, cluster);
            && |r'| == 32 && (forall i :: 0 <= i < 26 ==> r'[i] == if i < |filename| then filename[i] else if i < 11 then 32 else r[i])
            && r'[26] == cluster % 256 && r'[27] == cluster / 256 && r'[28] == r'[29] == r'[30] == r'[31] == 0
  {
    assert Store16(r, 26, cluster)[26] == cluster % 256;
  }

  /** The number that bytes stand for, the least significant one first. */
  function Number(bytes: seq<Byte>): nat {
    if bytes == [] then 0 else var low: nat := bytes[0]; low + 256 * Number(bytes[1..])
  }

  lemma NumberOfWord(l: seq<Byte>)
    requires |l| == 2
    ensures Number(l) == Load16(l, 0)
  {
    assert Number(l[1..]) == l[1];
  }

  lemma NumberOfLong(l: seq<Byte>)
    requires |l| == 4
    ensures Number(l) == Load32(l, 0)
  {
    var h := l[1..][1..];
    NumberOfWord(h);
    assert Number(l[1..]) == l[1] + 256 * Number(h);
    assert Load16(h, 0) == Load16(l, 2);
  }

  /** Where a slot has its first cluster and its size. */
  lemma SlotReads(root: seq<Byte>, s: nat)
    requires |root| == ROOT_BYTES && s < SLOTS
    ensures var r, a := SlotAt(root, s), 32 * s;
            && (Live(r) <==> root[a] != 0) && Name(r) == root[a..a + 8] && Cluster(r) == Number(root[a + 26..a + 28])
            && Size(r) == Number(root[a + 28..a + 32])
  {
    var a := 32 * s;
    var r, c, z := SlotAt(root, s), root[a + 26..a + 28], root[a + 28..a + 32];
    assert r[..8] == root[a..a + 8];
    assert c == [r[26], r[27]] && z == [r[28], r[29], r[30], r[31]];
    NumberOfWord(c);
    NumberOfLong(z);
    assert Load16(z, 2) == Load16(r, 30);
  }

  lemma NewSlotReads(r: seq<Byte>, filename: seq<Byte>, cluster: nat)
    requires |r| == SLOT_SIZE && |filename| <= SLOT_SIZE && cluster < 0x1_0000 && 0 !in filename
    ensures var r' := NewSlot(r, filename, cluster);
            Live(r') && Name(r') == ShortName(filename) && Cluster(r') == cluster && Size(r') == 0
  {
    var a := Patch(Patch(r, 0, seq(11, _ => 32)), 0, filename);
    var r' := NewSlot(r, filename, cluster);
    assert forall i :: 0 <= i < 11 ==> r'[i] == a[i];
    assert forall i :: 0 <= i < 8 ==> a[i] == ShortName(filename)[i];
    assert r'[26] == cluster % 256 && r'[27] == cluster / 256;
    assert |filename| > 0 ==> filename[0] in filename;
  }

  lemma Store32Reads(r: seq<Byte>, w: nat)
    requires |r| == SLOT_SIZE && w < 0x1_0000_0000
    ensures var r' := Store32(r, 28, w);
            Size(r') == w && Live(r') == Live(r) && Name(r') == Name(r) && Cluster(r') == Cluster(r)
  {
    var low, high := w % 0x1_0000, w / 0x1_0000;
    var r' := Store32(r, 28, w);
    assert r'[28] == low % 256 && r'[29] == low / 256 && r'[30] == high % 256 && r'[31] == high / 256;
    assert Load16(r', 28) == low && Load16(r', 30) == high;
    assert forall i :: 0 <= i < 28 ==> r'[i] == r[i];
  }

  /** Overwriting one slot overwrites that slot. */
  lemma SlotsPatch(root: seq<Byte>, s: nat, r: seq<Byte>)
    requires |root| == ROOT_BYTES && s < SLOTS && |r| == SLOT_SIZE
    ensures Slots(Patch(root, s * SLOT_SIZE, r)) == Slots(root)[s := r]
  {
    var root' := Patch(root, s * SLOT_SIZE, r);
    forall q | 0 <= q < SLOTS ensures SlotAt(root', q) == Slots(root)[s := r][q] {
      forall i | 0 <= i < SLOT_SIZE ensures SlotAt(root', q)[i] == Slots(root)[s := r][q][i] {
        assert SlotAt(root', q)[i] == root'[q * SLOT_SIZE + i];
        assert SlotAt(root, q)[i] == root[q * SLOT_SIZE + i];
      }
    }
  }

  /** strncmp (lib/libc/string.c): the difference at the first byte that differs, or at a common NUL, within n. */
  function StrNCmp(a: seq<Byte>, b: seq<Byte>, n: nat): int
    requires n <= |a| && n <= |b|
  {
    if n == 0 then 0
    else if a[0] != b[0] then a[0] - b[0]
    else if a[0] == 0 then 0
    else StrNCmp(a[1..], b[1..], n - 1)
  }

  /** Against a name without NUL, strncmp is 0 exactly on equal bytes. */
  lemma {:induction false} StrNCmpEqual(a: seq<Byte>, b: seq<Byte>, n: nat)
    requires n <= |a| && n <= |b| && 0 !in b[..n]
    ensures StrNCmp(a, b, n) == 0 <==> a[..n] == b[..n]
  {
    if n > 0 {
      assert b[0] == b[..n][0] && b[1..][..n - 1] == b[..n][1..];
      if a[0] == b[0] {
        StrNCmpEqual(a[1..], b[1..], n - 1);
        assert a[..n] == [a[0]] + a[1..][..n - 1];
        assert b[..n] == [b[0]] + b[1..][..n - 1];
      } else {
        assert a[..n][0] != b[..n][0];
      }
    }
  }

  lemma ShortNameNoNul(filename: seq<Byte>)
    requires 0 !in filename
    ensures 0 !in ShortName(filename)
  {
    forall i | 0 <= i < 8 ensures ShortName(filename)[i] != 0 {
      if i < |filename| { assert filename[i] in filename; }
    }
  }

  // ------------------------------------------------------------------ chains

  /** Link i of c holds the next one, or at the end of c an end mark. */
  ghost predicate Link(t: seq<nat>, c: seq<nat>, i: nat)
    requires i < |c| && c[i] < |t|
  {
    if i < |c| - 1 then t[c[i]] == c[i + 1] else t[c[i]] >= END_MARK
  }

  /** The chain c in table t: links followed to an end mark, through usable entries, none of them twice. */
  ghost predicate IsChain(t: seq<nat>, c: seq<nat>) {
    && |t| == FAT_ENTRIES && c != [] && NoRepeats(c)
    && (forall i :: 0 <= i < |c| ==> 2 <= c[i] < FAT_ENTRIES)
    && (forall i :: 0 <= i < |c| ==> Link(t, c, i))
  }

  lemma ChainTail(t: seq<nat>, c: seq<nat>)
    requires IsChain(t, c)
    ensures t[c[0]] >= END_MARK <==> |c| == 1
    ensures |c| > 1 ==> t[c[0]] == c[1] && IsChain(t, c[1..])
  {
    assert Link(t, c, 0);
    var d := c[1..];
    forall i | 0 <= i < |d| ensures d[i] == c[i + 1] && Link(t, c, i + 1) {
    }
  }

  /** Where a walk along a chain goes from its cluster k. */
  lemma ChainStep(t: seq<nat>, c: seq<nat>, k: nat)
    requires IsChain(t, c) && k < |c|
    ensures t[c[k]] >= END_MARK <==> k == |c| - 1
    ensures k < |c| - 1 ==> t[c[k]] == c[k + 1]
  {
    assert Link(t, c, k);
  }

  /** A chain is determined by the table and its first cluster. */
  lemma {:induction false} ChainUnique(t: seq<nat>, c: seq<nat>, d: seq<nat>)
    requires IsChain(t, c) && IsChain(t, d) && c[0] == d[0]
    ensures c == d
    decreases |c|
  {
    ChainTail(t, c);
    ChainTail(t, d);
    if |c| > 1 {
      ChainUnique(t, c[1..], d[1..]);
    }
  }

  /** Entries no chain link uses can change freely. */
  lemma ChainFrame(t: seq<nat>, t': seq<nat>, c: seq<nat>)
    requires IsChain(t, c) && |t'| == |t| && forall i :: 0 <= i < |c| ==> t'[c[i]] == t[c[i]]
    ensures IsChain(t', c)
  {
    forall i | 0 <= i < |c| ensures Link(t', c, i) {
      assert Link(t, c, i);
    }
  }

  /** Every link of a chain is marked used. */
  lemma ChainUsed(t: seq<nat>, c: seq<nat>)
    requires IsChain(t, c)
    ensures forall x :: x in c ==> 2 <= x < FAT_ENTRIES && t[x] != 0
  {
    forall x | x in c ensures 2 <= x < FAT_ENTRIES && t[x] != 0 {
      var i :| 0 <= i < |c| && c[i] == x;
      assert Link(t, c, i);
    }
  }

  /** Linking a fresh end entry after the last one. */
  lemma ChainGrow(t: seq<nat>, c: seq<nat>, e: nat)
    requires IsChain(t, c) && 2 <= e < FAT_ENTRIES && t[e] == 0
    ensures IsChain(t[e := END_MARK][c[|c| - 1] := e], c + [e])
  {
    var t' := t[e := END_MARK][c[|c| - 1] := e];
    ChainUsed(t, c);
    assert e !in c;
    var d := c + [e];
    forall i | 0 <= i < |d| ensures Link(t', d, i) {
      if i < |c| { assert d[i] == c[i] && Link(t, c, i) && c[i] in c; }
    }
  }

  // ------------------------------------------------------------------ the volume

  /** Two different slots in use. */
  ghost predicate BothLive(slots: seq<seq<Byte>>, s: int, r: int)
    requires |slots| == SLOTS && (forall s :: 0 <= s < SLOTS ==> |slots[s]| == SLOT_SIZE)
  {
    0 <= s < SLOTS && 0 <= r < SLOTS && s != r && Live(slots[s]) && Live(slots[r])
  }

  /**
   The allocation table, the directory slots and the chains of the live ones fit together: every live
   slot has a chain that starts at its cluster, no two share a cluster, no two share a name.
   */
  ghost predicate Linked(t: seq<nat>, slots: seq<seq<Byte>>, chains: seq<seq<nat>>) {
    && |t| == FAT_ENTRIES && t[0] != 0 && t[1] != 0
    && |slots| == SLOTS == |chains| && (forall s :: 0 <= s < SLOTS ==> |slots[s]| == SLOT_SIZE)
    && (forall s :: 0 <= s < SLOTS && Live(slots[s]) ==> IsChain(t, chains[s]) && chains[s][0] == Cluster(slots[s]))
    && (forall s, r, x :: BothLive(slots, s, r) && x in chains[s] ==> x !in chains[r])
    && (forall s, r :: BothLive(slots, s, r) ==> Name(slots[s]) != Name(slots[r]))
  }

  /** A file of size n owns n / 512 + 1 clusters. */
  ghost predicate Sized(slots: seq<seq<Byte>>, chains: seq<seq<nat>>)
    requires |slots| == SLOTS == |chains| && (forall s :: 0 <= s < SLOTS ==> |slots[s]| == SLOT_SIZE)
  {
    forall s :: 0 <= s < SLOTS && Live(slots[s]) ==> |chains[s]| == Size(slots[s]) / SECTOR_SIZE + 1
  }

  ghost predicate VolumeOk(t: seq<nat>, slots: seq<seq<Byte>>, chains: seq<seq<nat>>) {
    Linked(t, slots, chains) && Sized(slots, chains)
  }

  /** The unused entries. */
  ghost function Zeros(t: seq<nat>): set<nat> {
    set i: nat | i < |t| && t[i] == 0
  }

  lemma CreateKeeps(t: seq<nat>, slots: seq<seq<Byte>>, chains: seq<seq<nat>>, s: nat, e: nat, r: seq<Byte>)
    requires VolumeOk(t, slots, chains) && s < SLOTS && !Live(slots[s])
    requires e < FAT_ENTRIES && t[e] == 0
    requires |r| == SLOT_SIZE && Live(r) && Cluster(r) == e && Size(r) == 0
    requires forall q :: 0 <= q < SLOTS && Live(slots[q]) ==> Name(slots[q]) != Name(r)
    ensures VolumeOk(t[e := END_MARK], slots[s := r], chains[s := [e]])
  {
    var t' := t[e := END_MARK];
    forall q | 0 <= q < SLOTS && Live(slots[q]) ensures e !in chains[q] && IsChain(t', chains[q]) {
      ChainUsed(t, chains[q]);
      ChainFrame(t, t', chains[q]);
    }
  }

  lemma GrowKeeps(t: seq<nat>, slots: seq<seq<Byte>>, chains: seq<seq<nat>>, s: nat, e: nat)
    requires Linked(t, slots, chains) && s < SLOTS && Live(slots[s])
    requires e < FAT_ENTRIES && t[e] == 0
    ensures Linked(t[e := END_MARK][chains[s][|chains[s]| - 1] := e], slots, chains[s := chains[s] + [e]])
  {
    var c := chains[s];
    var t' := t[e := END_MARK][c[|c| - 1] := e];
    ChainGrow(t, c, e);
    assert c[|c| - 1] in c;
    forall q | 0 <= q < SLOTS && q != s && Live(slots[q]) ensures e !in chains[q] && IsChain(t', chains[q]) {
      ChainUsed(t, chains[q]);
      ChainFrame(t, t', chains[q]);
    }
  }

  /** The table with every entry of c cleared. */
  ghost function ChainCleared(t: seq<nat>, c: seq<nat>): (r: seq<nat>)
    ensures |r| == |t|
  {
    seq(|t|, i requires 0 <= i < |t| => if i in c then 0 else t[i])
  }

  lemma RemoveKeeps(t: seq<nat>, slots: seq<seq<Byte>>, chains: seq<seq<nat>>, s: nat, r: seq<Byte>)
    requires VolumeOk(t, slots, chains) && s < SLOTS && Live(slots[s])
    requires |r| == SLOT_SIZE && !Live(r)
    ensures VolumeOk(ChainCleared(t, chains[s]), slots[s := r], chains[s := []])
  {
    var t' := ChainCleared(t, chains[s]);
    ChainUsed(t, chains[s]);
    forall q | 0 <= q < SLOTS && q != s && Live(slots[q]) ensures IsChain(t', chains[q]) {
      forall i | 0 <= i < |chains[q]| ensures t'[chains[q][i]] == t[chains[q][i]] {
        assert chains[q][i] in chains[q];
      }
      ChainFrame(t, t', chains[q]);
    }
    assert 0 !in chains[s] && 1 !in chains[s];
  }

  // ------------------------------------------------------------------ file contents

  /** The bytes of a chain's sectors, end to end. */
  ghost function Raw(disk: seq<Sector>, c: seq<nat>): (r: seq<Byte>)
    requires |disk| == DISK_SECTORS && forall i :: 0 <= i < |c| ==> c[i] < FAT_ENTRIES
    ensures |r| == |c| * SECTOR_SIZE
  {
    if c == [] then [] else Raw(disk, c[..|c| - 1]) + disk[c[|c| - 1] + DATA_SHIFT]
  }

  lemma {:induction false} RawSector(disk: seq<Sector>, c: seq<nat>, k: nat)
    requires |disk| == DISK_SECTORS && (forall i :: 0 <= i < |c| ==> c[i] < FAT_ENTRIES) && k < |c|
    ensures Raw(disk, c)[k * SECTOR_SIZE..(k + 1) * SECTOR_SIZE] == disk[c[k] + DATA_SHIFT]
  {
    if k < |c| - 1 {
      RawSector(disk, c[..|c| - 1], k);
      assert Raw(disk, c)[k * SECTOR_SIZE..(k + 1) * SECTOR_SIZE] == Raw(disk, c[..|c| - 1])[k * SECTOR_SIZE..(k + 1) * SECTOR_SIZE];
    }
  }

  lemma {:induction false} RawSame(disk: seq<Sector>, disk': seq<Sector>, c: seq<nat>)
    requires |disk| == DISK_SECTORS == |disk'| && forall i :: 0 <= i < |c| ==> c[i] < FAT_ENTRIES
    requires forall i :: 0 <= i < |c| ==> disk'[c[i] + DATA_SHIFT] == disk[c[i] + DATA_SHIFT]
    ensures Raw(disk', c) == Raw(disk, c)
  {
    if c != [] { RawSame(disk, disk', c[..|c| - 1]); }
  }

  /** Patching one sector of a chain patches its bytes at that sector's place. */
  lemma {:induction false} RawPatch(disk: seq<Sector>, c: seq<nat>, k: nat, at: nat, data: seq<Byte>)
    requires |disk| == DISK_SECTORS && (forall i :: 0 <= i < |c| ==> c[i] < FAT_ENTRIES) && NoRepeats(c)
    requires k < |c| && at + |data| <= SECTOR_SIZE
    ensures var s := c[k] + DATA_SHIFT;
            Raw(disk[s := Patch(disk[s], at, data)], c) == Patch(Raw(disk, c), k * SECTOR_SIZE + at, data)
  {
    var s := c[k] + DATA_SHIFT;
    var disk' := disk[s := Patch(disk[s], at, data)];
    var b := c[..|c| - 1];
    if k < |c| - 1 {
      RawPatch(disk, b, k, at, data);
    } else {
      RawSame(disk, disk', b);
    }
  }

  // ------------------------------------------------------------------ the table and the root on disk

  const FAT_START: nat := 1
  const ROOT_START: nat := 19
  const DATA_START: nat := 33

  /** The disk holds the table in sectors 1..8 and the root in sectors 19..32. */
  ghost predicate OnDiskNow(disk: seq<Sector>, fat: seq<Byte>, root: seq<Byte>)
    requires |disk| == DISK_SECTORS && |fat| == FAT_BYTES && |root| == ROOT_BYTES
  {
    && (forall k :: 0 <= k < 8 ==> disk[FAT_START + k] == fat[k * SECTOR_SIZE..(k + 1) * SECTOR_SIZE])
    && (forall k :: 0 <= k < 14 ==> disk[ROOT_START + k] == root[k * SECTOR_SIZE..(k + 1) * SECTOR_SIZE])
  }

  /** after differs from before at most in the sectors of the table and the root. */
  ghost predicate InfoOnly(before: seq<Sector>, after: seq<Sector>)
    requires |before| == DISK_SECTORS
  {
    && |after| == DISK_SECTORS
    && forall s :: 0 <= s < DISK_SECTORS && !(FAT_START <= s < FAT_START + 8) && !(ROOT_START <= s < DATA_START) ==> after[s] == before[s]
  }

  /** The disk determines the table and the root it holds. */
  lemma InfoUnique(disk: seq<Sector>, fat: seq<Byte>, root: seq<Byte>, fat': seq<Byte>, root': seq<Byte>)
    requires |disk| == DISK_SECTORS && |fat| == FAT_BYTES == |fat'| && |root| == ROOT_BYTES == |root'|
    requires OnDiskNow(disk, fat, root) && OnDiskNow(disk, fat', root')
    ensures fat == fat' && root == root'
  {
    forall i | 0 <= i < FAT_BYTES ensures fat[i] == fat'[i] {
      var k := i / SECTOR_SIZE;
      assert disk[FAT_START + k] == fat[k * SECTOR_SIZE..(k + 1) * SECTOR_SIZE] == fat'[k * SECTOR_SIZE..(k + 1) * SECTOR_SIZE];
      assert fat[i] == fat[k * SECTOR_SIZE..(k + 1) * SECTOR_SIZE][i - k * SECTOR_SIZE];
    }
    forall i | 0 <= i < ROOT_BYTES ensures root[i] == root'[i] {
      var k := i / SECTOR_SIZE;
      assert disk[ROOT_START + k] == root[k * SECTOR_SIZE..(k + 1) * SECTOR_SIZE] == root'[k * SECTOR_SIZE..(k + 1) * SECTOR_SIZE];
      assert root[i] == root[k * SECTOR_SIZE..(k + 1) * SECTOR_SIZE][i - k * SECTOR_SIZE];
    }
  }

  /** Block k of the disk with the table and root bytes that fall in it replaced, as fat12_set_info copies them. */
  ghost function InfoBlock(bytes: seq<Byte>, k: nat, fat: seq<Byte>, root: seq<Byte>): (r: seq<Byte>)
    requires |bytes| == BLOCK_SIZE && k < 5 && |fat| == FAT_BYTES && |root| == ROOT_BYTES
    ensures |r| == BLOCK_SIZE
  {
    if k == 0 then Patch(bytes, 512, fat[..3584])
    else if k == 1 then Patch(bytes, 0, fat[3584..])
    else if k == 2 then Patch(bytes, 1536, root[..2560])
    else if k == 3 then root[2560..6656]
    else Patch(bytes, 0, root[6656..])
  }

  /** What sector s, which held was, holds after the copy. */
  ghost function InfoSectorBytes(was: seq<Byte>, s: nat, fat: seq<Byte>, root: seq<Byte>): (r: seq<Byte>)
    requires |was| == SECTOR_SIZE && |fat| == FAT_BYTES && |root| == ROOT_BYTES
    ensures |r| == SECTOR_SIZE
  {
    if FAT_START <= s < FAT_START + 8 then fat[(s - FAT_START) * SECTOR_SIZE..(s - FAT_START + 1) * SECTOR_SIZE]
    else if ROOT_START <= s < DATA_START then root[(s - ROOT_START) * SECTOR_SIZE..(s - ROOT_START + 1) * SECTOR_SIZE]
    else was
  }

  /** The byte at position p of the disk after the copy, where b was. */
  ghost function InfoByte(b: Byte, p: nat, fat: seq<Byte>, root: seq<Byte>): Byte
    requires |fat| == FAT_BYTES && |root| == ROOT_BYTES
  {
    if 512 <= p < 4608 then fat[p - 512] else if 9728 <= p < 16896 then root[p - 9728] else b
  }

  lemma InfoBlockByte(bytes: seq<Byte>, k: nat, fat: seq<Byte>, root: seq<Byte>, i: nat)
    requires |bytes| == BLOCK_SIZE && k < 5 && |fat| == FAT_BYTES && |root| == ROOT_BYTES && i < BLOCK_SIZE
    ensures InfoBlock(bytes, k, fat, root)[i] == InfoByte(bytes[i], k * BLOCK_SIZE + i, fat, root)
  {
    assert k == 0 || k == 1 || k == 2 || k == 3 || k == 4;
  }

  lemma InfoSectorByte(was: seq<Byte>, s: nat, fat: seq<Byte>, root: seq<Byte>, i: nat)
    requires |was| == SECTOR_SIZE && |fat| == FAT_BYTES && |root| == ROOT_BYTES && i < SECTOR_SIZE
    ensures InfoSectorBytes(was, s, fat, root)[i] == InfoByte(was[i], s * SECTOR_SIZE + i, fat, root)
  {
  }

  /** Sector j of block k after the copy. */
  lemma InfoSector(bytes: seq<Byte>, k: nat, fat: seq<Byte>, root: seq<Byte>, j: nat)
    requires |bytes| == BLOCK_SIZE && k < 5 && |fat| == FAT_BYTES && |root| == ROOT_BYTES && j < 8
    ensures SectorIn(InfoBlock(bytes, k, fat, root), j) == InfoSectorBytes(SectorIn(bytes, j), k * 8 + j, fat, root)
  {
    var b := InfoBlock(bytes, k, fat, root);
    forall i | 0 <= i < SECTOR_SIZE
      ensures SectorIn(b, j)[i] == InfoSectorBytes(SectorIn(bytes, j), k * 8 + j, fat, root)[i]
    {
      var p := j * SECTOR_SIZE + i;
      assert SectorIn(b, j)[i] == b[p] && SectorIn(bytes, j)[i] == bytes[p];
      InfoBlockByte(bytes, k, fat, root, p);
      InfoSectorByte(SectorIn(bytes, j), k * 8 + j, fat, root, i);
      assert k * BLOCK_SIZE + p == (k * 8 + j) * SECTOR_SIZE + i;
    }
  }

  lemma InfoDoneAt(before: seq<Sector>, after: seq<Sector>, fat: seq<Byte>, root: seq<Byte>, s: nat)
    requires |before| == DISK_SECTORS == |after| && |fat| == FAT_BYTES && |root| == ROOT_BYTES && s < 40
    requires forall k :: 0 <= k < 5 ==> BlockOf(after, k) == InfoBlock(BlockOf(before, k), k, fat, root)
    ensures after[s] == InfoSectorBytes(before[s], s, fat, root)
  {
    var k, j := s / 8, s % 8;
    InfoSector(BlockOf(before, k), k, fat, root, j);
    SectorOfBlock(before, k, j);
    SectorOfBlock(after, k, j);
  }

  /** The five blocks written, the disk holds the table and the root, and nothing else changed. */
  lemma InfoDone(before: seq<Sector>, after: seq<Sector>, fat: seq<Byte>, root: seq<Byte>)
    requires |before| == DISK_SECTORS == |after| && |fat| == FAT_BYTES && |root| == ROOT_BYTES
    requires forall k :: 0 <= k < 5 ==> BlockOf(after, k) == InfoBlock(BlockOf(before, k), k, fat, root)
    requires forall s :: 40 <= s < DISK_SECTORS ==> after[s] == before[s]
    ensures OnDiskNow(after, fat, root) && InfoOnly(before, after)
  {
    forall k | 0 <= k < 8 ensures after[FAT_START + k] == fat[k * SECTOR_SIZE..(k + 1) * SECTOR_SIZE] {
      InfoDoneAt(before, after, fat, root, FAT_START + k);
    }
    forall k | 0 <= k < 14 ensures after[ROOT_START + k] == root[k * SECTOR_SIZE..(k + 1) * SECTOR_SIZE] {
      InfoDoneAt(before, after, fat, root, ROOT_START + k);
    }
    forall s | 0 <= s < DISK_SECTORS && !(FAT_START <= s < FAT_START + 8) && !(ROOT_START <= s < DATA_START)
      ensures after[s] == before[s]
    {
      if s < 40 { InfoDoneAt(before, after, fat, root, s); }
    }
  }

  /** Blocks written back as they were leave the disk as it was. */
  lemma SameDisk(before: seq<Sector>, after: seq<Sector>)
    requires |before| == DISK_SECTORS == |after|
    requires forall k :: 0 <= k < 5 ==> BlockOf(after, k) == BlockOf(before, k)
    requires forall s :: 40 <= s < DISK_SECTORS ==> after[s] == before[s]
    ensures after == before
  {
    forall s: nat | s < 40 ensures after[s] == before[s] {
      SectorOfBlock(before, s / 8, s % 8);
      SectorOfBlock(after, s / 8, s % 8);
    }
  }

  lemma InfoReadFat(disk: seq<Sector>, fat: seq<Byte>, k: nat)
    requires |disk| == DISK_SECTORS && k < 8
    requires fat == BlockOf(disk, 0)[512..] + BlockOf(disk, 1)[..512]
    ensures disk[FAT_START + k] == fat[k * SECTOR_SIZE..(k + 1) * SECTOR_SIZE]
  {
    if k < 7 {
      SectorOfBlock(disk, 0, k + 1);
      assert fat[k * SECTOR_SIZE..(k + 1) * SECTOR_SIZE] == SectorIn(BlockOf(disk, 0), k + 1);
    } else {
      SectorOfBlock(disk, 1, 0);
      assert fat[k * SECTOR_SIZE..(k + 1) * SECTOR_SIZE] == SectorIn(BlockOf(disk, 1), 0);
    }
  }

  lemma InfoReadRoot(disk: seq<Sector>, root: seq<Byte>, k: nat)
    requires |disk| == DISK_SECTORS && k < 14
    requires root == BlockOf(disk, 2)[1536..] + BlockOf(disk, 3) + BlockOf(disk, 4)[..512]
    ensures disk[ROOT_START + k] == root[k * SECTOR_SIZE..(k + 1) * SECTOR_SIZE]
  {
    if k < 5 {
      SectorOfBlock(disk, 2, k + 3);
      assert root[k * SECTOR_SIZE..(k + 1) * SECTOR_SIZE] == SectorIn(BlockOf(disk, 2), k + 3);
    } else if k < 13 {
      SectorOfBlock(disk, 3, k - 5);
      assert root[k * SECTOR_SIZE..(k + 1) * SECTOR_SIZE] == SectorIn(BlockOf(disk, 3), k - 5);
    } else {
      SectorOfBlock(disk, 4, 0);
      assert root[k * SECTOR_SIZE..(k + 1) * SECTOR_SIZE] == SectorIn(BlockOf(disk, 4), 0);
    }
  }

  /** What fat12_set_info reads back from the five blocks is what the disk holds. */
  lemma InfoRead(disk: seq<Sector>, fat: seq<Byte>, root: seq<Byte>)
    requires |disk| == DISK_SECTORS
    requires fat == BlockOf(disk, 0)[512..] + BlockOf(disk, 1)[..512]
    requires root == BlockOf(disk, 2)[1536..] + BlockOf(disk, 3) + BlockOf(disk, 4)[..512]
    ensures OnDiskNow(disk, fat, root)
  {
    forall k | 0 <= k < 8 ensures disk[FAT_START + k] == fat[k * SECTOR_SIZE..(k + 1) * SECTOR_SIZE] {
      InfoReadFat(disk, fat, k);
    }
    forall k | 0 <= k < 14 ensures disk[ROOT_START + k] == root[k * SECTOR_SIZE..(k + 1) * SECTOR_SIZE] {
      InfoReadRoot(disk, root, k);
    }
  }

  // ------------------------------------------------------------------ the volume as a map of files

  ghost function Names(slots: seq<seq<Byte>>): set<seq<Byte>>
    requires |slots| == SLOTS && (forall s :: 0 <= s < SLOTS ==> |slots[s]| == SLOT_SIZE)
  {
    set s | 0 <= s < SLOTS && Live(slots[s]) :: Name(slots[s])
  }

  /** The bytes of one file: its chain's sectors, cut to its size. */
  ghost function Content(disk: seq<Sector>, slot: seq<Byte>, chain: seq<nat>): (r: seq<Byte>)
    requires |disk| == DISK_SECTORS && |slot| == SLOT_SIZE && (forall i :: 0 <= i < |chain| ==> chain[i] < FAT_ENTRIES)
    requires |chain| == Size(slot) / SECTOR_SIZE + 1
    ensures |r| == Size(slot)
  {
    Raw(disk, chain)[..Size(slot)]
  }

  /** Byte i of a file lies in the sector of the chain's cluster i / 512: cluster 2 is sector 33. */
  lemma ContentAt(disk: seq<Sector>, slot: seq<Byte>, chain: seq<nat>, i: nat)
    requires |disk| == DISK_SECTORS && |slot| == SLOT_SIZE && (forall k :: 0 <= k < |chain| ==> chain[k] < FAT_ENTRIES)
    requires |chain| == Size(slot) / SECTOR_SIZE + 1 && i < Size(slot)
    ensures i / 512 < |chain| && Content(disk, slot, chain)[i] == disk[33 + chain[i / 512] - 2][i % 512]
  {
    var k := i / SECTOR_SIZE;
    RawSector(disk, chain, k);
    assert disk[chain[k] + DATA_SHIFT][i - k * SECTOR_SIZE] == Raw(disk, chain)[k * SECTOR_SIZE..(k + 1) * SECTOR_SIZE][i - k * SECTOR_SIZE];
  }

  ghost function SlotNamed(slots: seq<seq<Byte>>, name: seq<Byte>): (s: nat)
    requires |slots| == SLOTS && (forall s :: 0 <= s < SLOTS ==> |slots[s]| == SLOT_SIZE)
    requires name in Names(slots)
    ensures s < SLOTS && Live(slots[s]) && Name(slots[s]) == name
  {
    var s :| 0 <= s < SLOTS && Live(slots[s]) && Name(slots[s]) == name;
    s
  }

  /** What the volume means: names mapped to byte strings. */
  ghost function Files(disk: seq<Sector>, t: seq<nat>, slots: seq<seq<Byte>>, chains: seq<seq<nat>>): (m: map<seq<Byte>, seq<Byte>>)
    requires |disk| == DISK_SECTORS && VolumeOk(t, slots, chains)
    ensures m.Keys == Names(slots)
  {
    map n | n in Names(slots) :: var s := SlotNamed(slots, n); Content(disk, slots[s], chains[s])
  }

  lemma FileAt(disk: seq<Sector>, t: seq<nat>, slots: seq<seq<Byte>>, chains: seq<seq<nat>>, s: nat)
    requires |disk| == DISK_SECTORS && VolumeOk(t, slots, chains) && s < SLOTS && Live(slots[s])
    ensures var m := Files(disk, t, slots, chains);
            Name(slots[s]) in m && m[Name(slots[s])] == Content(disk, slots[s], chains[s])
  {
    assert Name(slots[s]) in Names(slots);
    var r := SlotNamed(slots, Name(slots[s]));
    assert r != s ==> BothLive(slots, s, r);
  }

  /** Slot q has the same file on both volumes. */
  ghost predicate SameFile(disk: seq<Sector>, slots: seq<seq<Byte>>, chains: seq<seq<nat>>,
                           disk': seq<Sector>, slots': seq<seq<Byte>>, chains': seq<seq<nat>>, q: nat)
    requires |disk| == DISK_SECTORS == |disk'| && |slots| == SLOTS == |chains| && |slots'| == SLOTS == |chains'| && q < SLOTS
    requires |slots[q]| == SLOT_SIZE && (Live(slots[q]) ==> forall i :: 0 <= i < |chains[q]| ==> chains[q][i] < FAT_ENTRIES)
  {
    slots'[q] == slots[q] && chains'[q] == chains[q] && (Live(slots[q]) ==> Raw(disk', chains[q]) == Raw(disk, chains[q]))
  }

  /** A slot other than s has the same name and bytes in both maps, and not the name of slot s. */
  lemma OtherFile(disk: seq<Sector>, t: seq<nat>, slots: seq<seq<Byte>>, chains: seq<seq<nat>>,
                  disk': seq<Sector>, t': seq<nat>, slots': seq<seq<Byte>>, chains': seq<seq<nat>>, s: nat, q: nat)
    requires |disk| == DISK_SECTORS && VolumeOk(t, slots, chains)
    requires |disk'| == DISK_SECTORS && VolumeOk(t', slots', chains')
    requires s < SLOTS && q < SLOTS && q != s && Live(slots[q]) && SameFile(disk, slots, chains, disk', slots', chains', q)
    ensures var n, m, m' := Name(slots[q]), Files(disk, t, slots, chains), Files(disk', t', slots', chains');
            && n in m && n in m' && m[n] == m'[n]
            && (Live(slots[s]) ==> n != Name(slots[s])) && (Live(slots'[s]) ==> n != Name(slots'[s]))
  {
    FileAt(disk, t, slots, chains, q);
    FileAt(disk', t', slots', chains', q);
    assert Live(slots[s]) ==> BothLive(slots, q, s);
    assert Live(slots'[s]) ==> BothLive(slots', q, s);
  }

  lemma MapMinus<X, Y>(m: map<X, Y>, m': map<X, Y>, x: X)
    requires x !in m' && forall n :: n != x ==> (n in m <==> n in m') && (n in m ==> m[n] == m'[n])
    ensures m' == m - {x}
  {
  }

  lemma MapPut<X, Y>(m: map<X, Y>, m': map<X, Y>, x: X)
    requires x in m' && forall n :: n != x ==> (n in m <==> n in m') && (n in m ==> m[n] == m'[n])
    ensures m' == m[x := m'[x]]
  {
  }

  ghost predicate OthersSame(disk: seq<Sector>, t: seq<nat>, slots: seq<seq<Byte>>, chains: seq<seq<nat>>,
                             disk': seq<Sector>, t': seq<nat>, slots': seq<seq<Byte>>, chains': seq<seq<nat>>, s: nat)
  {
    && |disk| == DISK_SECTORS && VolumeOk(t, slots, chains)
    && |disk'| == DISK_SECTORS && VolumeOk(t', slots', chains')
    && s < SLOTS && forall q :: 0 <= q < SLOTS && q != s ==> SameFile(disk, slots, chains, disk', slots', chains', q)
  }

  /** The name a slot gives to a file, if it is in use. */
  predicate Names8(r: seq<Byte>, n: seq<Byte>)
    requires |r| == SLOT_SIZE
  {
    Live(r) && Name(r) == n
  }

  /** When every slot but s keeps its file, the map of files is the same at every name slot s does not have. */
  lemma FilesElsewhere(disk: seq<Sector>, t: seq<nat>, slots: seq<seq<Byte>>, chains: seq<seq<nat>>,
                       disk': seq<Sector>, t': seq<nat>, slots': seq<seq<Byte>>, chains': seq<seq<nat>>, s: nat, n: seq<Byte>)
    requires OthersSame(disk, t, slots, chains, disk', t', slots', chains', s)
    requires !Names8(slots[s], n) && !Names8(slots'[s], n)
    ensures var m, m' := Files(disk, t, slots, chains), Files(disk', t', slots', chains');
            (n in m <==> n in m') && (n in m ==> m[n] == m'[n])
  {
    var m, m' := Files(disk, t, slots, chains), Files(disk', t', slots', chains');
    if n in m {
      OtherFile(disk, t, slots, chains, disk', t', slots', chains', s, SlotNamed(slots, n));
    } else if n in m' {
      var q := SlotNamed(slots', n);
      assert SameFile(disk, slots, chains, disk', slots', chains', q);
      OtherFile(disk, t, slots, chains, disk', t', slots', chains', s, q);
    }
  }

  /** A file removed from slot s leaves no file of its name. */
  lemma FilesLost(disk: seq<Sector>, t: seq<nat>, slots: seq<seq<Byte>>, chains: seq<seq<nat>>,
                  disk': seq<Sector>, t': seq<nat>, slots': seq<seq<Byte>>, chains': seq<seq<nat>>, s: nat)
    requires OthersSame(disk, t, slots, chains, disk', t', slots', chains', s)
    requires Live(slots[s]) && !Live(slots'[s])
    ensures Name(slots[s]) !in Files(disk', t', slots', chains')
  {
    if Name(slots[s]) in Names(slots') {
      var q := SlotNamed(slots', Name(slots[s]));
      assert SameFile(disk, slots, chains, disk', slots', chains', q);
      assert BothLive(slots, s, q);
    }
  }

  lemma FilesGone(disk: seq<Sector>, t: seq<nat>, slots: seq<seq<Byte>>, chains: seq<seq<nat>>,
                  disk': seq<Sector>, t': seq<nat>, slots': seq<seq<Byte>>, chains': seq<seq<nat>>, s: nat)
    requires OthersSame(disk, t, slots, chains, disk', t', slots', chains', s)
    requires Live(slots[s]) && !Live(slots'[s])
    ensures Files(disk', t', slots', chains') == Files(disk, t, slots, chains) - {Name(slots[s])}
  {
    var m, m' := Files(disk, t, slots, chains), Files(disk', t', slots', chains');
    FilesLost(disk, t, slots, chains, disk', t', slots', chains', s);
    forall n | n != Name(slots[s]) ensures (n in m <==> n in m') && (n in m ==> m[n] == m'[n]) {
      FilesElsewhere(disk, t, slots, chains, disk', t', slots', chains', s, n);
    }
    MapMinus(m, m', Name(slots[s]));
  }

  /** A file created in slot s, or changed there, changes the map at its name only. */
  lemma FilesPut(disk: seq<Sector>, t: seq<nat>, slots: seq<seq<Byte>>, chains: seq<seq<nat>>,
                 disk': seq<Sector>, t': seq<nat>, slots': seq<seq<Byte>>, chains': seq<seq<nat>>, s: nat)
    requires OthersSame(disk, t, slots, chains, disk', t', slots', chains', s)
    requires Live(slots'[s]) && (Live(slots[s]) ==> Name(slots'[s]) == Name(slots[s]))
    ensures Files(disk', t', slots', chains')
         == Files(disk, t, slots, chains)[Name(slots'[s]) := Content(disk', slots'[s], chains'[s])]
  {
    var m, m' := Files(disk, t, slots, chains), Files(disk', t', slots', chains');
    FileAt(disk', t', slots', chains', s);
    forall n | n != Name(slots'[s]) ensures (n in m <==> n in m') && (n in m ==> m[n] == m'[n]) {
      FilesElsewhere(disk, t, slots, chains, disk', t', slots', chains', s, n);
    }
    MapPut(m, m', Name(slots'[s]));
  }

  // ------------------------------------------------------------------ create

  /** Every slot is in use. */
  ghost predicate RootFull(slots: seq<seq<Byte>>)
    requires |slots| == SLOTS && (forall s :: 0 <= s < SLOTS ==> |slots[s]| == SLOT_SIZE)
  {
    forall s :: 0 <= s < SLOTS ==> Live(slots[s])
  }

  /** Create does nothing: the name is taken or there is no slot left. */
  ghost predicate Refused(slots: seq<seq<Byte>>, name: seq<Byte>)
    requires |slots| == SLOTS && (forall s :: 0 <= s < SLOTS ==> |slots[s]| == SLOT_SIZE)
  {
    name in Names(slots) || RootFull(slots)
  }

  /** A slot with the name of a file is in use. */
  lemma NamedIsLive(slots: seq<seq<Byte>>, filename: seq<Byte>)
    requires |slots| == SLOTS && (forall s :: 0 <= s < SLOTS ==> |slots[s]| == SLOT_SIZE)
    requires 0 !in filename
    ensures forall s :: 0 <= s < SLOTS && Name(slots[s]) == ShortName(filename) ==> Live(slots[s])
    ensures ShortName(filename) in Names(slots) <==> exists s :: 0 <= s < SLOTS && Name(slots[s]) == ShortName(filename)
  {
    ShortNameNoNul(filename);
    forall s | 0 <= s < SLOTS && Name(slots[s]) == ShortName(filename) ensures Live(slots[s]) {
      assert slots[s][0] == Name(slots[s])[0];
      assert ShortName(filename)[0] in ShortName(filename);
    }
  }

  lemma SameTableFiles(disk: seq<Sector>, t: seq<nat>, slots: seq<seq<Byte>>, chains: seq<seq<nat>>,
                       t': seq<nat>, slots': seq<seq<Byte>>, chains': seq<seq<nat>>, s: nat)
    requires |disk| == DISK_SECTORS && VolumeOk(t, slots, chains) && VolumeOk(t', slots', chains') && s < SLOTS
    requires forall q :: 0 <= q < SLOTS && q != s ==> slots'[q] == slots[q] && chains'[q] == chains[q]
    ensures OthersSame(disk, t, slots, chains, disk, t', slots', chains', s)
  {
    forall q | 0 <= q < SLOTS && q != s ensures SameFile(disk, slots, chains, disk, slots', chains', q) {
    }
  }

  /** With a free entry, create adds an empty file. */
  lemma CreateAdds(disk: seq<Sector>, t: seq<nat>, slots: seq<seq<Byte>>, chains: seq<seq<nat>>, s: nat, e: nat, filename: seq<Byte>)
    requires |disk| == DISK_SECTORS && VolumeOk(t, slots, chains) && s < SLOTS && !Live(slots[s])
    requires e < FAT_ENTRIES && t[e] == 0 && 0 !in filename && |filename| <= SLOT_SIZE && ShortName(filename) !in Names(slots)
    ensures var t', slots', chains' := t[e := END_MARK], slots[s := NewSlot(slots[s], filename, e)], chains[s := [e]];
            VolumeOk(t', slots', chains') && Files(disk, t', slots', chains') == Files(disk, t, slots, chains)[ShortName(filename) := []]
  {
    var r := NewSlot(slots[s], filename, e);
    NewSlotReads(slots[s], filename, e);
    forall q | 0 <= q < SLOTS && Live(slots[q]) ensures Name(slots[q]) != Name(r) {
      assert Name(slots[q]) in Names(slots);
    }
    CreateKeeps(t, slots, chains, s, e, r);
    SameTableFiles(disk, t, slots, chains, t[e := END_MARK], slots[s := r], chains[s := [e]], s);
    FilesPut(disk, t, slots, chains, disk, t[e := END_MARK], slots[s := r], chains[s := [e]], s);
  }

  /** No choice of chains makes the table and the slots a sound volume. */
  ghost predicate NoChains(t: seq<nat>, slots: seq<seq<Byte>>) {
    forall c: seq<seq<nat>> :: !VolumeOk(t, slots, c)
  }

  /** Without one, the slot it writes has no chain whatever the chains are. */
  lemma CreateBreaks(t: seq<nat>, slots: seq<seq<Byte>>, s: nat, filename: seq<Byte>)
    requires |slots| == SLOTS && (forall q :: 0 <= q < SLOTS ==> |slots[q]| == SLOT_SIZE)
    requires s < SLOTS && 0 !in filename && |filename| <= SLOT_SIZE
    ensures NoChains(t, slots[s := NewSlot(slots[s], filename, 0xffff)])
  {
    NewSlotReads(slots[s], filename, 0xffff);
    var slots' := slots[s := NewSlot(slots[s], filename, 0xffff)];
    assert Live(slots'[s]) && Cluster(slots'[s]) == 0xffff;
  }

  /** A table in which all usable entries are one chain. */
  function FullTable(): (t: seq<nat>)
    ensures |t| == FAT_ENTRIES && forall i :: 0 <= i < FAT_ENTRIES ==> t[i] == if i < 2 || i == FAT_ENTRIES - 1 then END_MARK else i + 1
  {
    seq(FAT_ENTRIES, i => if i < 2 || i == FAT_ENTRIES - 1 then END_MARK else i + 1)
  }

  /** The slot of the file A that owns that chain. */
  function FullSlot(): (r: seq<Byte>)
    ensures |r| == SLOT_SIZE
  {
    Store32(NewSlot(seq(SLOT_SIZE, _ => 0), [65], 2), 28, (FAT_ENTRIES - 3) * SECTOR_SIZE)
  }

  function FullRoot(): (root: seq<Byte>)
    ensures |root| == ROOT_BYTES
  {
    Patch(seq(ROOT_BYTES, _ => 0), 0, FullSlot())
  }

  function FullChains(): (chains: seq<seq<nat>>)
    ensures |chains| == SLOTS && forall s :: 0 <= s < SLOTS ==> chains[s] == if s == 0 then FullChain() else []
  {
    seq(SLOTS, s => if s == 0 then FullChain() else [])
  }

  function FullChain(): (c: seq<nat>)
    ensures |c| == FAT_ENTRIES - 2 && forall i :: 0 <= i < |c| ==> c[i] == i + 2
  {
    seq(FAT_ENTRIES - 2, i => i + 2)
  }

  lemma FullSlotReads()
    ensures var r := FullSlot();
            Live(r) && Name(r) == ShortName([65]) && Cluster(r) == 2 && Size(r) == (FAT_ENTRIES - 3) * SECTOR_SIZE
  {
    var r := NewSlot(seq(SLOT_SIZE, _ => 0), [65], 2);
    NewSlotReads(seq(SLOT_SIZE, _ => 0), [65], 2);
    Store32Reads(r, (FAT_ENTRIES - 3) * SECTOR_SIZE);
  }

  lemma FullSlots(s: nat)
    requires s < SLOTS
    ensures Slots(FullRoot())[s] == if s == 0 then FullSlot() else seq(SLOT_SIZE, _ => 0)
    ensures Live(Slots(FullRoot())[s]) <==> s == 0
  {
    SlotsPatch(seq(ROOT_BYTES, _ => 0), 0, FullSlot());
    FullSlotReads();
  }

  lemma FullChainOk()
    ensures IsChain(FullTable(), FullChain())
  {
    forall i | 0 <= i < |FullChain()| ensures Link(FullTable(), FullChain(), i) {
    }
  }

  lemma FullVolume()
    ensures VolumeOk(FullTable(), Slots(FullRoot()), FullChains()) && !Refused(Slots(FullRoot()), ShortName([66]))
  {
    var slots := Slots(FullRoot());
    FullSlotReads();
    FullSlots(0);
    FullChainOk();
    forall s: nat | s < SLOTS ensures Live(slots[s]) <==> s == 0 { FullSlots(s); }
    assert !Live(slots[1]);
    assert ShortName([65])[0] == 65 && ShortName([66])[0] == 66;
  }

  /** A disk that one file fills: create finds 223 slots but no cluster for a second one. */
  lemma FullDisk()
    ensures var t, slots := Entries(Packed(FullTable(), FAT_ENTRIES)), Slots(FullRoot());
            VolumeOk(t, slots, FullChains()) && Zeros(t) == {} && !Refused(slots, ShortName([66]))
  {
    PackedEntries(FullTable());
    FullVolume();
  }

  // ------------------------------------------------------------------ remove

  lemma ClearedStep(t: seq<nat>, c: seq<nat>, k: nat)
    requires IsChain(t, c) && k < |c|
    ensures ChainCleared(t, c[..k])[c[k]] == t[c[k]]
    ensures ChainCleared(t, c[..k])[c[k] := 0] == ChainCleared(t, c[..k + 1])
    ensures k == |c| - 1 <==> t[c[k]] >= END_MARK
    ensures k < |c| - 1 ==> t[c[k]] == c[k + 1]
  {
    assert c[..k + 1] == c[..k] + [c[k]];
    assert Link(t, c, k);
  }

  /** Removing a file frees exactly its chain, and takes exactly its name off the volume. */
  lemma RemoveTakes(disk: seq<Sector>, t: seq<nat>, slots: seq<seq<Byte>>, chains: seq<seq<nat>>, s: nat, r: seq<Byte>)
    requires |disk| == DISK_SECTORS && VolumeOk(t, slots, chains) && s < SLOTS && Live(slots[s])
    requires |r| == SLOT_SIZE && !Live(r)
    ensures var t', slots', chains' := ChainCleared(t, chains[s]), slots[s := r], chains[s := []];
            VolumeOk(t', slots', chains')
            && Files(disk, t', slots', chains') == Files(disk, t, slots, chains) - {Name(slots[s])}
  {
    RemoveKeeps(t, slots, chains, s, r);
    SameTableFiles(disk, t, slots, chains, ChainCleared(t, chains[s]), slots[s := r], chains[s := []], s);
    FilesGone(disk, t, slots, chains, disk, ChainCleared(t, chains[s]), slots[s := r], chains[s := []], s);
  }

  /** The entries a removal frees. */
  lemma ClearedZeros(t: seq<nat>, c: seq<nat>)
    requires IsChain(t, c)
    ensures Zeros(ChainCleared(t, c)) == Zeros(t) + Members(c) && Zeros(t) !! Members(c)
  {
    ChainUsed(t, c);
  }

  /** No slot before `upto` has the name. */
  ghost predicate Absent(slots: seq<seq<Byte>>, name: seq<Byte>, upto: nat)
    requires |slots| == SLOTS && (forall s :: 0 <= s < SLOTS ==> |slots[s]| == SLOT_SIZE) && upto <= SLOTS
  {
    forall q :: 0 <= q < upto ==> Name(slots[q]) != name
  }

  /** What fat12_create_aux has done to the buffers: one unused slot filled, and one unused entry marked. */
  ghost predicate Created(filename: seq<Byte>, t: seq<nat>, slots: seq<seq<Byte>>, chains: seq<seq<nat>>,
                          t': seq<nat>, slots': seq<seq<Byte>>, chains': seq<seq<nat>>) {
    exists j: nat, e: nat :: CreatedAt(filename, t, slots, chains, t', slots', chains', j, e)
  }

  ghost predicate CreatedAt(filename: seq<Byte>, t: seq<nat>, slots: seq<seq<Byte>>, chains: seq<seq<nat>>,
                            t': seq<nat>, slots': seq<seq<Byte>>, chains': seq<seq<nat>>, j: nat, e: nat) {
    && j < SLOTS == |slots| == |chains| && |slots[j]| == SLOT_SIZE && |filename| <= SLOT_SIZE && e < FAT_ENTRIES == |t|
    && !Live(slots[j]) && (forall q :: 0 <= q < j ==> |slots[q]| == SLOT_SIZE && Live(slots[q]))
    && t[e] == 0 && (forall i :: 0 <= i < e ==> t[i] != 0)
    && t' == t[e := END_MARK] && slots' == slots[j := NewSlot(slots[j], filename, e)] && chains' == chains[j := [e]]
  }

  /** What fat12_create_aux has done to the files and the buffers, when there is an entry left. */
  ghost predicate CreatedIfRoom(filename: seq<Byte>, disk: seq<Sector>, t: seq<nat>, slots: seq<seq<Byte>>, chains: seq<seq<nat>>,
                                t': seq<nat>, slots': seq<seq<Byte>>, chains': seq<seq<nat>>)
    requires |disk| == DISK_SECTORS && VolumeOk(t, slots, chains) && VolumeOk(t', slots', chains')
  {
    var m, m' := Files(disk, t, slots, chains), Files(disk, t', slots', chains');
    if Refused(slots, ShortName(filename)) then t' == t && slots' == slots && m' == m
    else m' == m[ShortName(filename) := []] && Created(filename, t, slots, chains, t', slots', chains')
  }

  /** What fat12_remove_aux has done to the buffers once the file's slot is found. */
  ghost predicate Removed(name: seq<Byte>, t: seq<nat>, slots: seq<seq<Byte>>, chains: seq<seq<nat>>,
                          t': seq<nat>, slots': seq<seq<Byte>>) {
    && VolumeOk(t, slots, chains) && name in Names(slots) &&
    var s := SlotNamed(slots, name);
    && t' == ChainCleared(t, chains[s]) && slots' == slots[s := seq(SLOT_SIZE, _ => 0)] && Absent(slots', name, SLOTS)
    && Zeros(t') == Zeros(t) + Members(chains[s]) && Zeros(t) !! Members(chains[s])
  }

  /** A file that was just created owns one entry, and gives it back. */
  lemma CreatedIsUndone(filename: seq<Byte>, t: seq<nat>, slots: seq<seq<Byte>>, chains: seq<seq<nat>>,
                        t1: seq<nat>, slots1: seq<seq<Byte>>, chains1: seq<seq<nat>>)
    requires 0 !in filename && VolumeOk(t1, slots1, chains1)
    requires Created(filename, t, slots, chains, t1, slots1, chains1)
    ensures ShortName(filename) in Names(slots1) && ChainCleared(t1, chains1[SlotNamed(slots1, ShortName(filename))]) == t
  {
    var j: nat, e: nat :| CreatedAt(filename, t, slots, chains, t1, slots1, chains1, j, e);
    NewSlotReads(slots[j], filename, e);
    assert Name(slots1[j]) in Names(slots1);
    var s := SlotNamed(slots1, ShortName(filename));
    assert s != j ==> BothLive(slots1, s, j);
    assert chains1[s] == [e];
  }

  /** Removing the name that was just created, or that the full root had no room for. */
  lemma TableIsBack(filename: seq<Byte>, disk: seq<Sector>, t: seq<nat>, slots: seq<seq<Byte>>, chains: seq<seq<nat>>,
                    t1: seq<nat>, slots1: seq<seq<Byte>>, chains1: seq<seq<nat>>, t2: seq<nat>, slots2: seq<seq<Byte>>)
    requires 0 !in filename && VolumeOk(t, slots, chains) && VolumeOk(t1, slots1, chains1) && ShortName(filename) !in Names(slots)
    requires |disk| == DISK_SECTORS && CreatedIfRoom(filename, disk, t, slots, chains, t1, slots1, chains1)
    requires RemovedIfThere(ShortName(filename), t1, slots1, chains1, t2, slots2)
    ensures t2 == t
  {
    if !RootFull(slots) { CreatedIsUndone(filename, t, slots, chains, t1, slots1, chains1); }
  }

  /** What fat12_remove_aux has done to the buffers, whether there is such a file or not. */
  ghost predicate RemovedIfThere(name: seq<Byte>, t: seq<nat>, slots: seq<seq<Byte>>, chains: seq<seq<nat>>,
                                 t': seq<nat>, slots': seq<seq<Byte>>)
    requires VolumeOk(t, slots, chains)
  {
    if name in Names(slots) then Removed(name, t, slots, chains, t', slots') else t' == t && slots' == slots
  }

  /** The same, with what it has done to the files. */
  ghost predicate RemovedFrom(name: seq<Byte>, disk: seq<Sector>, t: seq<nat>, slots: seq<seq<Byte>>, chains: seq<seq<nat>>,
                              t': seq<nat>, slots': seq<seq<Byte>>, chains': seq<seq<nat>>) {
    && |disk| == DISK_SECTORS && VolumeOk(t, slots, chains) && VolumeOk(t', slots', chains')
    && Files(disk, t', slots', chains') == Files(disk, t, slots, chains) - {name}
    && RemovedIfThere(name, t, slots, chains, t', slots')
  }

  lemma AbsentMembers(slots: seq<seq<Byte>>, name: seq<Byte>)
    requires |slots| == SLOTS && (forall s :: 0 <= s < SLOTS ==> |slots[s]| == SLOT_SIZE)
    ensures Absent(slots, name, SLOTS) ==> name !in Names(slots)
    ensures Absent(slots, name, SLOTS) ==> forall k: nat :: k <= SLOTS ==> Absent(slots, name, k)
  {
  }

  lemma AbsentNowhere(slots: seq<seq<Byte>>, name: seq<Byte>)
    requires |slots| == SLOTS && (forall s :: 0 <= s < SLOTS ==> |slots[s]| == SLOT_SIZE) && Absent(slots, name, SLOTS)
    ensures name !in Names(slots)
  {
  }

  /** Names are unique: once its slot is zeroed, no slot has the name, and it was the slot of that name. */
  lemma AbsentPast(t: seq<nat>, slots: seq<seq<Byte>>, chains: seq<seq<nat>>, filename: seq<Byte>, s: nat)
    requires Linked(t, slots, chains) && 0 !in filename && s < SLOTS && Name(slots[s]) == ShortName(filename)
    ensures Live(slots[s]) && Absent(slots[s := seq(SLOT_SIZE, _ => 0)], ShortName(filename), SLOTS)
    ensures ShortName(filename) in Names(slots) && s == SlotNamed(slots, ShortName(filename))
  {
    ZerosUnnamed(filename);
    NamedIsLive(slots, filename);
    forall q | 0 <= q < SLOTS && q != s ensures Name(slots[q]) != ShortName(filename) {
      if Name(slots[q]) == ShortName(filename) { assert BothLive(slots, s, q); }
    }
  }

  lemma MapBack<X, Y>(m: map<X, Y>, m1: map<X, Y>, m2: map<X, Y>, x: X, y: Y)
    requires x !in m && (m1 == m || m1 == m[x := y]) && m2 == m1 - {x}
    ensures m2 == m
  {
  }

  lemma MapWithout<X, Y>(m: map<X, Y>, x: X)
    requires x !in m
    ensures m - {x} == m
  {
  }

  /** A slot full of zeros has no file's name. */
  lemma ZerosUnnamed(filename: seq<Byte>)
    requires 0 !in filename
    ensures Name(seq(SLOT_SIZE, _ => 0)) != ShortName(filename)
  {
    ShortNameNoNul(filename);
    assert Name(seq(SLOT_SIZE, _ => 0))[0] == 0 && ShortName(filename)[0] in ShortName(filename);
  }

  // ------------------------------------------------------------------ resize

  /** Rewriting the size of a slot changes no link, name or cluster. */
  lemma ResizeLinked(t: seq<nat>, slots: seq<seq<Byte>>, chains: seq<seq<nat>>, s: nat, size: nat)
    requires Linked(t, slots, chains) && s < SLOTS && Live(slots[s]) && size < 0x1_0000_0000
    ensures Linked(t, slots[s := Store32(slots[s], 28, size)], chains)
    ensures Size(Store32(slots[s], 28, size)) == size && Live(Store32(slots[s], 28, size))
    ensures Name(Store32(slots[s], 28, size)) == Name(slots[s])
  {
    Store32Reads(slots[s], size);
    var slots' := slots[s := Store32(slots[s], 28, size)];
    forall q, r | BothLive(slots', q, r) ensures BothLive(slots, q, r) {
    }
  }

  ghost predicate LowestZero(t: seq<nat>, e: int) {
    forall x :: x in Zeros(t) ==> e <= x
  }

  /** In order, and below all that are left. */
  ghost predicate LowestFirst(added: seq<nat>, left: set<nat>) {
    && (forall i, y :: 0 <= i < |added| && y in left ==> added[i] < y)
    && (forall i, j :: 0 <= i < j < |added| ==> added[i] < added[j])
  }

  /** The end of the chain of slot s in t, linked to e. */
  ghost function Extended(t: seq<nat>, c: seq<nat>, e: nat): (r: seq<nat>)
    requires IsChain(t, c) && e < FAT_ENTRIES
    ensures |r| == |t|
  {
    t[e := END_MARK][c[|c| - 1] := e]
  }

  /**
   What one turn of the allocation loop of resize writes: a new end, or without a free entry get_free_fat_entry's -1,
   which is an end mark in the entry of the last cluster.
   */
  ghost predicate NewLink(t: seq<nat>, c: seq<nat>, next: int, t': seq<nat>)
    requires IsChain(t, c)
  {
    && (next == -1 <==> Zeros(t) == {})
    && if next == -1 then t' == t[c[|c| - 1] := 0xfff] else next in Zeros(t) && LowestZero(t, next) && t' == Extended(t, c, next)
  }

  /** What resize keeps from one new cluster to the next. */
  ghost predicate Growing(t0: seq<nat>, c0: seq<nat>, t: seq<nat>, slots: seq<seq<Byte>>, chains: seq<seq<nat>>, s: nat, added: seq<nat>)
    requires s < SLOTS
  {
    && |t0| == FAT_ENTRIES && IsChain(t0, c0) && Linked(t, slots, chains) && Live(slots[s]) && chains[s] == c0 + added
    && (forall x :: x in added ==> x in Zeros(t0))
    && Zeros(t) == Zeros(t0) - Members(added)
    && forall x: nat :: x < FAT_ENTRIES && x !in c0 && x !in added ==> t[x] == t0[x]
  }

  lemma GrowStep(t0: seq<nat>, c0: seq<nat>, t: seq<nat>, slots: seq<seq<Byte>>, chains: seq<seq<nat>>, s: nat, added: seq<nat>, e: nat)
    requires s < SLOTS && Growing(t0, c0, t, slots, chains, s, added) && e in Zeros(t)
    ensures var t' := Extended(t, chains[s], e);
            && Growing(t0, c0, t', slots, chains[s := chains[s] + [e]], s, added + [e])
            && Zeros(t') == Zeros(t) - {e} && |Zeros(t')| == |Zeros(t)| - 1
  {
    var c := chains[s];
    var t' := Extended(t, c, e);
    GrowKeeps(t, slots, chains, s, e);
    ChainUsed(t, c);
    assert c[|c| - 1] in c;
    assert Zeros(t') == Zeros(t) - {e};
    assert Members(added + [e]) == Members(added) + {e};
    assert c + [e] == c0 + (added + [e]);
  }

  /** The end mark that get_free_fat_entry's -1 leaves in the last entry is an end mark like any other. */
  lemma GrowEnds(t0: seq<nat>, c0: seq<nat>, t: seq<nat>, slots: seq<seq<Byte>>, chains: seq<seq<nat>>, s: nat, added: seq<nat>)
    requires s < SLOTS && Growing(t0, c0, t, slots, chains, s, added)
    ensures Growing(t0, c0, t[chains[s][|chains[s]| - 1] := 0xfff], slots, chains, s, added)
    ensures Zeros(t[chains[s][|chains[s]| - 1] := 0xfff]) == Zeros(t)
  {
    var c := chains[s];
    var last := c[|c| - 1];
    var t' := t[last := 0xfff];
    ChainUsed(t, c);
    assert last in c && (last in c0 || last in added);
    assert Zeros(t') == Zeros(t);
    forall q | 0 <= q < SLOTS && Live(slots[q]) ensures IsChain(t', chains[q]) {
      forall i | 0 <= i < |chains[q]| ensures Link(t', chains[q], i) {
        assert Link(t, chains[q], i);
        assert chains[q][i] in chains[q];
        if q != s { assert BothLive(slots, q, s); }
      }
    }
  }

  /** Of the free clusters the lowest one comes next. */
  lemma LowestAdded(added: seq<nat>, left: set<nat>, next: int, added': seq<nat>, left': set<nat>)
    requires LowestFirst(added, left)
    requires if next == -1 then added' == added && left' == left
             else next in left && (forall x :: x in left ==> next <= x) && added' == added + [next] && left' == left - {next}
    ensures LowestFirst(added', left')
  {
  }

  /** One turn of the allocation loop of resize, with get_free_fat_entry's result as it is. */
  lemma GrowOnce(t0: seq<nat>, c0: seq<nat>, t: seq<nat>, slots: seq<seq<Byte>>, chains: seq<seq<nat>>, s: nat, added: seq<nat>,
                 next: int, t': seq<nat>, chains': seq<seq<nat>>, added': seq<nat>)
    requires s < SLOTS && Growing(t0, c0, t, slots, chains, s, added)
    requires NewLink(t, chains[s], next, t')
    requires if next == -1 then chains' == chains && added' == added
             else chains' == chains[s := chains[s] + [next]] && added' == added + [next]
    ensures Growing(t0, c0, t', slots, chains', s, added')
    ensures Zeros(t') == if next == -1 then Zeros(t) else Zeros(t) - {next}
    ensures |Zeros(t')| == |Zeros(t)| - (if next == -1 then 0 else 1)
  {
    if next == -1 {
      GrowEnds(t0, c0, t, slots, chains, s, added);
    } else {
      GrowStep(t0, c0, t, slots, chains, s, added, next);
    }
  }

  /** What the allocation loop of resize has done after i turns, the last of which found no free entry if `short`. */
  ghost predicate Turns(t0: seq<nat>, was: seq<seq<nat>>, t: seq<nat>, slots: seq<seq<Byte>>, chains: seq<seq<nat>>, s: nat,
                        added: seq<nat>, i: int, short: bool, cluster: int) {
    && s < SLOTS == |was| && Growing(t0, was[s], t, slots, chains, s, added)
    && chains == was[s := chains[s]] && |Zeros(t)| == |Zeros(t0)| - |added| && LowestFirst(added, Zeros(t))
    && (!short ==> |added| == i && cluster == chains[s][|chains[s]| - 1])
    && (short ==> |added| == |Zeros(t0)| == i - 1)
  }

  lemma TurnsChain(t0: seq<nat>, was: seq<seq<nat>>, t: seq<nat>, slots: seq<seq<Byte>>, chains: seq<seq<nat>>, s: nat,
                   added: seq<nat>, i: int, cluster: int)
    requires Turns(t0, was, t, slots, chains, s, added, i, false, cluster)
    ensures |chains| == SLOTS && s < SLOTS && IsChain(t, chains[s]) && cluster == chains[s][|chains[s]| - 1] >= 0
  {
  }

  /** The new clusters, and the chains, after a turn that found `next`, or -1. */
  ghost function AddedWith(added: seq<nat>, next: int): seq<nat> {
    if next < 0 then added else added + [next]
  }

  ghost function ChainsWith(chains: seq<seq<nat>>, s: nat, next: int): seq<seq<nat>>
    requires s < |chains|
  {
    if next < 0 then chains else chains[s := chains[s] + [next]]
  }

  lemma TurnsGoOn(t0: seq<nat>, was: seq<seq<nat>>, t: seq<nat>, slots: seq<seq<Byte>>, chains: seq<seq<nat>>, s: nat,
                  added: seq<nat>, i: int, last: int, next: int, t': seq<nat>)
    requires Turns(t0, was, t, slots, chains, s, added, i, false, last)
    requires NewLink(t, chains[s], next, t')
    ensures Turns(t0, was, t', slots, ChainsWith(chains, s, next), s, AddedWith(added, next), i + 1, next == -1, next)
  {
    var added', chains' := AddedWith(added, next), ChainsWith(chains, s, next);
    GrowOnce(t0, was[s], t, slots, chains, s, added, next, t', chains', added');
    LowestAdded(added, Zeros(t), next, added', Zeros(t'));
  }

  /** A chain that is too short for the size leaves no choice of chains: a chain is determined by its first cluster. */
  lemma ShortBreaks(t: seq<nat>, slots: seq<seq<Byte>>, chains: seq<seq<nat>>, s: nat)
    requires Linked(t, slots, chains) && s < SLOTS && Live(slots[s]) && |chains[s]| != Size(slots[s]) / SECTOR_SIZE + 1
    ensures NoChains(t, slots)
  {
    forall c: seq<seq<nat>> | VolumeOk(t, slots, c) ensures false {
      ChainUnique(t, c[s], chains[s]);
    }
  }

  /** The clusters a file of `size` bytes still needs for a range that ends at `end`. */
  function NewClusters(size: nat, end: nat): nat {
    if end > size then end / SECTOR_SIZE - size / SECTOR_SIZE else 0
  }

  /**
   On the disk that one file fills, one more sector for that file: its size says 2729 sectors, and its chain has 2728
   and ends with the mark that get_free_fat_entry's -1 leaves.
   */
  lemma FullDiskTooShort()
    ensures var t, slots := FullTable(), Slots(FullRoot());
            NoChains(t[FAT_ENTRIES - 1 := 0xfff], slots[0 := Store32(slots[0], 28, (FAT_ENTRIES - 2) * SECTOR_SIZE)])
  {
    var t, slots, c := FullTable(), Slots(FullRoot()), FullChains();
    var size := (FAT_ENTRIES - 2) * SECTOR_SIZE;
    var slots' := slots[0 := Store32(slots[0], 28, size)];
    FullVolume();
    FullSlots(0);
    ResizeLinked(t, slots, c, 0, size);
    assert Growing(t, c[0], t, slots', c, 0, []);
    GrowEnds(t, c[0], t, slots', c, 0, []);
    ShortBreaks(t[FAT_ENTRIES - 1 := 0xfff], slots', c, 0);
  }

  lemma SectorsNeeded(a: nat, b: nat)
    ensures (a + SECTOR_SIZE) / SECTOR_SIZE - (b + SECTOR_SIZE) / SECTOR_SIZE == a / SECTOR_SIZE - b / SECTOR_SIZE
  {
  }

  lemma GrowthDone(slots: seq<seq<Byte>>, chains: seq<seq<nat>>, s: nat, size: nat, chains': seq<seq<nat>>)
    requires |slots| == SLOTS == |chains| && (forall s :: 0 <= s < SLOTS ==> |slots[s]| == SLOT_SIZE) && Sized(slots, chains)
    requires s < SLOTS && Live(slots[s]) && size < 0x1_0000_0000 && |chains'| == SLOTS && chains' == chains[s := chains'[s]]
    requires |chains'[s]| == |chains[s]| + size / SECTOR_SIZE - Size(slots[s]) / SECTOR_SIZE
    ensures Sized(slots[s := Store32(slots[s], 28, size)], chains')
  {
    Store32Reads(slots[s], size);
  }

  // ------------------------------------------------------------------ reading and writing

  lemma SectorPatchedAt(before: seq<Sector>, after: seq<Sector>, sect: nat, at: nat, data: seq<Byte>, s: nat)
    requires |before| == DISK_SECTORS && sect < DISK_SECTORS && at + |data| <= SECTOR_SIZE
    requires BlockWritten(before, after, sect / 8, Patch(BlockOf(before, sect / 8), sect % 8 * SECTOR_SIZE + at, data))
    requires s < DISK_SECTORS && s / 8 == sect / 8
    ensures after[s] == if s == sect then Patch(before[s], at, data) else before[s]
  {
    var b := sect / 8;
    SectorHeld(before, b, s % 8, s);
    SectorHeld(after, b, s % 8, s);
    PatchSector(BlockOf(before, b), sect % 8, at, data, s % 8);
    assert sect == b * 8 + sect % 8;
  }

  lemma SectorHeld(disk: seq<Sector>, b: nat, k: nat, s: nat)
    requires OnDisk(disk, b) && k < BLOCK_SECTORS && s == b * BLOCK_SECTORS + k
    ensures disk[s] == SectorIn(BlockOf(disk, b), k)
  {
    SectorOfBlock(disk, b, k);
  }

  /** A block patched within one of its sectors is a disk with that sector patched. */
  lemma SectorPatched(before: seq<Sector>, after: seq<Sector>, sect: nat, at: nat, data: seq<Byte>)
    requires |before| == DISK_SECTORS && sect < DISK_SECTORS && at + |data| <= SECTOR_SIZE
    requires BlockWritten(before, after, sect / 8, Patch(BlockOf(before, sect / 8), sect % 8 * SECTOR_SIZE + at, data))
    ensures after == before[sect := Patch(before[sect], at, data)]
  {
    forall s | 0 <= s < DISK_SECTORS ensures after[s] == if s == sect then Patch(before[s], at, data) else before[s] {
      if s / 8 == sect / 8 {
        SectorPatchedAt(before, after, sect, at, data, s);
      }
    }
  }

  /** A piece of a sector is a piece of its block. */
  lemma PieceOfBlock(disk: seq<Sector>, sect: nat, at: nat, n: nat)
    requires |disk| == DISK_SECTORS && sect < DISK_SECTORS && at + n <= SECTOR_SIZE
    ensures var place := sect % BLOCK_SECTORS * SECTOR_SIZE + at;
            place + n <= BLOCK_SIZE && BlockOf(disk, sect / BLOCK_SECTORS)[place..place + n] == disk[sect][at..at + n]
  {
    var bytes, k := BlockOf(disk, sect / BLOCK_SECTORS), sect % BLOCK_SECTORS;
    SectorOfBlock(disk, sect / BLOCK_SECTORS, k);
    assert sect / BLOCK_SECTORS * BLOCK_SECTORS + k == sect;
    assert SectorIn(bytes, k)[at..at + n] == bytes[k * SECTOR_SIZE + at..k * SECTOR_SIZE + at + n];
  }

  /** A block written back as it was leaves the disk as it was. */
  lemma SameBlock(before: seq<Sector>, after: seq<Sector>, block: nat)
    requires OnDisk(before, block) && BlockWritten(before, after, block, BlockOf(before, block))
    ensures after == before
  {
    forall s | 0 <= s < |before| && s / BLOCK_SECTORS == block ensures after[s] == before[s] {
      SectorOfBlock(before, block, s % BLOCK_SECTORS);
      SectorOfBlock(after, block, s % BLOCK_SECTORS);
    }
  }

  lemma PatchSector(bytes: seq<Byte>, k: nat, at: nat, data: seq<Byte>, j: nat)
    requires |bytes| == BLOCK_SIZE && k < 8 && j < 8 && at + |data| <= SECTOR_SIZE
    ensures SectorIn(Patch(bytes, k * SECTOR_SIZE + at, data), j)
         == if j == k then Patch(SectorIn(bytes, j), at, data) else SectorIn(bytes, j)
  {
    var p := Patch(bytes, k * SECTOR_SIZE + at, data);
    forall i | 0 <= i < SECTOR_SIZE
      ensures SectorIn(p, j)[i] == (if j == k then Patch(SectorIn(bytes, j), at, data) else SectorIn(bytes, j))[i]
    {
      assert SectorIn(p, j)[i] == p[j * SECTOR_SIZE + i] && SectorIn(bytes, j)[i] == bytes[j * SECTOR_SIZE + i];
    }
  }

  /** The bytes of [offset, offset + len) that lie before sector cur of the file. */
  function Done(offset: nat, len: nat, cur: nat): nat {
    if cur * SECTOR_SIZE <= offset then 0
    else if cur * SECTOR_SIZE - offset <= len then cur * SECTOR_SIZE - offset
    else len
  }

  /** The byte within sector cur at which fat12_rw_aux starts to copy. */
  function PieceStart(offset: nat, cur: nat): nat {
    if cur == offset / SECTOR_SIZE then offset % SECTOR_SIZE else 0
  }

  /** The number of bytes fat12_rw_aux copies in sector cur. */
  function PieceSize(offset: nat, len: nat, cur: nat): nat {
    var startByte := offset % SECTOR_SIZE;
    if cur == offset / SECTOR_SIZE then
      if len + startByte > SECTOR_SIZE then SECTOR_SIZE - startByte else len
    else if cur < (offset + len) / SECTOR_SIZE then SECTOR_SIZE
    else (offset + len) % SECTOR_SIZE
  }

  /** Sector cur is one fat12_rw_aux copies in: start_sect <= cur <= end_sect. */
  predicate Touched(offset: nat, len: nat, cur: nat) {
    offset / SECTOR_SIZE <= cur <= (offset + len) / SECTOR_SIZE
  }

  /** The pieces are consecutive and stay within their sectors. */
  lemma PieceFits(offset: nat, len: nat, cur: nat)
    requires Touched(offset, len, cur)
    ensures var at, n := PieceStart(offset, cur), PieceSize(offset, len, cur);
            && at + n <= SECTOR_SIZE
            && cur * SECTOR_SIZE + at == offset + Done(offset, len, cur)
            && Done(offset, len, cur + 1) == Done(offset, len, cur) + n <= len
  {
    assert offset == offset / SECTOR_SIZE * SECTOR_SIZE + offset % SECTOR_SIZE;
    assert offset + len == (offset + len) / SECTOR_SIZE * SECTOR_SIZE + (offset + len) % SECTOR_SIZE;
  }

  /** Sectors outside the range hold none of the bytes. */
  lemma PieceSkipped(offset: nat, len: nat, cur: nat)
    requires !Touched(offset, len, cur)
    ensures Done(offset, len, cur + 1) == Done(offset, len, cur)
  {
    assert offset == offset / SECTOR_SIZE * SECTOR_SIZE + offset % SECTOR_SIZE;
    assert offset + len == (offset + len) / SECTOR_SIZE * SECTOR_SIZE + (offset + len) % SECTOR_SIZE;
  }

  /** Two patches end to end are one. */
  lemma PatchPatch<T>(s: seq<T>, at: nat, a: seq<T>, b: seq<T>)
    requires at + |a| + |b| <= |s|
    ensures Patch(Patch(s, at, a), at + |a|, b) == Patch(s, at, a + b)
  {
  }

  /** Between clusters, fat12_rw_aux has copied the bytes before sector cur, in the direction of cmd. */
  ghost predicate CopiedRange(disk0: seq<Sector>, disk: seq<Sector>, c: seq<nat>, offset: nat, bytes: seq<Byte>, done: nat)
    requires |disk0| == DISK_SECTORS == |disk| && (forall i :: 0 <= i < |c| ==> c[i] < FAT_ENTRIES)
    requires offset + |bytes| <= |c| * SECTOR_SIZE && done <= |bytes|
  {
    && Raw(disk, c) == Patch(Raw(disk0, c), offset, bytes[..done])
    && forall s :: 0 <= s < DISK_SECTORS && (forall i :: 0 <= i < |c| ==> s != c[i] + DATA_SHIFT) ==> disk[s] == disk0[s]
  }

  lemma CopiedStep(disk0: seq<Sector>, disk: seq<Sector>, c: seq<nat>, offset: nat, bytes: seq<Byte>,
                   cur: nat, at: nat, n: nat, done: nat)
    requires |disk0| == DISK_SECTORS == |disk| && (forall i :: 0 <= i < |c| ==> c[i] < FAT_ENTRIES) && NoRepeats(c) && cur < |c|
    requires offset + |bytes| <= |c| * SECTOR_SIZE && at + n <= SECTOR_SIZE && done + n <= |bytes|
    requires cur * SECTOR_SIZE + at == offset + done
    requires CopiedRange(disk0, disk, c, offset, bytes, done)
    ensures var s := c[cur] + DATA_SHIFT;
            CopiedRange(disk0, disk[s := Patch(disk[s], at, bytes[done..done + n])], c, offset, bytes, done + n)
  {
    RawPatch(disk, c, cur, at, bytes[done..done + n]);
    PatchPatch(Raw(disk0, c), offset, bytes[..done], bytes[done..done + n]);
    assert bytes[..done] + bytes[done..done + n] == bytes[..done + n];
  }

  /** A slice of one sector is a slice of the chain's bytes. */
  lemma SliceOfSector(disk: seq<Sector>, c: seq<nat>, cur: nat, at: nat, n: nat, p: nat)
    requires |disk| == DISK_SECTORS && (forall i :: 0 <= i < |c| ==> c[i] < FAT_ENTRIES) && cur < |c| && at + n <= SECTOR_SIZE
    requires p == cur * SECTOR_SIZE + at
    ensures p + n <= |Raw(disk, c)| && disk[c[cur] + DATA_SHIFT][at..at + n] == Raw(disk, c)[p..p + n]
  {
    RawSector(disk, c, cur);
    var r := Raw(disk, c);
    var a, b := disk[c[cur] + DATA_SHIFT][at..at + n], r[p..p + n];
    forall i | 0 <= i < n ensures a[i] == b[i] {
      assert r[cur * SECTOR_SIZE..(cur + 1) * SECTOR_SIZE][at + i] == r[p + i];
    }
  }

  datatype Command = Read | Write

  /** What one memcpy of fat12_rw_aux does to the disk and the caller's buffer. */
  ghost predicate PieceCopied(cmd: Command, disk: seq<Sector>, buf: seq<Byte>, disk': seq<Sector>, buf': seq<Byte>,
                              sect: nat, at: nat, n: nat, done: nat)
    requires sect < |disk| && at + n <= SECTOR_SIZE && done + n <= |buf|
  {
    match cmd
    case Read => disk' == disk && buf' == Patch(buf, done, disk[sect][at..at + n])
    case Write => buf' == buf && disk' == disk[sect := Patch(disk[sect], at, buf[done..done + n])]
  }

  /** What the loop of fat12_rw_aux has done once `done` bytes are copied. */
  ghost predicate Progress(cmd: Command, disk0: seq<Sector>, buf0: seq<Byte>, disk: seq<Sector>, buf: seq<Byte>,
                           c: seq<nat>, offset: nat, len: nat, done: nat)
    requires |disk0| == DISK_SECTORS == |disk| && (forall i :: 0 <= i < |c| ==> c[i] < FAT_ENTRIES)
    requires offset + len <= |c| * SECTOR_SIZE && done <= len <= |buf0|
  {
    match cmd
    case Read => disk == disk0 && buf == Patch(buf0, 0, Raw(disk0, c)[offset..offset + done])
    case Write => buf == buf0 && CopiedRange(disk0, disk, c, offset, buf0[..len], done)
  }

  lemma PatchNext<T>(s: seq<T>, r: seq<T>, from: nat, done: nat, mid: nat, to: nat, was: seq<T>, piece: seq<T>)
    requires from + done == mid <= to <= |r| && to - from <= |s|
    requires was == Patch(s, 0, r[from..mid]) && piece == r[mid..to]
    ensures Patch(was, done, piece) == Patch(s, 0, r[from..to])
  {
    PatchPatch(s, 0, r[from..mid], piece);
    assert r[from..mid] + piece == r[from..to];
  }

  lemma ReadProgress(disk: seq<Sector>, buf0: seq<Byte>, buf: seq<Byte>, c: seq<nat>, offset: nat, len: nat,
                     cur: nat, at: nat, n: nat, done: nat)
    requires |disk| == DISK_SECTORS && (forall i :: 0 <= i < |c| ==> c[i] < FAT_ENTRIES) && cur < |c|
    requires offset + len <= |c| * SECTOR_SIZE && at + n <= SECTOR_SIZE && done + n <= len <= |buf0|
    requires cur * SECTOR_SIZE + at == offset + done
    requires buf == Patch(buf0, 0, Raw(disk, c)[offset..offset + done])
    ensures Patch(buf, done, disk[c[cur] + DATA_SHIFT][at..at + n]) == Patch(buf0, 0, Raw(disk, c)[offset..offset + done + n])
  {
    var mid, to := offset + done, offset + done + n;
    SliceOfSector(disk, c, cur, at, n, mid);
    PatchNext(buf0, Raw(disk, c), offset, done, mid, to, buf, disk[c[cur] + DATA_SHIFT][at..at + n]);
  }

  lemma ProgressStep(cmd: Command, disk0: seq<Sector>, buf0: seq<Byte>, disk: seq<Sector>, buf: seq<Byte>,
                     disk': seq<Sector>, buf': seq<Byte>, c: seq<nat>, offset: nat, len: nat,
                     cur: nat, at: nat, n: nat, done: nat)
    requires |disk0| == DISK_SECTORS == |disk| && (forall i :: 0 <= i < |c| ==> c[i] < FAT_ENTRIES) && NoRepeats(c) && cur < |c|
    requires offset + len <= |c| * SECTOR_SIZE && at + n <= SECTOR_SIZE && done + n <= len <= |buf0| == |buf|
    requires cur * SECTOR_SIZE + at == offset + done
    requires Progress(cmd, disk0, buf0, disk, buf, c, offset, len, done)
    requires PieceCopied(cmd, disk, buf, disk', buf', c[cur] + DATA_SHIFT, at, n, done)
    ensures |disk'| == DISK_SECTORS && Progress(cmd, disk0, buf0, disk', buf', c, offset, len, done + n)
  {
    match cmd
    case Read =>
      ReadProgress(disk, buf0, buf, c, offset, len, cur, at, n, done);
    case Write =>
      CopiedStep(disk0, disk, c, offset, buf0[..len], cur, at, n, done);
      assert buf0[..len][done..done + n] == buf0[done..done + n];
  }

  lemma NothingMoved(cmd: Command, disk0: seq<Sector>, buf0: seq<Byte>, c: seq<nat>, offset: nat, len: nat)
    requires |disk0| == DISK_SECTORS && (forall i :: 0 <= i < |c| ==> c[i] < FAT_ENTRIES)
    requires offset + len <= |c| * SECTOR_SIZE && len <= |buf0|
    ensures Progress(cmd, disk0, buf0, disk0, buf0, c, offset, len, 0)
  {
    assert Patch(buf0, 0, []) == buf0 && Patch(Raw(disk0, c), offset, []) == Raw(disk0, c);
  }

  /** A chain long enough for the range has all of it before its end. */
  lemma DoneAtEnd(offset: nat, len: nat, n: nat)
    requires offset + len < n * SECTOR_SIZE
    ensures Done(offset, len, n) == len
  {
  }

  // ------------------------------------------------------------------ what a read or a write means

  /** after is before with bytes put at offset; where the file grew, what was on the disk shows between. */
  ghost predicate Written(before: seq<Byte>, after: seq<Byte>, offset: nat, bytes: seq<Byte>) {
    && |after| == (if offset + |bytes| > |before| then offset + |bytes| else |before|)
    && after[offset..offset + |bytes|] == bytes
    && forall i :: 0 <= i < |before| && !(offset <= i < offset + |bytes|) ==> after[i] == before[i]
  }

  /** A change of the table's and the root's sectors does not reach the data of any chain. */
  lemma InfoKeepsRaw(disk: seq<Sector>, disk': seq<Sector>, c: seq<nat>)
    requires |disk| == DISK_SECTORS && InfoOnly(disk, disk')
    requires forall i :: 0 <= i < |c| ==> 2 <= c[i] < FAT_ENTRIES
    ensures Raw(disk', c) == Raw(disk, c)
  {
    RawSame(disk, disk', c);
  }

  lemma {:induction false} RawPrefix(disk: seq<Sector>, c: seq<nat>, d: seq<nat>)
    requires |disk| == DISK_SECTORS && (forall i :: 0 <= i < |c + d| ==> (c + d)[i] < FAT_ENTRIES)
    requires forall i :: 0 <= i < |c| ==> c[i] < FAT_ENTRIES
    ensures Raw(disk, c + d)[..|c| * SECTOR_SIZE] == Raw(disk, c)
  {
    if d == [] {
      assert c + d == c;
    } else {
      var e := d[..|d| - 1];
      assert (c + d)[..|c + d| - 1] == c + e;
      assert forall i :: 0 <= i < |c + e| ==> (c + e)[i] == (c + d)[i];
      RawPrefix(disk, c, e);
    }
  }

  /** Growing one file keeps every other file, and the bytes it had. */
  lemma GrowFiles(disk: seq<Sector>, t: seq<nat>, slots: seq<seq<Byte>>, chains: seq<seq<nat>>,
                  disk': seq<Sector>, t': seq<nat>, slots': seq<seq<Byte>>, chains': seq<seq<nat>>, s: nat, added: seq<nat>)
    requires |disk| == DISK_SECTORS && VolumeOk(t, slots, chains) && s < SLOTS && Live(slots[s])
    requires InfoOnly(disk, disk') && VolumeOk(t', slots', chains')
    requires slots' == slots[s := slots'[s]] && Live(slots'[s]) && Name(slots'[s]) == Name(slots[s]) && Size(slots[s]) <= Size(slots'[s])
    requires chains' == chains[s := chains'[s]] && chains'[s] == chains[s] + added
    ensures var g := Content(disk', slots'[s], chains'[s]);
            Files(disk', t', slots', chains') == Files(disk, t, slots, chains)[Name(slots[s]) := g]
            && g[..Size(slots[s])] == Content(disk, slots[s], chains[s])
  {
    forall q | 0 <= q < SLOTS && q != s ensures SameFile(disk, slots, chains, disk', slots', chains', q) {
      if Live(slots[q]) { InfoKeepsRaw(disk, disk', chains[q]); }
    }
    FilesPut(disk, t, slots, chains, disk', t', slots', chains', s);
    InfoKeepsRaw(disk, disk', chains[s]);
    RawPrefix(disk', chains[s], added);
    var n := Size(slots[s]);
    assert Raw(disk', chains'[s])[..|chains[s]| * SECTOR_SIZE][..n] == Raw(disk', chains'[s])[..n];
  }

  /** Writing within one file's chain keeps every other file. */
  lemma WriteFiles(disk: seq<Sector>, disk': seq<Sector>, t: seq<nat>, slots: seq<seq<Byte>>, chains: seq<seq<nat>>,
                   s: nat, offset: nat, bytes: seq<Byte>)
    requires |disk| == DISK_SECTORS == |disk'| && VolumeOk(t, slots, chains) && s < SLOTS && Live(slots[s])
    requires offset + |bytes| <= Size(slots[s]) && CopiedRange(disk, disk', chains[s], offset, bytes, |bytes|)
    ensures var g := Content(disk', slots[s], chains[s]);
            Files(disk', t, slots, chains) == Files(disk, t, slots, chains)[Name(slots[s]) := g]
            && g == Patch(Content(disk, slots[s], chains[s]), offset, bytes)
  {
    forall q | 0 <= q < SLOTS && q != s ensures SameFile(disk, slots, chains, disk', slots, chains, q) {
      if Live(slots[q]) {
        assert BothLive(slots, q, s);
        forall i | 0 <= i < |chains[q]| ensures disk'[chains[q][i] + DATA_SHIFT] == disk[chains[q][i] + DATA_SHIFT] {
          assert chains[q][i] in chains[q];
          forall j | 0 <= j < |chains[s]| ensures chains[q][i] + DATA_SHIFT != chains[s][j] + DATA_SHIFT {
            assert chains[s][j] in chains[s];
          }
        }
        RawSame(disk, disk', chains[q]);
      }
    }
    FilesPut(disk, t, slots, chains, disk', t, slots, chains, s);
    assert bytes[..|bytes|] == bytes;
  }

  lemma WrittenByPatch(f: seq<Byte>, g: seq<Byte>, offset: nat, bytes: seq<Byte>)
    requires |f| <= |g| && g[..|f|] == f && |g| == (if offset + |bytes| > |f| then offset + |bytes| else |f|)
    ensures Written(f, Patch(g, offset, bytes), offset, bytes)
  {
    var h := Patch(g, offset, bytes);
    assert h[offset..offset + |bytes|] == bytes;
    forall i | 0 <= i < |f| && !(offset <= i < offset + |bytes|) ensures h[i] == f[i] {
      assert g[..|f|][i] == g[i];
    }
  }

  /** Chains are longer than the file they hold. */
  lemma ChainHolds(size: nat, n: nat, end: nat)
    requires n == size / SECTOR_SIZE + 1 && end <= size
    ensures end < n * SECTOR_SIZE
  {
  }

  lemma MapTwice<X, Y>(m: map<X, Y>, x: X, y: Y, z: Y)
    ensures m[x := y][x := z] == m[x := z]
  {
  }

  lemma MapSame<X, Y>(m: map<X, Y>, x: X)
    requires x in m
    ensures m[x := m[x]] == m
  {
  }

  /** All files, and the name and bytes of one of them. */
  datatype View = View(files: map<seq<Byte>, seq<Byte>>, name: seq<Byte>, bytes: seq<Byte>)

  /** The file is longer, or as long, begins with what it held, and no other file changed. */
  ghost predicate GrownTo(before: View, after: View, end: nat) {
    && after.name == before.name && after.files == before.files[after.name := after.bytes]
    && |before.bytes| <= end == |after.bytes| && after.bytes[..|before.bytes|] == before.bytes
  }

  /** What fat12_rw_aux promises about the file, all other files, and the caller's buffer. */
  ghost predicate Accessed(cmd: Command, before: View, after: View, offset: nat, buf: seq<Byte>, buf': seq<Byte>, len: nat)
    requires len <= |buf|
  {
    && after.name == before.name && after.files == before.files[after.name := after.bytes]
    && match cmd
       case Write => buf' == buf && Written(before.bytes, after.bytes, offset, buf[..len])
       case Read =>
         && |after.bytes| == (if offset + len > |before.bytes| then offset + len else |before.bytes|)
         && after.bytes[..|before.bytes|] == before.bytes
         && buf' == Patch(buf, 0, after.bytes[offset..offset + len])
  }

  lemma AccessedAfterGrowth(cmd: Command, before: View, grown: View, after: View, offset: nat, buf: seq<Byte>, buf': seq<Byte>, len: nat)
    requires len <= |buf| && GrownTo(before, grown, offset + len) && Accessed(cmd, grown, after, offset, buf, buf', len)
    ensures Accessed(cmd, before, after, offset, buf, buf', len)
  {
    MapTwice(before.files, after.name, grown.bytes, after.bytes);
    assert forall i :: 0 <= i < |before.bytes| ==> grown.bytes[..|before.bytes|][i] == grown.bytes[i];
  }

  /** Where the file has become longer, it shows what the sectors of its chain held on the disk, but for what was written. */
  ghost predicate ShowsDisk(cmd: Command, before: View, after: View, disk: seq<Sector>, c: seq<nat>, offset: nat, len: nat) {
    && OnSectors(disk, c)
    && forall i :: |before.bytes| <= i < |after.bytes| && (cmd.Read? || !(offset <= i < offset + len)) ==>
                     i < |Raw(disk, c)| && after.bytes[i] == Raw(disk, c)[i]
  }

  ghost predicate OnSectors(disk: seq<Sector>, c: seq<nat>) {
    |disk| == DISK_SECTORS && forall i :: 0 <= i < |c| ==> c[i] < FAT_ENTRIES
  }

  /** The bytes are those at the start of the chain's sectors. */
  ghost predicate HeldBy(bytes: seq<Byte>, disk: seq<Sector>, c: seq<nat>) {
    OnSectors(disk, c) && bytes <= Raw(disk, c)
  }

  lemma AfterGrowth(cmd: Command, before: View, grown: View, after: View, disk: seq<Sector>, c: seq<nat>, offset: nat,
                    buf: seq<Byte>, buf': seq<Byte>, len: nat)
    requires len <= |buf| && GrownTo(before, grown, offset + len) && Accessed(cmd, grown, after, offset, buf, buf', len)
    requires HeldBy(grown.bytes, disk, c)
    ensures Accessed(cmd, before, after, offset, buf, buf', len) && ShowsDisk(cmd, before, after, disk, c, offset, len)
  {
    AccessedAfterGrowth(cmd, before, grown, after, offset, buf, buf', len);
    assert cmd.Read? ==> forall i :: 0 <= i < |grown.bytes| ==> after.bytes[..|grown.bytes|][i] == after.bytes[i];
  }

  /** A grown file's bytes are those of its new chain, which growing leaves on the disk as they were. */
  lemma GrownShows(disk: seq<Sector>, disk': seq<Sector>, t: seq<nat>, slots: seq<seq<Byte>>, chains: seq<seq<nat>>, s: nat)
    requires |disk| == DISK_SECTORS && InfoOnly(disk, disk') && VolumeOk(t, slots, chains) && s < SLOTS && Live(slots[s])
    ensures HeldBy(LookAt(disk', t, slots, chains, s).bytes, disk, chains[s])
  {
    InfoKeepsRaw(disk, disk', chains[s]);
  }

  /** A range inside the file grows nothing. */
  lemma NothingShown(cmd: Command, before: View, after: View, disk: seq<Sector>, t: seq<nat>, slots: seq<seq<Byte>>,
                     chains: seq<seq<nat>>, s: nat, offset: nat, buf: seq<Byte>, buf': seq<Byte>, len: nat)
    requires len <= |buf| && offset + len <= |before.bytes| && Accessed(cmd, before, after, offset, buf, buf', len)
    requires |disk| == DISK_SECTORS && VolumeOk(t, slots, chains) && s < SLOTS && Live(slots[s])
    ensures ShowsDisk(cmd, before, after, disk, chains[s], offset, len)
  {
    assert |after.bytes| == |before.bytes|;
  }

  /** A read inside the file changes no file. */
  lemma ReadInsideChangesNothing(before: View, after: View, offset: nat, buf: seq<Byte>, buf': seq<Byte>, len: nat)
    requires len <= |buf| && offset + len <= |before.bytes| && Accessed(Read, before, after, offset, buf, buf', len)
    requires before.name in before.files && before.files[before.name] == before.bytes
    ensures after == before && buf' == Patch(buf, 0, before.bytes[offset..offset + len])
  {
    assert after.bytes[..|before.bytes|] == after.bytes;
    MapSame(before.files, before.name);
  }

  /** What was written is what an in-range read returns. */
  lemma ReadBack(v0: View, v1: View, v2: View, offset: nat, w: seq<Byte>, w': seq<Byte>, r: seq<Byte>, r': seq<Byte>, len: nat)
    requires len <= |w| && len <= |r|
    requires Accessed(Write, v0, v1, offset, w, w', len) && Accessed(Read, v1, v2, offset, r, r', len)
    ensures r'[..len] == w[..len]
  {
    assert v2.bytes[..|v1.bytes|] == v2.bytes;
  }

  ghost function LookAt(disk: seq<Sector>, t: seq<nat>, slots: seq<seq<Byte>>, chains: seq<seq<nat>>, s: nat): (v: View)
    requires |disk| == DISK_SECTORS && VolumeOk(t, slots, chains) && s < SLOTS && Live(slots[s])
    ensures |v.bytes| == Size(slots[s])
  {
    View(Files(disk, t, slots, chains), Name(slots[s]), Content(disk, slots[s], chains[s]))
  }

  lemma WriteMeans(disk0: seq<Sector>, disk: seq<Sector>, t: seq<nat>, slots: seq<seq<Byte>>, chains: seq<seq<nat>>, s: nat,
                   offset: nat, buf: seq<Byte>, len: nat)
    requires |disk0| == DISK_SECTORS == |disk| && VolumeOk(t, slots, chains) && s < SLOTS && Live(slots[s])
    requires len <= |buf| && offset + len <= Size(slots[s]) && offset + len <= |chains[s]| * SECTOR_SIZE
    requires CopiedRange(disk0, disk, chains[s], offset, buf[..len], len)
    ensures Accessed(Write, LookAt(disk0, t, slots, chains, s), LookAt(disk, t, slots, chains, s), offset, buf, buf, len)
  {
    var f := Content(disk0, slots[s], chains[s]);
    WriteFiles(disk0, disk, t, slots, chains, s, offset, buf[..len]);
    WrittenByPatch(f, f, offset, buf[..len]);
  }

  lemma PrefixSlice<T>(r: seq<T>, n: nat, from: nat, len: nat)
    requires from + len <= n <= |r|
    ensures r[..n][from..from + len] == r[from..from + len] && r[..n][..n] == r[..n]
  {
  }

  lemma ReadMeans(disk: seq<Sector>, t: seq<nat>, slots: seq<seq<Byte>>, chains: seq<seq<nat>>, s: nat,
                  offset: nat, buf: seq<Byte>, buf': seq<Byte>, len: nat)
    requires |disk| == DISK_SECTORS && VolumeOk(t, slots, chains) && s < SLOTS && Live(slots[s])
    requires len <= |buf| && offset + len <= Size(slots[s]) && offset + len <= |chains[s]| * SECTOR_SIZE
    requires buf' == Patch(buf, 0, Raw(disk, chains[s])[offset..offset + len])
    ensures var v := LookAt(disk, t, slots, chains, s); Accessed(Read, v, v, offset, buf, buf', len)
  {
    var c, f := chains[s], Content(disk, slots[s], chains[s]);
    FileAt(disk, t, slots, chains, s);
    MapSame(Files(disk, t, slots, chains), Name(slots[s]));
    PrefixSlice(Raw(disk, c), |f|, offset, len);
  }

  /** A finished transfer inside a file is the access it was meant to be. */
  lemma TransferMeans(cmd: Command, disk0: seq<Sector>, buf0: seq<Byte>, disk: seq<Sector>, buf: seq<Byte>,
                      t: seq<nat>, slots: seq<seq<Byte>>, chains: seq<seq<nat>>, s: nat, offset: nat, len: nat)
    requires |disk0| == DISK_SECTORS == |disk| && VolumeOk(t, slots, chains) && s < SLOTS && Live(slots[s])
    requires len <= |buf0| && offset + len <= Size(slots[s]) && offset + len <= |chains[s]| * SECTOR_SIZE
    requires Progress(cmd, disk0, buf0, disk, buf, chains[s], offset, len, len)
    ensures Accessed(cmd, LookAt(disk0, t, slots, chains, s), LookAt(disk, t, slots, chains, s), offset, buf0, buf, len)
  {
    match cmd
    case Write => WriteMeans(disk0, disk, t, slots, chains, s, offset, buf0, len);
    case Read => ReadMeans(disk0, t, slots, chains, s, offset, buf0, buf, len);
  }

  // ------------------------------------------------------------------ what a read or a write leaves on the disk

  /** Sectors 1 to 8 hold the table, 19 to 32 the root. */
  predicate IsInfo(q: int) {
    1 <= q < 9 || 19 <= q < 33
  }

  /** Sector q holds a cluster of the chain. */
  predicate HoldsCluster(c: seq<nat>, q: nat) {
    exists i :: 0 <= i < |c| && q == c[i] + 31
  }

  /** What resize with its sync leaves on the disk: table and root of memory, if a cluster was needed, or what was there. */
  ghost predicate Synced(before: seq<Sector>, after: seq<Sector>, fat: seq<Byte>, root: seq<Byte>, needed: nat)
    requires |before| == DISK_SECTORS && |fat| == FAT_BYTES && |root| == ROOT_BYTES
  {
    if needed > 0 then InfoOnly(before, after) && OnDiskNow(after, fat, root) else after == before
  }

  /** after differs from before at most in the sectors of the chain. */
  ghost predicate ChainOnly(before: seq<Sector>, after: seq<Sector>, c: seq<nat>) {
    && |before| == DISK_SECTORS == |after|
    && forall q :: 0 <= q < DISK_SECTORS && !HoldsCluster(c, q) ==> after[q] == before[q]
  }

  /**
   What an access to the bytes up to `end` of a file of `size` bytes leaves on the disk.  If it needed a cluster, table
   and root are those of memory; if not, their sectors are what they were.  Of the other sectors at most those of the
   file's chain change, which was c0.  Inside the file, table and root stay what they were in memory too.
   */
  ghost predicate DiskAfter(before: seq<Sector>, fat0: seq<Byte>, root0: seq<Byte>, c0: seq<nat>,
                            after: seq<Sector>, fat: seq<Byte>, root: seq<Byte>, c: seq<nat>, size: nat, end: nat) {
    && |before| == DISK_SECTORS == |after| && |fat| == FAT_BYTES && |root| == ROOT_BYTES
    && (end <= size ==> fat == fat0 && root == root0)
    && (if NewClusters(size, end) > 0 then OnDiskNow(after, fat, root)
        else c == c0 && forall q :: 0 <= q < DISK_SECTORS && IsInfo(q) ==> after[q] == before[q])
    && forall q :: 0 <= q < DISK_SECTORS && !IsInfo(q) && !HoldsCluster(c, q) ==> after[q] == before[q]
  }

  /** A transfer changes sectors of the chain only. */
  lemma TransferStays(cmd: Command, disk0: seq<Sector>, buf0: seq<Byte>, disk: seq<Sector>, buf: seq<Byte>, c: seq<nat>, offset: nat, len: nat)
    requires |disk0| == DISK_SECTORS == |disk| && (forall i :: 0 <= i < |c| ==> c[i] < FAT_ENTRIES)
    requires offset + len <= |c| * SECTOR_SIZE && len <= |buf0|
    requires Progress(cmd, disk0, buf0, disk, buf, c, offset, len, len)
    ensures ChainOnly(disk0, disk, c)
  {
    if cmd.Write? {
      forall q | 0 <= q < DISK_SECTORS && !HoldsCluster(c, q) ensures disk[q] == disk0[q] {
        assert forall i :: 0 <= i < |c| ==> q != c[i] + DATA_SHIFT;
      }
    }
  }

  /** Chains start at cluster 2, which is sector 33: no sector of the table or the root is one of a chain. */
  lemma ChainApart(t: seq<nat>, c: seq<nat>, q: nat)
    requires IsChain(t, c) && IsInfo(q)
    ensures !HoldsCluster(c, q)
  {
  }

  /** resize and then the transfer. */
  lemma DiskDone(disk0: seq<Sector>, fat0: seq<Byte>, root0: seq<Byte>, c0: seq<nat>,
                 disk1: seq<Sector>, disk: seq<Sector>, fat: seq<Byte>, root: seq<Byte>, t: seq<nat>, c: seq<nat>, size: nat, end: nat)
    requires |disk0| == DISK_SECTORS && |fat| == FAT_BYTES && |root| == ROOT_BYTES && IsChain(t, c)
    requires NewClusters(size, end) == 0 ==> c == c0
    requires end <= size ==> fat == fat0 && root == root0
    requires Synced(disk0, disk1, fat, root, NewClusters(size, end)) && ChainOnly(disk1, disk, c)
    ensures DiskAfter(disk0, fat0, root0, c0, disk, fat, root, c, size, end)
  {
    forall q | 0 <= q < DISK_SECTORS && IsInfo(q) ensures disk[q] == disk1[q] {
      ChainApart(t, c, q);
    }
  }

  /** Growth and then the access to the grown file: what it does to the files, and what it leaves on the disk. */
  lemma PastDone(cmd: Command, before: View, grown: View, after: View, offset: nat, buf: seq<Byte>, buf': seq<Byte>, len: nat,
                 disk0: seq<Sector>, fat0: seq<Byte>, root0: seq<Byte>, c0: seq<nat>,
                 disk1: seq<Sector>, disk: seq<Sector>, fat: seq<Byte>, root: seq<Byte>, t: seq<nat>, c: seq<nat>)
    requires len <= |buf| && GrownTo(before, grown, offset + len) && Accessed(cmd, grown, after, offset, buf, buf', len)
    requires HeldBy(grown.bytes, disk0, c) && |before.bytes| < offset + len
    requires |disk0| == DISK_SECTORS && |fat| == FAT_BYTES && |root| == ROOT_BYTES && IsChain(t, c)
    requires NewClusters(|before.bytes|, offset + len) == 0 ==> c == c0
    requires Synced(disk0, disk1, fat, root, NewClusters(|before.bytes|, offset + len)) && ChainOnly(disk1, disk, c)
    ensures Accessed(cmd, before, after, offset, buf, buf', len) && ShowsDisk(cmd, before, after, disk0, c, offset, len)
    ensures DiskAfter(disk0, fat0, root0, c0, disk, fat, root, c, |before.bytes|, offset + len)
  {
    AfterGrowth(cmd, before, grown, after, disk0, c, offset, buf, buf', len);
    DiskDone(disk0, fat0, root0, c0, disk1, disk, fat, root, t, c, |before.bytes|, offset + len);
  }

  /** Sectors of other chains than that of slot s are none of its own. */
  lemma OtherChain(disk: seq<Sector>, disk': seq<Sector>, t: seq<nat>, slots: seq<seq<Byte>>, chains: seq<seq<nat>>, s: nat, q: nat)
    requires |disk| == DISK_SECTORS == |disk'| && VolumeOk(t, slots, chains) && BothLive(slots, q, s)
    requires forall x :: 0 <= x < DISK_SECTORS && !HoldsCluster(chains[s], x) ==> disk'[x] == disk[x]
    ensures Raw(disk', chains[q]) == Raw(disk, chains[q])
  {
    forall i | 0 <= i < |chains[q]| ensures disk'[chains[q][i] + DATA_SHIFT] == disk[chains[q][i] + DATA_SHIFT] {
      assert chains[q][i] in chains[q];
      forall j | 0 <= j < |chains[s]| ensures chains[q][i] + DATA_SHIFT != chains[s][j] + 31 {
        assert chains[s][j] in chains[s];
      }
      assert !HoldsCluster(chains[s], chains[q][i] + DATA_SHIFT);
    }
    RawSame(disk, disk', chains[q]);
  }

  /** After an access that needed no cluster, the table and the root of before mean the files of now, but for the file's new size. */
  lemma OldSizeFiles(disk: seq<Sector>, disk': seq<Sector>, t: seq<nat>, slots: seq<seq<Byte>>, chains: seq<seq<nat>>,
                     t': seq<nat>, slots': seq<seq<Byte>>, chains': seq<seq<nat>>, s: nat)
    requires |disk| == DISK_SECTORS == |disk'| && VolumeOk(t, slots, chains) && VolumeOk(t', slots', chains') && s < SLOTS
    requires Live(slots[s]) && Live(slots'[s]) && chains'[s] == chains[s] && Size(slots[s]) <= Size(slots'[s])
    requires forall x :: 0 <= x < DISK_SECTORS && !HoldsCluster(chains[s], x) ==> disk'[x] == disk[x]
    ensures Files(disk', t, slots, chains)
         == Files(disk, t, slots, chains)[Name(slots[s]) := Content(disk', slots'[s], chains'[s])[..Size(slots[s])]]
  {
    forall q | 0 <= q < SLOTS && q != s ensures SameFile(disk, slots, chains, disk', slots, chains, q) {
      if Live(slots[q]) { OtherChain(disk, disk', t, slots, chains, s, q); }
    }
    FilesPut(disk, t, slots, chains, disk', t, slots, chains, s);
    assert Content(disk', slots'[s], chains'[s])[..Size(slots[s])] == Content(disk', slots[s], chains[s]);
  }
}
