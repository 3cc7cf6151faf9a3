/**
 The disk block cache of kernel/disk_buffer.c: thirteen buckets of nodes, most recently used first,
 written through to the disk by disk_buffer_put.
 */
module DiskBuffer {
  import opened Sequences

  type Byte = b: int | 0 <= b < 256

  const SECTOR_SIZE: nat := 512
  const BLOCK_SECTORS: nat := 8
  const BLOCK_SIZE: nat := 4096
  const BUCKETS: nat := 13
  const BUSY: bv32 := 2

  type Sector = s: seq<Byte> | |s| == 512 witness seq(512, _ => 0)

  /** src copied over dst at offset at. */
  function Patch<T>(dst: seq<T>, at: nat, src: seq<T>): (r: seq<T>)
    requires at + |src| <= |dst|
    ensures |r| == |dst|
    ensures forall i :: 0 <= i < |dst| ==> r[i] == if at <= i < at + |src| then src[i - at] else dst[i]
  {
    dst[..at] + src + dst[at + |src|..]
  }

  /** The block's sectors are all on the disk. */
  predicate OnDisk(disk: seq<Sector>, block: nat) {
    block * BLOCK_SECTORS + BLOCK_SECTORS <= |disk|
  }

  /** The bytes of the eight sectors of a block. */
  function BlockOf(disk: seq<Sector>, block: nat): (r: seq<Byte>)
    requires OnDisk(disk, block)
    ensures |r| == BLOCK_SIZE
  {
    var s := block * BLOCK_SECTORS;
    disk[s][..] + disk[s + 1] + disk[s + 2] + disk[s + 3] + disk[s + 4] + disk[s + 5] + disk[s + 6] + disk[s + 7]
  }

  /** Sector k of a block's bytes. */
  function SectorIn(bytes: seq<Byte>, k: nat): (r: seq<Byte>)
    requires |bytes| == BLOCK_SIZE && k < BLOCK_SECTORS
    ensures |r| == SECTOR_SIZE
  {
    bytes[k * SECTOR_SIZE..(k + 1) * SECTOR_SIZE]
  }

  lemma SectorOfBlock(disk: seq<Sector>, block: nat, k: nat)
    requires OnDisk(disk, block) && k < BLOCK_SECTORS
    ensures SectorIn(BlockOf(disk, block), k) == disk[block * BLOCK_SECTORS + k]
  {
    assert k == 0 || k == 1 || k == 2 || k == 3 || k == 4 || k == 5 || k == 6 || k == 7;
  }

  /** Two blocks with the same sectors are the same bytes. */
  lemma BlockFromSectors(bytes: seq<Byte>, disk: seq<Sector>, block: nat)
    requires OnDisk(disk, block) && |bytes| == BLOCK_SIZE
    requires forall k: nat :: k < BLOCK_SECTORS ==> SectorIn(bytes, k) == disk[block * BLOCK_SECTORS + k]
    ensures bytes == BlockOf(disk, block)
  {
    forall i | 0 <= i < BLOCK_SIZE ensures bytes[i] == BlockOf(disk, block)[i] {
      var k := i / SECTOR_SIZE;
      SectorOfBlock(disk, block, k);
      assert bytes[i] == SectorIn(bytes, k)[i - k * SECTOR_SIZE];
      assert BlockOf(disk, block)[i] == SectorIn(BlockOf(disk, block), k)[i - k * SECTOR_SIZE];
    }
  }

  /** after is before with the eight sectors of a block replaced by the given bytes. */
  ghost predicate BlockWritten(before: seq<Sector>, after: seq<Sector>, block: nat, bytes: seq<Byte>) {
    && OnDisk(before, block) && |after| == |before|
    && BlockOf(after, block) == bytes
    && forall s :: 0 <= s < |before| && s / BLOCK_SECTORS != block ==> after[s] == before[s]
  }

  /** Writing one block leaves the others as they were. */
  lemma BlockAfter(before: seq<Sector>, after: seq<Sector>, block: nat, bytes: seq<Byte>, other: nat)
    requires BlockWritten(before, after, block, bytes) && OnDisk(before, other)
    ensures BlockOf(after, other) == if other == block then bytes else BlockOf(before, other)
  {
    if other != block {
      var s := other * BLOCK_SECTORS;
      assert after[s + 0] == before[s + 0] && after[s + 1] == before[s + 1] && after[s + 2] == before[s + 2] && after[s + 3] == before[s + 3]
          && after[s + 4] == before[s + 4] && after[s + 5] == before[s + 5] && after[s + 6] == before[s + 6] && after[s + 7] == before[s + 7];
    }
  }

  class DbNode {
    var flags: bv32
    const blockNum: nat
    var buffer: seq<Byte>

    constructor (flags: bv32, blockNum: nat)
      ensures this.flags == flags && this.blockNum == blockNum && |buffer| == BLOCK_SIZE
    {
      this.flags := flags;
      this.blockNum := blockNum;
      buffer := seq(BLOCK_SIZE, _ => 0);
    }

    predicate Busy()
      reads this
    {
      flags & BUSY != 0
    }

    method MarkBusy()
      modifies this`flags
      ensures Busy()
    {
      flags := flags | BUSY;
    }

    method ClearBusy()
      modifies this`flags
      ensures !Busy()
    {
      flags := flags & !BUSY;
    }
  }

  /** Every node is in the bucket of its block number, once, and no block has two nodes. */
  ghost predicate Filed(heads: seq<seq<DbNode>>, nodes: set<DbNode>) {
    && |heads| == BUCKETS
    && (forall h, d :: 0 <= h < BUCKETS && d in heads[h] ==> d in nodes && d.blockNum % BUCKETS == h)
    && (forall d :: d in nodes ==> d in heads[d.blockNum % BUCKETS])
    && (forall d, e :: d in nodes && e in nodes && d.blockNum == e.blockNum ==> d == e)
    && (forall h :: 0 <= h < BUCKETS ==> NoRepeats(heads[h]))
  }

  /** Moving a node to the front loses none and doubles none. */
  lemma MovedMembers<T>(l: seq<T>, i: nat)
    requires i < |l| && NoRepeats(l)
    ensures var m := [l[i]] + Without(l, i); NoRepeats(m) && forall e :: e in m <==> e in l
  {
    var m := [l[i]] + Without(l, i);
    assert forall k :: 0 <= k < |m| ==> m[k] == l[if k == 0 then i else if k <= i then k - 1 else k];
    forall e | e in l ensures e in m {
      var k :| 0 <= k < |l| && l[k] == e;
      assert m[if k == i then 0 else if k < i then k + 1 else k] == e;
    }
  }

  /** A node went from its place to the front of its bucket. */
  ghost predicate MovedToFront(before: seq<seq<DbNode>>, after: seq<seq<DbNode>>, d: DbNode) {
    var h := d.blockNum % BUCKETS;
    && h < |before|
    && exists i :: 0 <= i < |before[h]| && before[h][i] == d && after == before[h := [d] + Without(before[h], i)]
  }

  /** The first n sectors of a block hold its bytes, and the other blocks are as before. */
  ghost predicate SyncedTo(before: seq<Sector>, disk: seq<Sector>, block: nat, bytes: seq<Byte>, n: nat) {
    && OnDisk(before, block) && |bytes| == BLOCK_SIZE && n <= BLOCK_SECTORS && |disk| == |before|
    && (forall s :: 0 <= s < |disk| && s / BLOCK_SECTORS != block ==> disk[s] == before[s])
    && forall k: nat :: k < n ==> SectorIn(bytes, k) == disk[block * BLOCK_SECTORS + k]
  }

  /** One transfer of two sectors. */
  lemma SyncedMore(before: seq<Sector>, disk: seq<Sector>, block: nat, bytes: seq<Byte>, n: nat, dma: seq<Byte>)
    requires SyncedTo(before, disk, block, bytes, n) && n + 2 <= BLOCK_SECTORS
    requires dma == bytes[n * SECTOR_SIZE..n * SECTOR_SIZE + 1024]
    ensures var s := block * BLOCK_SECTORS + n;
            SyncedTo(before, disk[s := dma[..SECTOR_SIZE]][s + 1 := dma[SECTOR_SIZE..]], block, bytes, n + 2)
  {
    assert dma[..SECTOR_SIZE] == SectorIn(bytes, n) && dma[SECTOR_SIZE..] == SectorIn(bytes, n + 1);
    assert (block * BLOCK_SECTORS + n) / BLOCK_SECTORS == block == (block * BLOCK_SECTORS + (n + 1)) / BLOCK_SECTORS;
  }

  class DiskCache {
    var disk: seq<Sector>
    var dmaBuffer: seq<Byte>
    var heads: seq<seq<DbNode>>
    ghost var nodes: set<DbNode>

    ghost predicate Shape()
      reads this, nodes
    {
      && Filed(heads, nodes) && |dmaBuffer| == 1024
      && forall d :: d in nodes ==> |d.buffer| == BLOCK_SIZE && OnDisk(disk, d.blockNum)
    }

    /** Every node that is not busy holds what the disk holds. */
    ghost predicate Valid()
      reads this, nodes
    {
      Shape() && forall d :: d in nodes && !d.Busy() ==> d.buffer == BlockOf(disk, d.blockNum)
    }

    ghost predicate Cached(block: nat)
      reads this, nodes
    {
      exists d :: d in nodes && d.blockNum == block
    }

    /** The latest contents of a block: the cached copy, or the disk's. */
    ghost function Contents(block: nat): seq<Byte>
      requires Valid() && OnDisk(disk, block)
      reads this, nodes
    {
      if d :| d in nodes && d.blockNum == block then d.buffer else BlockOf(disk, block)
    }

    constructor (disk: seq<Sector>)
      ensures Valid() && nodes == {} && this.disk == disk && fresh(nodes)
    {
      this.disk := disk;
      dmaBuffer := seq(1024, _ => 0);
      heads := seq(BUCKETS, _ => []);
      nodes := {};
    }

    /** fd_rw(DISK_READ, sector): two sectors into dma_buffer. */
    method FdRead(sector: nat)
      requires sector + 2 <= |disk|
      modifies this`dmaBuffer
      ensures dmaBuffer == disk[sector][..] + disk[sector + 1]
    {
      dmaBuffer := disk[sector][..] + disk[sector + 1];
    }

    /** fd_rw(DISK_WRITE, sector) */
    method FdWrite(sector: nat)
      requires sector + 2 <= |disk| && |dmaBuffer| == 1024
      modifies this`disk
      ensures disk == old(disk)[sector := dmaBuffer[..SECTOR_SIZE]][sector + 1 := dmaBuffer[SECTOR_SIZE..]]
    {
      disk := disk[sector := dmaBuffer[..SECTOR_SIZE]][sector + 1 := dmaBuffer[SECTOR_SIZE..]];
    }

    /** find_dnode */
    method FindNode(block: nat) returns (found: DbNode?)
      requires Shape()
      ensures found == null <==> !Cached(block)
      ensures found != null ==> found in nodes && found.blockNum == block
    {
      var h := block % BUCKETS;
      found := null;
      for i := 0 to |heads[h]|
        invariant found == null
        invariant forall k :: 0 <= k < i ==> heads[h][k].blockNum != block
      {
        if heads[h][i].blockNum == block {
          return heads[h][i];
        }
      }
    }

    /** The four transfers that fill a new node's buffer. */
    method ReadBlock(d: DbNode)
      requires OnDisk(disk, d.blockNum) && |d.buffer| == BLOCK_SIZE
      modifies this`dmaBuffer, d`buffer
      ensures d.buffer == BlockOf(disk, d.blockNum) && |dmaBuffer| == 1024
    {
      var start := d.blockNum * BLOCK_SECTORS;
      for i := 0 to 4
        invariant |d.buffer| == BLOCK_SIZE && (i > 0 ==> |dmaBuffer| == 1024)
        invariant forall k :: 0 <= k < i * 2 ==> SectorIn(d.buffer, k) == disk[start + k]
      {
        FdRead(start + i * 2);
        ghost var was := d.buffer;
        d.buffer := Patch(d.buffer, i * 1024, dmaBuffer);
        forall k | 0 <= k < i * 2 + 2
          ensures SectorIn(d.buffer, k) == if k < i * 2 then SectorIn(was, k) else dmaBuffer[(k - i * 2) * 512..(k - i * 2 + 1) * 512]
        {
        }
      }
      BlockFromSectors(d.buffer, disk, d.blockNum);
    }

    /** disk_buffer_syc */
    method Sync(block: nat)
      requires Shape()
      modifies this`disk, this`dmaBuffer
      ensures |disk| == |old(disk)| && |dmaBuffer| == 1024
      ensures !Cached(block) ==> disk == old(disk)
      ensures forall d :: d in nodes && d.blockNum == block ==> BlockWritten(old(disk), disk, block, d.buffer)
    {
      var d := FindNode(block);
      if d != null {
        var start := block * BLOCK_SECTORS;
        for i := 0 to 4
          invariant |dmaBuffer| == 1024 && SyncedTo(old(disk), disk, block, d.buffer, i * 2)
        {
          dmaBuffer := d.buffer[i * 1024..(i + 1) * 1024];
          SyncedMore(old(disk), disk, block, d.buffer, i * 2, dmaBuffer);
          FdWrite(start + i * 2);
        }
        BlockFromSectors(d.buffer, disk, block);
      }
    }

    /** Unlinks a node from its bucket and puts it at the front. */
    method MoveToFront(d: DbNode)
      requires Shape() && d in nodes
      modifies this`heads
      ensures Shape()
      ensures MovedToFront(old(heads), heads, d)
    {
      var h := d.blockNum % BUCKETS;
      var i :| 0 <= i < |heads[h]| && heads[h][i] == d;
      MovedMembers(heads[h], i);
      heads := heads[h := [d] + Without(heads[h], i)];
    }

    /** list_insert_after on the bucket of a new node. */
    method InsertNew(d: DbNode)
      requires Shape() && d !in nodes && !Cached(d.blockNum)
      requires |d.buffer| == BLOCK_SIZE && OnDisk(disk, d.blockNum)
      modifies this`heads, this`nodes
      ensures Shape() && nodes == old(nodes) + {d}
      ensures heads == old(heads)[d.blockNum % BUCKETS := [d] + old(heads[d.blockNum % BUCKETS])]
    {
      heads := heads[d.blockNum % BUCKETS := [d] + heads[d.blockNum % BUCKETS]];
      nodes := nodes + {d};
    }

    /** The part of disk_buffer_get for a block that is not cached. */
    method GetNew(block: nat, undefined: bv32) returns (d: DbNode)
      requires Valid() && OnDisk(disk, block) && !Cached(block)
      modifies this`heads, this`nodes, this`dmaBuffer
      ensures Valid() && fresh(d) && nodes == old(nodes) + {d} && d.blockNum == block && d.Busy()
      ensures d.buffer == BlockOf(disk, block)
      ensures heads == old(heads)[block % BUCKETS := [d] + old(heads[block % BUCKETS])]
    {
      d := new DbNode(undefined, block);
      d.MarkBusy();
      InsertNew(d);
      ReadBlock(d);
    }

    /** disk_buffer_get; kmalloc leaves the flags of a new node undefined. */
    method Get(block: nat, undefined: bv32) returns (d: DbNode)
      requires Valid() && OnDisk(disk, block)
      modifies this, nodes
      ensures Valid() && d in nodes && d.blockNum == block && d.Busy()
      ensures d.buffer == old(Contents(block)) && disk == old(disk)
      ensures if old(Cached(block)) then d in old(nodes) && nodes == old(nodes) else fresh(d) && nodes == old(nodes) + {d}
      ensures forall e :: e in old(nodes) && e != d ==> e.flags == old(e.flags) && e.buffer == old(e.buffer)
      ensures if old(Cached(block)) then MovedToFront(old(heads), heads, d)
              else heads == old(heads)[block % BUCKETS := [d] + old(heads[block % BUCKETS])]
    {
      var found := FindNode(block);
      if found != null {
        d := found;
        d.MarkBusy();
        MoveToFront(d);
      } else {
        d := GetNew(block, undefined);
      }
    }

    /** disk_buffer_put */
    method Put(block: nat)
      requires Valid()
      modifies this`disk, this`dmaBuffer, nodes`flags
      ensures Valid() && heads == old(heads) && nodes == old(nodes)
      ensures |disk| == |old(disk)|
      ensures !Cached(block) ==> disk == old(disk)
      ensures forall d :: d in nodes && d.blockNum == block ==> !d.Busy() && BlockWritten(old(disk), disk, block, d.buffer)
      ensures forall d :: d in nodes && d.blockNum != block ==> d.flags == old(d.flags)
    {
      var d := FindNode(block);
      if d != null {
        d.ClearBusy();
        Sync(block);
        forall e | e in nodes
          ensures BlockOf(disk, e.blockNum) == if e == d then d.buffer else BlockOf(old(disk), e.blockNum)
        {
          BlockAfter(old(disk), disk, block, d.buffer, e.blockNum);
        }
      }
    }

    // ---------------------------------------------------------------- what a client sees

    /** held are exactly the blocks in use; every other cached block equals the disk. */
    ghost predicate Using(held: seq<DbNode>)
      reads this, nodes
    {
      && Valid()
      && (forall d :: d in held ==> d in nodes && d.Busy())
      && (forall d :: d in nodes && d.Busy() ==> d in held)
    }

    /** disk_buffer_get of a block not in use: its bytes on the disk. */
    method Acquire(block: nat, undefined: bv32, ghost held: seq<DbNode>) returns (d: DbNode)
      requires Using(held) && OnDisk(disk, block) && forall e :: e in held ==> e.blockNum != block
      modifies this, nodes
      ensures Using(held + [d]) && d.blockNum == block && d.buffer == BlockOf(disk, block) && disk == old(disk)
      ensures forall e :: e in held ==> e.buffer == old(e.buffer)
      ensures fresh(nodes - old(nodes))
    {
      assert Contents(block) == BlockOf(disk, block);
      d := Get(block, undefined);
    }

    /** disk_buffer_put of a block in use: the disk takes its bytes. */
    method Release(d: DbNode, ghost held: seq<DbNode>)
      requires Using([d] + held) && d !in held
      modifies this`disk, this`dmaBuffer, nodes`flags
      ensures Using(held) && nodes == old(nodes)
      ensures BlockWritten(old(disk), disk, d.blockNum, d.buffer)
    {
      assert forall e :: e in [d] + held <==> e == d || e in held;
      Put(d.blockNum);
    }

    /** memcpy into the buffer of a block in use. */
    method Overwrite(d: DbNode, bytes: seq<Byte>, ghost held: seq<DbNode>)
      requires Using(held) && d in held && |bytes| == BLOCK_SIZE
      modifies d`buffer
      ensures Using(held) && d.buffer == bytes
    {
      d.buffer := bytes;
    }
  }
}
