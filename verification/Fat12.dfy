/**
 The FAT12 layer of kernel/fat12.c: the allocation table and the root directory in memory, file
 contents through the block cache.
 */
module Fat12 {
  import opened DiskBuffer
  import opened FatTable
  import opened FatVolume
  import opened Sequences

  /** memcpy */
  method CopyIn(to: array<Byte>, at: nat, bytes: seq<Byte>)
    requires at + |bytes| <= to.Length
    modifies to
    ensures to[..] == Patch(old(to[..]), at, bytes)
  {
    for i := 0 to |bytes|
      invariant to[..] == Patch(old(to[..]), at, bytes[..i])
    {
      to[at + i] := bytes[i];
    }
    assert bytes[..|bytes|] == bytes;
  }

  /** The static buffers fat and root. */
  class Volume {
    const fat: array<Byte>
    const root: array<Byte>
    ghost var chains: seq<seq<nat>>

    predicate Buffers()
      reads this
    {
      fat != root && fat.Length == FAT_BYTES && root.Length == ROOT_BYTES
    }

    ghost function Table(): seq<nat>
      requires Buffers()
      reads this, fat
    {
      Entries(fat[..])
    }

    ghost function Dir(): seq<seq<Byte>>
      requires Buffers()
      reads this, root
    {
      Slots(root[..])
    }

    ghost predicate Valid()
      reads this, fat, root
    {
      Buffers() && VolumeOk(Table(), Dir(), chains)
    }

    /** The files of the volume, on the given disk. */
    ghost function Files(disk: seq<Sector>): map<seq<Byte>, seq<Byte>>
      requires Valid() && |disk| == DISK_SECTORS
      reads this, fat, root
    {
      FatVolume.Files(disk, Table(), Dir(), chains)
    }

    constructor ()
      ensures Buffers() && fresh(fat) && fresh(root)
    {
      fat := new Byte[FAT_BYTES](_ => 0);
      root := new Byte[ROOT_BYTES](_ => 0);
      new;
    }

    // ---------------------------------------------------------------- table entries

    /** *(unsigned short*)(fat + c) = w */
    method StoreWord(c: nat, w: nat)
      requires c + 1 < fat.Length && w < 0x1_0000
      modifies fat
      ensures fat[..] == Store16(old(fat[..]), c, w)
    {
      fat[c] := w % 256;
      fat[c + 1] := w / 256;
    }

    /** get_free_fat_entry: claims the first unused entry, and marks it as the end of a chain. */
    method GetFreeEntry() returns (e: int)
      requires Buffers()
      modifies fat
      ensures e == -1 ==> fat[..] == old(fat[..]) && Zeros(Entries(fat[..])) == {}
      ensures e != -1 ==> 0 <= e < FAT_ENTRIES && old(Entry(fat[..], e)) == 0 && fat[..] == SetEntry(old(fat[..]), e, END_MARK)
      ensures e != -1 ==> forall i :: 0 <= i < e ==> old(Entry(fat[..], i)) != 0
    {
      var i := 0;
      while i < FAT_ENTRIES
        invariant 0 <= i <= FAT_ENTRIES && fat[..] == old(fat[..])
        invariant forall k :: 0 <= k < i ==> Entry(fat[..], k) != 0
      {
        var c := i * 3 / 2;
        var word := Load16(fat[..], c);
        var cluster := if i % 2 == 1 then word / 16 else word;
        cluster := cluster % 4096;
        if cluster == 0 {
          if i % 2 == 1 {
            StoreWord(c, word % 16 + 0xff80);
          } else {
            StoreWord(c, word / 4096 * 4096 + 0x0ff8);
          }
          return i;
        }
        i := i + 1;
      }
      e := -1;
    }

    // ---------------------------------------------------------------- directory

    /** The search of fat12_create_aux, fat12_remove_aux and fat12_get_inode, from slot `from`. */
    method FindName(filename: seq<Byte>, from: nat) returns (s: nat)
      requires Buffers() && 0 !in filename && from <= SLOTS
      ensures from <= s <= SLOTS && (s < SLOTS ==> Name(Dir()[s]) == ShortName(filename))
      ensures forall q :: from <= q < s ==> Name(Dir()[q]) != ShortName(filename)
    {
      var fname := ShortName(filename);
      ShortNameNoNul(filename);
      s := from;
      while s < SLOTS
        invariant from <= s <= SLOTS
        invariant forall q :: from <= q < s ==> Name(Dir()[q]) != fname
      {
        assert fname[..8] == fname;
        StrNCmpEqual(SlotAt(root[..], s), fname, 8);
        if StrNCmp(SlotAt(root[..], s), fname, 8) == 0 {
          return;
        }
        s := s + 1;
      }
    }

    /** The search for a slot that is not in use. */
    method FindUnused() returns (s: nat)
      requires Buffers()
      ensures s <= SLOTS && (s < SLOTS ==> !Live(Dir()[s]))
      ensures forall q :: 0 <= q < s ==> Live(Dir()[q])
    {
      s := 0;
      while s < SLOTS && root[s * SLOT_SIZE] != 0
        invariant s <= SLOTS
        invariant forall q :: 0 <= q < s ==> Live(Dir()[q])
      {
        s := s + 1;
      }
    }

    /** Writes the new slot, with whatever get_free_fat_entry returned taken as an unsigned short. */
    method WriteNewSlot(j: nat, filename: seq<Byte>) returns (e: int)
      requires Buffers() && j < SLOTS && |filename| <= SLOT_SIZE
      modifies fat, root
      ensures e == -1 ==> Zeros(old(Table())) == {} && fat[..] == old(fat[..])
      ensures e != -1 ==> 0 <= e < FAT_ENTRIES && old(Table())[e] == 0 && Table() == old(Table())[e := END_MARK]
      ensures e != -1 ==> forall i :: 0 <= i < e ==> old(Table())[i] != 0
      ensures Dir() == old(Dir())[j := NewSlot(old(Dir())[j], filename, if e == -1 then 0xffff else e)]
    {
      e := GetFreeEntry();
      if e != -1 { SetEntries(old(fat[..]), e, END_MARK); }
      var cluster := if e == -1 then 0xffff else e;
      SlotsPatch(root[..], j, NewSlot(SlotAt(root[..], j), filename, cluster));
      CopyIn(root, j * SLOT_SIZE, NewSlot(SlotAt(root[..], j), filename, cluster));
    }

    /** The part of fat12_create_aux past its two searches. */
    method CreateAt(j: nat, filename: seq<Byte>, ghost disk: seq<Sector>) returns (broken: bool)
      requires Valid() && |disk| == DISK_SECTORS && 0 !in filename && |filename| <= SLOT_SIZE && j < SLOTS && !Live(Dir()[j])
      requires ShortName(filename) !in Names(Dir()) && forall q :: 0 <= q < j ==> Live(Dir()[q])
      modifies fat, root, this`chains
      ensures broken <==> Zeros(old(Table())) == {}
      ensures !broken ==>
                Valid() && Files(disk) == old(Files(disk))[ShortName(filename) := []]
                && Created(filename, old(Table()), old(Dir()), old(chains), Table(), Dir(), chains)
      ensures broken ==> NoChains(Table(), Dir())
    {
      ghost var t, slots, c := Table(), Dir(), chains;
      var e := WriteNewSlot(j, filename);
      broken := e == -1;
      if broken {
        CreateBreaks(t, slots, j, filename);
      } else {
        assert e in Zeros(t);
        CreateAdds(disk, t, slots, chains, j, e, filename);
        chains := chains[j := [e]];
        assert CreatedAt(filename, t, slots, c, Table(), Dir(), chains, j, e);
      }
    }

    /**
     fat12_create_aux.  The volume stays sound exactly when the name is taken, the root is full or an
     entry is free: the result of get_free_fat_entry is not checked for -1.
     */
    method Create(filename: seq<Byte>, ghost disk: seq<Sector>) returns (broken: bool)
      requires Valid() && |disk| == DISK_SECTORS && 0 !in filename && |filename| <= SLOT_SIZE
      modifies fat, root, this`chains
      ensures broken <==> !Refused(old(Dir()), ShortName(filename)) && Zeros(old(Table())) == {}
      ensures broken ==> NoChains(Table(), Dir())
      ensures !broken ==> Valid()
      ensures !broken ==> CreatedIfRoom(filename, disk, old(Table()), old(Dir()), old(chains), Table(), Dir(), chains)
      ensures Refused(old(Dir()), ShortName(filename)) ==> fat[..] == old(fat[..]) && root[..] == old(root[..])
    {
      NamedIsLive(Dir(), filename);
      broken := false;
      var s := FindName(filename, 0);
      if s < SLOTS {
        assert ShortName(filename) in Names(Dir());
      } else {
        assert ShortName(filename) !in Names(Dir());
        var j := FindUnused();
        if j < SLOTS {
          assert !RootFull(Dir());
          broken := CreateAt(j, filename, disk);
        } else {
          assert RootFull(Dir());
        }
      }
    }

    /** The inner loop of fat12_remove_aux: clears every entry of the chain that starts at cluster first. */
    method FreeChain(first: nat, ghost c: seq<nat>)
      requires Buffers() && IsChain(Table(), c) && c[0] == first
      modifies fat
      ensures Table() == ChainCleared(old(Table()), c)
    {
      ghost var t, k := Table(), 0;
      var cluster := first;
      while true
        invariant 0 <= k < |c| && cluster == c[k] && Table() == ChainCleared(t, c[..k])
        decreases |c| - k
      {
        ClearedStep(t, c, k);
        SetEntries(fat[..], cluster, 0);
        var at := cluster * 3 / 2;
        var word := Load16(fat[..], at);
        var next;
        assert Entry(fat[..], cluster) == t[c[k]];
        if cluster % 2 == 1 {
          next := word / 16;
          StoreWord(at, word % 16);
        } else {
          next := word % 4096;
          StoreWord(at, word / 4096 * 4096);
        }
        if next >= 0xff8 {
          assert c[..k + 1] == c;
          break;
        }
        cluster, k := next, k + 1;
      }
    }

    /** Frees the chain of slot s and zeroes the slot. */
    method RemoveSlot(s: nat, ghost disk: seq<Sector>)
      requires Valid() && |disk| == DISK_SECTORS && s < SLOTS && Live(Dir()[s])
      modifies fat, root, this`chains
      ensures Valid() && Files(disk) == old(Files(disk)) - {Name(old(Dir())[s])}
      ensures Table() == ChainCleared(old(Table()), old(chains)[s])
      ensures Dir() == old(Dir())[s := seq(SLOT_SIZE, _ => 0)]
    {
      var zeros := seq(SLOT_SIZE, _ => 0);
      ghost var t, slots, c := Table(), Dir(), chains;
      RemoveTakes(disk, t, slots, c, s, zeros);
      SlotsPatch(root[..], s, zeros);
      FreeChain(Cluster(SlotAt(root[..], s)), chains[s]);
      CopyIn(root, s * SLOT_SIZE, zeros);
      chains := chains[s := []];
      assert Table() == ChainCleared(t, c[s]) && Dir() == slots[s := zeros];
      assert VolumeOk(Table(), Dir(), chains);
    }

    /** One turn of the loop of fat12_remove_aux, up to and with the next slot that has the name. */
    method RemoveNext(filename: seq<Byte>, from: nat, ghost disk: seq<Sector>) returns (next: nat)
      requires Valid() && |disk| == DISK_SECTORS && 0 !in filename && from < SLOTS && Absent(Dir(), ShortName(filename), from)
      modifies fat, root, this`chains
      ensures from < next <= SLOTS && Valid()
      ensures if ShortName(filename) in Names(old(Dir())) then
                Removed(ShortName(filename), old(Table()), old(Dir()), old(chains), Table(), Dir()) && Files(disk) == old(Files(disk)) - {ShortName(filename)}
              else
                next == SLOTS && Table() == old(Table()) && Dir() == old(Dir()) && chains == old(chains) && Files(disk) == old(Files(disk))
      ensures ShortName(filename) !in Names(old(Dir())) ==> fat[..] == old(fat[..]) && root[..] == old(root[..])
    {
      NamedIsLive(Dir(), filename);
      next := FindName(filename, from);
      if next < SLOTS {
        AbsentPast(Table(), Dir(), chains, filename, next);
        ClearedZeros(Table(), chains[next]);
        RemoveSlot(next, disk);
        next := next + 1;
      } else {
        AbsentNowhere(Dir(), ShortName(filename));
      }
    }

    /** fat12_remove_aux: the file of that name goes, if there is one; exactly the entries of its chain become free. */
    method Remove(filename: seq<Byte>, ghost disk: seq<Sector>)
      requires Valid() && |disk| == DISK_SECTORS && 0 !in filename
      modifies fat, root, this`chains
      ensures Valid() && Files(disk) == old(Files(disk)) - {ShortName(filename)}
      ensures RemovedFrom(ShortName(filename), disk, old(Table()), old(Dir()), old(chains), Table(), Dir(), chains)
      ensures ShortName(filename) !in Names(old(Dir())) ==> fat[..] == old(fat[..]) && root[..] == old(root[..])
    {
      ghost var p, t, slots, c, m := ShortName(filename), Table(), Dir(), chains, Files(disk);
      var from: nat := 0;
      ghost var gone := false;
      while from < SLOTS
        invariant from <= SLOTS && Valid() && Absent(Dir(), p, from)
        invariant !gone ==> Table() == t && Dir() == slots && chains == c && Files(disk) == m
        invariant gone ==> Removed(p, t, slots, c, Table(), Dir()) && Files(disk) == m - {p}
        invariant !gone && from == SLOTS ==> p !in Names(slots)
        invariant p !in Names(slots) ==> !gone && fat[..] == old(fat[..]) && root[..] == old(root[..])
        decreases SLOTS - from
      {
        AbsentMembers(Dir(), p);
        ghost var here := p in Names(Dir());
        from := RemoveNext(filename, from, disk);
        AbsentMembers(Dir(), p);
        gone := gone || here;
      }
      if p !in m { MapWithout(m, p); }
    }

    /** Creating a file and removing it again gives back the table and the files as they were. */
    method CreateThenRemove(filename: seq<Byte>, ghost disk: seq<Sector>)
      requires Valid() && |disk| == DISK_SECTORS && 0 !in filename && |filename| <= SLOT_SIZE
      requires ShortName(filename) !in Names(Dir()) && (RootFull(Dir()) || Zeros(Table()) != {})
      modifies fat, root, this`chains
      ensures Valid() && Table() == old(Table()) && Files(disk) == old(Files(disk))
    {
      ghost var t, slots, c, m := Table(), Dir(), chains, Files(disk);
      var _ := Create(filename, disk);
      ghost var t1, slots1, c1, m1 := Table(), Dir(), chains, Files(disk);
      Remove(filename, disk);
      TableIsBack(filename, disk, t, slots, c, t1, slots1, c1, Table(), Dir());
      MapBack(m, m1, Files(disk), ShortName(filename), []);
    }

    // ---------------------------------------------------------------- resize

    /** The entry of a cluster, as every walk over a chain reads it. */
    method NextCluster(cluster: nat) returns (next: nat)
      requires Buffers() && cluster < FAT_ENTRIES
      ensures next == Table()[cluster]
    {
      var word := Load16(fat[..], cluster * 3 / 2);
      next := (if cluster % 2 == 1 then word / 16 else word) % 4096;
      assert Entry(fat[..], cluster) == next;
    }

    /** The walk of resize to the end of a chain. */
    method LastCluster(first: nat, ghost c: seq<nat>) returns (cluster: nat)
      requires Buffers() && IsChain(Table(), c) && c[0] == first
      ensures cluster == c[|c| - 1]
    {
      ghost var k := 0;
      cluster := first;
      while true
        invariant 0 <= k < |c| && cluster == c[k]
        decreases |c| - k
      {
        assert Link(Table(), c, k);
        var next := NextCluster(cluster);
        if next >= 0xff8 {
          return;
        }
        cluster, k := next, k + 1;
      }
    }

    /** Rewrites the entry of a cluster: the two masked writes of resize. */
    method SetLink(cluster: nat, next: nat)
      requires Buffers() && cluster < FAT_ENTRIES && next < 4096
      modifies fat
      ensures Table() == old(Table())[cluster := next]
    {
      SetEntries(fat[..], cluster, next);
      var at := cluster * 3 / 2;
      StoreWord(at, WithEntry(Load16(fat[..], at), cluster, next));
    }

    /** One turn of the allocation loop of resize: a new end entry, linked after the last cluster. */
    method LinkNew(cluster: nat, ghost c: seq<nat>) returns (next: int)
      requires Buffers() && IsChain(Table(), c) && cluster == c[|c| - 1]
      modifies fat
      ensures NewLink(old(Table()), c, next, Table())
    {
      ghost var t := Table();
      next := GetFreeEntry();
      if next == -1 {
        SetLink(cluster, 0xfff);
      } else {
        assert next in Zeros(t);
        SetEntries(old(fat[..]), next, END_MARK);
        SetLink(cluster, next);
      }
    }

    /** One turn of the allocation loop of resize. */
    method ExtendOnce(s: nat, cluster: int, ghost t0: seq<nat>, ghost was: seq<seq<nat>>, ghost added: seq<nat>, ghost i: int)
      returns (next: int, ghost added': seq<nat>)
      requires Buffers() && Turns(t0, was, Table(), Dir(), chains, s, added, i, false, cluster)
      modifies fat, this`chains
      ensures Turns(t0, was, Table(), Dir(), chains, s, added', i + 1, next == -1, next)
    {
      ghost var t, c := Table(), chains;
      TurnsChain(t0, was, t, Dir(), c, s, added, i, cluster);
      next := LinkNew(cluster, c[s]);
      TurnsGoOn(t0, was, t, Dir(), c, s, added, i, cluster, next, Table());
      added', chains := AddedWith(added, next), ChainsWith(c, s, next);
    }

    /**
     The allocation loop of resize: `needed` new clusters at the end of the chain of slot s, or as many as there are
     free entries.  `short` says that there were too few, and `wild` that the loop goes on all the same: with the
     cluster -1, whose entry it takes to be at fat + 32766.
     */
    method Extend(s: nat, last: nat, needed: nat) returns (short: bool, wild: bool, ghost added: seq<nat>)
      requires Buffers() && s < SLOTS && Linked(Table(), Dir(), chains) && Live(Dir()[s])
      requires last == chains[s][|chains[s]| - 1]
      modifies fat, this`chains
      ensures Growing(old(Table()), old(chains)[s], Table(), Dir(), chains, s, added)
      ensures chains == old(chains)[s := chains[s]]
      ensures short <==> |Zeros(old(Table()))| < needed
      ensures wild <==> |Zeros(old(Table()))| + 1 < needed
      ensures |added| == (if short then |Zeros(old(Table()))| else needed) == |Zeros(old(Table()))| - |Zeros(Table())|
      ensures LowestFirst(added, Zeros(Table()))
    {
      ghost var t0, was := Table(), chains;
      added, short := [], false;
      var cluster: int, i := last, 0;
      while i < needed && !short
        invariant 0 <= i <= needed && Turns(t0, was, Table(), Dir(), chains, s, added, i, short, cluster)
        decreases needed - i, !short
      {
        cluster, added := ExtendOnce(s, cluster, t0, was, added, i);
        short := cluster == -1;
        i := i + 1;
      }
      wild := short && i < needed;
    }

    /** *(unsigned long*)(dp+28) = newsize */
    method WriteSize(s: nat, newSize: nat)
      requires Buffers() && Linked(Table(), Dir(), chains) && s < SLOTS && Live(Dir()[s]) && newSize < RANGE_END
      modifies root
      ensures Dir() == old(Dir())[s := Store32(old(Dir())[s], 28, newSize)]
      ensures Linked(Table(), Dir(), chains) && Live(Dir()[s])
      ensures IsChain(Table(), chains[s]) && chains[s][0] == Cluster(old(Dir())[s])
    {
      var slot := SlotAt(root[..], s);
      ResizeLinked(Table(), Dir(), chains, s, newSize);
      SlotsPatch(root[..], s, Store32(slot, 28, newSize));
      CopyIn(root, s * SLOT_SIZE, Store32(slot, 28, newSize));
    }

    /** The rest of resize: nothing when no sector is needed, else new clusters at the end. */
    method GrowChain(s: nat, first: nat, needed: nat) returns (short: bool, wild: bool, ghost added: seq<nat>)
      requires Buffers() && s < SLOTS && Linked(Table(), Dir(), chains) && Live(Dir()[s])
      requires IsChain(Table(), chains[s]) && chains[s][0] == first
      modifies fat, this`chains
      ensures Growing(old(Table()), old(chains)[s], Table(), Dir(), chains, s, added)
      ensures chains == old(chains)[s := chains[s]]
      ensures short <==> |Zeros(old(Table()))| < needed
      ensures wild <==> |Zeros(old(Table()))| + 1 < needed
      ensures |added| == (if short then |Zeros(old(Table()))| else needed) == |Zeros(old(Table()))| - |Zeros(Table())|
    {
      short, wild, added := false, false, [];
      if needed == 0 {
        assert chains == chains[s := chains[s]];
        return;
      }
      var last := LastCluster(first, chains[s]);
      short, wild, added := Extend(s, last, needed);
    }

    /**
     resize without its final sync.  The volume stays sound exactly if there are enough free entries.  With too few,
     the chain is too short for the new size; with two or more too few, resize writes past the table.
     */
    method Resize(s: nat, newSize: nat) returns (grew: bool, short: bool, wild: bool, ghost added: seq<nat>)
      requires Valid() && s < SLOTS && Live(Dir()[s]) && Size(Dir()[s]) <= newSize < RANGE_END
      modifies fat, root, this`chains
      ensures Buffers() && Dir() == old(Dir())[s := Store32(old(Dir())[s], 28, newSize)]
      ensures short <==> |Zeros(old(Table()))| < newSize / SECTOR_SIZE - Size(old(Dir())[s]) / SECTOR_SIZE
      ensures wild <==> |Zeros(old(Table()))| + 1 < newSize / SECTOR_SIZE - Size(old(Dir())[s]) / SECTOR_SIZE
      ensures short ==> NoChains(Table(), Dir())
      ensures !short ==> Valid() && Growing(old(Table()), old(chains)[s], Table(), Dir(), chains, s, added)
      ensures !short ==> chains == old(chains)[s := chains[s]]
      ensures !short ==> |added| == newSize / SECTOR_SIZE - Size(old(Dir())[s]) / SECTOR_SIZE == |Zeros(old(Table()))| - |Zeros(Table())|
      ensures grew <==> newSize / SECTOR_SIZE != Size(old(Dir())[s]) / SECTOR_SIZE
    {
      var slot := SlotAt(root[..], s);
      ghost var slots, c := Dir(), chains;
      assert slot == slots[s];
      var needed := (newSize + SECTOR_SIZE) / SECTOR_SIZE - (Size(slot) + SECTOR_SIZE) / SECTOR_SIZE;
      SectorsNeeded(newSize, Size(slot));
      WriteSize(s, newSize);
      short, wild, added := GrowChain(s, Cluster(slot), needed);
      grew := needed != 0;
      Store32Reads(slot, newSize);
      if short {
        ShortBreaks(Table(), Dir(), chains, s);
      } else {
        GrowthDone(slots, c, s, newSize, chains);
      }
    }
  }

  class FileSystem {
    const vol: Volume
    const cache: DiskCache

    /** A cache with no block in use, in front of a disk of the right size. */
    ghost predicate Parts()
      reads this, vol, cache, cache.nodes
    {
      vol.Buffers() && cache.Using([]) && |cache.disk| == DISK_SECTORS
    }

    ghost predicate Valid()
      reads this, vol, vol.fat, vol.root, cache, cache.nodes
    {
      Parts() && vol.Valid()
    }

    constructor (cache: DiskCache)
      requires cache.Using([]) && |cache.disk| == DISK_SECTORS
      ensures Parts() && this.cache == cache && fresh(vol) && fresh(vol.fat) && fresh(vol.root)
    {
      this.cache := cache;
      vol := new Volume();
    }

    // ---------------------------------------------------------------- fat12_set_info

    /** The five calls of disk_buffer_get. */
    method GetInfoBlocks(junk: bv32) returns (d: seq<DbNode>)
      requires Parts()
      modifies cache, cache.nodes
      ensures cache.Using(d) && cache.disk == old(cache.disk) && |d| == 5
      ensures forall k :: 0 <= k < 5 ==> d[k].blockNum == k && d[k].buffer == BlockOf(cache.disk, k)
      ensures fresh(cache.nodes - old(cache.nodes))
    {
      d := [];
      for i := 0 to 5
        invariant cache.Using(d) && cache.disk == old(cache.disk) && |d| == i
        invariant forall k :: 0 <= k < i ==> d[k].blockNum == k && d[k].buffer == BlockOf(cache.disk, k)
        invariant fresh(cache.nodes - old(cache.nodes))
      {
        var n := cache.Acquire(i, junk, d);
        d := d + [n];
      }
    }

    /** One call of disk_buffer_put, for block i of those of the table and the root. */
    method PutInfoBlock(d: DbNode, i: nat, ghost rest: seq<DbNode>)
      requires cache.Using([d] + rest) && d !in rest && d.blockNum == i < 5 && |cache.disk| == DISK_SECTORS
      modifies cache`disk, cache`dmaBuffer, cache.nodes`flags
      ensures cache.Using(rest) && |cache.disk| == DISK_SECTORS && cache.nodes == old(cache.nodes)
      ensures BlockOf(cache.disk, i) == d.buffer
      ensures forall k :: 0 <= k < 5 && k != i ==> BlockOf(cache.disk, k) == BlockOf(old(cache.disk), k)
      ensures forall s :: 40 <= s < DISK_SECTORS ==> cache.disk[s] == old(cache.disk)[s]
    {
      ghost var was := cache.disk;
      cache.Release(d, rest);
      forall k | 0 <= k < 5 && k != i ensures BlockOf(cache.disk, k) == BlockOf(was, k) {
        BlockAfter(was, cache.disk, i, d.buffer, k);
      }
    }

    /** The five calls of disk_buffer_put. */
    method PutInfoBlocks(d: seq<DbNode>)
      requires cache.Using(d) && |d| == 5 && |cache.disk| == DISK_SECTORS && forall k :: 0 <= k < 5 ==> d[k].blockNum == k
      modifies cache`disk, cache`dmaBuffer, cache.nodes`flags
      ensures cache.Using([]) && |cache.disk| == DISK_SECTORS && cache.nodes == old(cache.nodes)
      ensures forall k :: 0 <= k < 5 ==> BlockOf(cache.disk, k) == d[k].buffer
      ensures forall s :: 40 <= s < DISK_SECTORS ==> cache.disk[s] == old(cache.disk)[s]
    {
      for i := 0 to 5
        invariant cache.Using(d[i..]) && |cache.disk| == DISK_SECTORS && cache.nodes == old(cache.nodes)
        invariant forall k :: 0 <= k < i ==> BlockOf(cache.disk, k) == d[k].buffer
        invariant forall s :: 40 <= s < DISK_SECTORS ==> cache.disk[s] == old(cache.disk)[s]
      {
        assert d[i..] == [d[i]] + d[i + 1..];
        PutInfoBlock(d[i], i, d[i + 1..]);
      }
    }

    /** The five memcpy calls of fat12_set_info(FAT12_INFO_SYC). */
    method FillInfoBlocks(d: seq<DbNode>)
      requires cache.Using(d) && |d| == 5 && vol.Buffers()
      requires forall k :: 0 <= k < 5 ==> d[k].blockNum == k && |d[k].buffer| == BLOCK_SIZE
      modifies d`buffer
      ensures cache.Using(d)
      ensures forall k :: 0 <= k < 5 ==> d[k].buffer == InfoBlock(old(d[k].buffer), k, vol.fat[..], vol.root[..])
    {
      cache.Overwrite(d[0], Patch(d[0].buffer, 512, vol.fat[..3584]), d);
      cache.Overwrite(d[1], Patch(d[1].buffer, 0, vol.fat[3584..]), d);
      cache.Overwrite(d[2], Patch(d[2].buffer, 1536, vol.root[..2560]), d);
      cache.Overwrite(d[3], vol.root[2560..6656], d);
      cache.Overwrite(d[4], Patch(d[4].buffer, 0, vol.root[6656..]), d);
    }

    /** fat12_set_info(FAT12_INFO_SYC): the table and the root go to their sectors, and nowhere else. */
    method SyncInfo(junk: bv32)
      requires Parts()
      modifies cache, cache.nodes
      ensures Parts() && fresh(cache.nodes - old(cache.nodes))
      ensures OnDiskNow(cache.disk, vol.fat[..], vol.root[..]) && InfoOnly(old(cache.disk), cache.disk)
    {
      var d := GetInfoBlocks(junk);
      FillInfoBlocks(d);
      PutInfoBlocks(d);
      InfoDone(old(cache.disk), cache.disk, vol.fat[..], vol.root[..]);
    }

    /** The five memcpy calls of fat12_set_info(FAT12_INFO_READ). */
    method TakeInfoBlocks(d: seq<DbNode>)
      requires vol.Buffers()
      requires |cache.disk| == DISK_SECTORS && |d| == 5 && forall k :: 0 <= k < 5 ==> d[k].buffer == BlockOf(cache.disk, k)
      modifies vol.fat, vol.root
      ensures OnDiskNow(cache.disk, vol.fat[..], vol.root[..])
    {
      CopyIn(vol.fat, 0, d[0].buffer[512..]);
      CopyIn(vol.fat, 3584, d[1].buffer[..512]);
      assert vol.fat[..] == BlockOf(cache.disk, 0)[512..] + BlockOf(cache.disk, 1)[..512];
      CopyIn(vol.root, 0, d[2].buffer[1536..]);
      CopyIn(vol.root, 2560, d[3].buffer);
      CopyIn(vol.root, 6656, d[4].buffer[..512]);
      assert vol.root[..] == BlockOf(cache.disk, 2)[1536..] + BlockOf(cache.disk, 3) + BlockOf(cache.disk, 4)[..512];
      InfoRead(cache.disk, vol.fat[..], vol.root[..]);
    }

    /** fat12_set_info(FAT12_INFO_READ), the body of fat12_init. */
    method ReadInfo(junk: bv32)
      requires Parts()
      modifies vol.fat, vol.root, cache, cache.nodes
      ensures Parts() && fresh(cache.nodes - old(cache.nodes))
      ensures cache.disk == old(cache.disk) && OnDiskNow(cache.disk, vol.fat[..], vol.root[..])
    {
      var d := GetInfoBlocks(junk);
      TakeInfoBlocks(d);
      PutInfoBlocks(d);
      SameDisk(old(cache.disk), cache.disk);
    }

    /** fat12_init, on a disk that holds a sound volume: its files are those of the disk. */
    method Mount(junk: bv32, ghost fat: seq<Byte>, ghost root: seq<Byte>, ghost chains: seq<seq<nat>>)
      requires Parts() && |fat| == FAT_BYTES && |root| == ROOT_BYTES
      requires OnDiskNow(cache.disk, fat, root) && VolumeOk(Entries(fat), Slots(root), chains)
      modifies vol.fat, vol.root, vol`chains, cache, cache.nodes
      ensures Valid() && fresh(cache.nodes - old(cache.nodes)) && cache.disk == old(cache.disk)
      ensures vol.fat[..] == fat && vol.root[..] == root && vol.chains == chains
      ensures Files() == FatVolume.Files(old(cache.disk), Entries(fat), Slots(root), chains)
    {
      ReadInfo(junk);
      InfoUnique(cache.disk, fat, root, vol.fat[..], vol.root[..]);
      vol.chains := chains;
    }

    // ---------------------------------------------------------------- reading and writing

    /** read_sector, memcpy into the sector, disk_buffer_put. */
    method WriteSector(sect: nat, at: nat, data: seq<Byte>, junk: bv32)
      requires Parts() && sect < DISK_SECTORS && at + |data| <= SECTOR_SIZE
      modifies cache, cache.nodes
      ensures Parts() && fresh(cache.nodes - old(cache.nodes))
      ensures cache.disk == old(cache.disk)[sect := Patch(old(cache.disk)[sect], at, data)]
    {
      var block := sect / BLOCK_SECTORS;
      var place := sect % BLOCK_SECTORS * SECTOR_SIZE + at;
      var d := cache.Acquire(block, junk, []);
      ghost var before := cache.disk;
      cache.Overwrite(d, Patch(d.buffer, place, data), [] + [d]);
      cache.Release(d, []);
      SectorPatched(before, cache.disk, sect, at, data);
    }

    /** read_sector, memcpy out of the sector, disk_buffer_put. */
    method ReadSector(sect: nat, at: nat, n: nat, junk: bv32) returns (data: seq<Byte>)
      requires Parts() && sect < DISK_SECTORS && at + n <= SECTOR_SIZE
      modifies cache, cache.nodes
      ensures Parts() && fresh(cache.nodes - old(cache.nodes))
      ensures cache.disk == old(cache.disk) && data == cache.disk[sect][at..at + n]
    {
      var block := sect / BLOCK_SECTORS;
      var place := sect % BLOCK_SECTORS * SECTOR_SIZE + at;
      var d := cache.Acquire(block, junk, []);
      ghost var before := cache.disk;
      data := d.buffer[place..place + n];
      PieceOfBlock(before, sect, at, n);
      cache.Release(d, []);
      SameBlock(before, cache.disk, block);
    }

    /** The copy of one sector's piece in fat12_rw_aux; done is bufp - buf. */
    method CopyPiece(cmd: Command, sect: nat, at: nat, n: nat, buf: array<Byte>, done: nat, junk: bv32)
      requires Parts() && sect < DISK_SECTORS && at + n <= SECTOR_SIZE && done + n <= buf.Length
      modifies cache, cache.nodes, buf
      ensures Parts() && fresh(cache.nodes - old(cache.nodes))
      ensures PieceCopied(cmd, old(cache.disk), old(buf[..]), cache.disk, buf[..], sect, at, n, done)
    {
      match cmd
      case Read =>
        var data := ReadSector(sect, at, n, junk);
        CopyIn(buf, done, data);
      case Write =>
        WriteSector(sect, at, buf[done..done + n], junk);
    }

    /** The part of the loop of fat12_rw_aux that handles the sector of one cluster. */
    method OneSector(cmd: Command, cluster: nat, cur: nat, offset: nat, buf: array<Byte>, len: nat, done: nat, junk: bv32,
                     ghost c: seq<nat>, ghost disk0: seq<Sector>, ghost buf0: seq<Byte>)
      returns (now: nat)
      requires Parts() && buf != vol.fat && buf != vol.root && len <= buf.Length == |buf0| && |disk0| == DISK_SECTORS
      requires (forall i :: 0 <= i < |c| ==> c[i] < FAT_ENTRIES) && NoRepeats(c) && cur < |c| && cluster == c[cur]
      requires offset + len < |c| * SECTOR_SIZE && done == Done(offset, len, cur) <= len
      requires Progress(cmd, disk0, buf0, cache.disk, buf[..], c, offset, len, done)
      modifies cache, cache.nodes, buf
      ensures Parts() && fresh(cache.nodes - old(cache.nodes))
      ensures now == Done(offset, len, cur + 1) <= len
      ensures Progress(cmd, disk0, buf0, cache.disk, buf[..], c, offset, len, now)
    {
      now := done;
      if Touched(offset, len, cur) {
        var at, n := PieceStart(offset, cur), PieceSize(offset, len, cur);
        PieceFits(offset, len, cur);
        ghost var disk, was := cache.disk, buf[..];
        CopyPiece(cmd, cluster + DATA_SHIFT, at, n, buf, done, junk);
        ProgressStep(cmd, disk0, buf0, disk, was, cache.disk, buf[..], c, offset, len, cur, at, n, done);
        now := done + n;
      } else {
        PieceSkipped(offset, len, cur);
      }
    }

    /** The loop of fat12_rw_aux over the chain c of a file, for a range inside the chain. */
    method Transfer(cmd: Command, first: nat, offset: nat, buf: array<Byte>, len: nat, junk: bv32, ghost c: seq<nat>)
      requires Parts() && buf != vol.fat && buf != vol.root && len <= buf.Length
      requires IsChain(vol.Table(), c) && c[0] == first && offset + len < |c| * SECTOR_SIZE
      modifies cache, cache.nodes, buf
      ensures Parts() && fresh(cache.nodes - old(cache.nodes))
      ensures Progress(cmd, old(cache.disk), old(buf[..]), cache.disk, buf[..], c, offset, len, len)
    {
      var cluster, cur, done := first, 0, 0;
      ghost var t, disk0, buf0 := vol.Table(), cache.disk, buf[..];
      NothingMoved(cmd, disk0, buf0, c, offset, len);
      var more := true;
      while more
        invariant Parts() && fresh(cache.nodes - old(cache.nodes)) && vol.Table() == t
        invariant cur < |c| && done <= len && (if more then cluster == c[cur] && done == Done(offset, len, cur) else done == len)
        invariant Progress(cmd, disk0, buf0, cache.disk, buf[..], c, offset, len, done)
        decreases |c| - cur, more
      {
        ChainStep(t, c, cur);
        DoneAtEnd(offset, len, |c|);
        var next := vol.NextCluster(cluster);
        done := OneSector(cmd, cluster, cur, offset, buf, len, done, junk, c, disk0, buf0);
        if next >= 0xff8 {
          more := false;
        } else {
          cur, cluster := cur + 1, next;
        }
      }
    }

    /** The files on the volume's own disk. */
    ghost function Files(): map<seq<Byte>, seq<Byte>>
      requires Valid()
      reads this, vol, vol.fat, vol.root, cache, cache.nodes
    {
      vol.Files(cache.disk)
    }

    ghost predicate InUse(s: nat)
      reads this, vol, vol.fat, vol.root, cache, cache.nodes
    {
      Valid() && s < SLOTS && Live(vol.Dir()[s])
    }

    /** All files, and the name and bytes of the one in slot s. */
    ghost function Look(s: nat): (v: View)
      requires InUse(s)
      reads this, vol, vol.fat, vol.root, cache, cache.nodes
      ensures |v.bytes| == Size(vol.Dir()[s])
    {
      LookAt(cache.disk, vol.Table(), vol.Dir(), vol.chains, s)
    }

    /** What the growth of a file leaves to be accessed, from the view `before`. */
    ghost predicate Grown(s: nat, first: nat, end: nat, before: View, disk0: seq<Sector>, c0: seq<nat>)
      reads this, vol, vol.fat, vol.root, cache, cache.nodes
    {
      && InUse(s) && first == vol.chains[s][0] && |before.bytes| < end && |disk0| == DISK_SECTORS
      && GrownTo(before, Look(s), end) && HeldBy(Look(s).bytes, disk0, vol.chains[s])
      && Synced(disk0, cache.disk, vol.fat[..], vol.root[..], NewClusters(|before.bytes|, end))
      && (NewClusters(|before.bytes|, end) == 0 ==> vol.chains[s] == c0)
    }

    /** The range ends so far past the file that there are too few free entries for it. */
    ghost predicate TooFew(s: nat, end: nat)
      requires InUse(s)
      reads this, vol, vol.fat, vol.root, cache, cache.nodes
    {
      |Zeros(vol.Table())| < NewClusters(Size(vol.Dir()[s]), end)
    }

    /**
     Growth of fat12_rw_aux, when the range ends past the file: resize, and its sync when clusters were added.  `short`
     says that there were too few free entries, which breaks the volume.
     */
    method Grow(s: nat, end: nat, junk: bv32) returns (short: bool)
      requires InUse(s) && Size(vol.Dir()[s]) < end < RANGE_END
      modifies vol.fat, vol.root, vol`chains, cache, cache.nodes
      ensures Parts() && fresh(cache.nodes - old(cache.nodes))
      ensures short <==> old(TooFew(s, end))
      ensures short ==> NoChains(vol.Table(), vol.Dir())
      ensures !short ==> InUse(s)
      ensures !short ==> Synced(old(cache.disk), cache.disk, vol.fat[..], vol.root[..], NewClusters(|old(Look(s)).bytes|, end))
      ensures !short ==> GrownTo(old(Look(s)), Look(s), end) && vol.chains[s][0] == old(vol.chains)[s][0]
      ensures !short ==> HeldBy(Look(s).bytes, old(cache.disk), vol.chains[s])
      ensures !short && NewClusters(|old(Look(s)).bytes|, end) == 0 ==> vol.chains[s] == old(vol.chains)[s]
      ensures !short ==> |Zeros(vol.Table())| == |Zeros(old(vol.Table()))| - NewClusters(|old(Look(s)).bytes|, end)
    {
      ghost var disk, t, slots, chains := cache.disk, vol.Table(), vol.Dir(), vol.chains;
      var grew, wild;
      ghost var added;
      grew, short, wild, added := vol.Resize(s, end);
      if grew && !wild {
        SyncInfo(junk);
      }
      if !short {
        Store32Reads(slots[s], end);
        GrowFiles(disk, t, slots, chains, cache.disk, vol.Table(), vol.Dir(), vol.chains, s, added);
        GrownShows(disk, cache.disk, vol.Table(), vol.Dir(), vol.chains, s);
      }
    }

    /** fat12_rw_aux for a range inside the file. */
    method AccessInside(cmd: Command, s: nat, first: nat, offset: nat, buf: array<Byte>, len: nat, junk: bv32)
      requires InUse(s) && first == vol.chains[s][0]
      requires buf != vol.fat && buf != vol.root && len <= buf.Length && offset + len <= Size(vol.Dir()[s])
      modifies cache, cache.nodes, buf
      ensures InUse(s) && fresh(cache.nodes - old(cache.nodes))
      ensures Accessed(cmd, old(Look(s)), Look(s), offset, old(buf[..]), buf[..], len)
      ensures cmd.Read? ==> cache.disk == old(cache.disk)
      ensures ChainOnly(old(cache.disk), cache.disk, vol.chains[s])
    {
      ghost var disk, c := cache.disk, vol.chains[s];
      ChainHolds(Size(vol.Dir()[s]), |c|, offset + len);
      Transfer(cmd, first, offset, buf, len, junk, c);
      TransferStays(cmd, disk, old(buf[..]), cache.disk, buf[..], c, offset, len);
      TransferMeans(cmd, disk, old(buf[..]), cache.disk, buf[..], vol.Table(), vol.Dir(), vol.chains, s, offset, len);
    }

    /** What an access past the end of a file leaves behind, from the view `before`. */
    ghost predicate AccessedPast(cmd: Command, s: nat, offset: nat, len: nat, before: View, disk0: seq<Sector>, fat0: seq<Byte>,
                                 root0: seq<Byte>, c0: seq<nat>, buf0: seq<Byte>, buf: seq<Byte>)
      requires len <= |buf0|
      reads this, vol, vol.fat, vol.root, cache, cache.nodes
    {
      && InUse(s) && Accessed(cmd, before, Look(s), offset, buf0, buf, len)
      && ShowsDisk(cmd, before, Look(s), disk0, vol.chains[s], offset, len)
      && DiskAfter(disk0, fat0, root0, c0, cache.disk, vol.fat[..], vol.root[..], vol.chains[s], |before.bytes|, offset + len)
    }

    /** fat12_rw_aux for a range inside a file that has just grown for it, unless that broke the volume. */
    method AccessGrown(broken: bool, cmd: Command, s: nat, first: nat, offset: nat, buf: array<Byte>, len: nat, junk: bv32,
                       ghost before: View, ghost disk0: seq<Sector>, ghost fat0: seq<Byte>, ghost root0: seq<Byte>, ghost c0: seq<nat>)
      requires Parts() && buf != vol.fat && buf != vol.root && len <= buf.Length
      requires !broken ==> Grown(s, first, offset + len, before, disk0, c0)
      modifies cache, cache.nodes, buf
      ensures Parts() && fresh(cache.nodes - old(cache.nodes))
      ensures !broken ==> AccessedPast(cmd, s, offset, len, before, disk0, fat0, root0, c0, old(buf[..]), buf[..])
    {
      if !broken {
        ghost var grown, disk1, was := Look(s), cache.disk, buf[..];
        AccessInside(cmd, s, first, offset, buf, len, junk);
        PastDone(cmd, before, grown, Look(s), offset, was, buf[..], len,
                 disk0, fat0, root0, c0, disk1, cache.disk, vol.fat[..], vol.root[..], vol.Table(), vol.chains[s]);
      }
    }

    /** fat12_rw_aux for a range that ends past the file. */
    method AccessPast(cmd: Command, s: nat, first: nat, offset: nat, buf: array<Byte>, len: nat, junk: bv32) returns (broken: bool)
      requires InUse(s) && first == vol.chains[s][0] && Size(vol.Dir()[s]) < offset + len < RANGE_END
      requires buf != vol.fat && buf != vol.root && len <= buf.Length
      modifies vol.fat, vol.root, vol`chains, cache, cache.nodes, buf
      ensures Parts() && fresh(cache.nodes - old(cache.nodes))
      ensures broken <==> old(TooFew(s, offset + len))
      ensures broken ==> NoChains(vol.Table(), vol.Dir())
      ensures !broken ==> AccessedPast(cmd, s, offset, len, old(Look(s)), old(cache.disk), old(vol.fat[..]), old(vol.root[..]),
                                       old(vol.chains[s]), old(buf[..]), buf[..])
      ensures !broken ==> |Zeros(vol.Table())| == |Zeros(old(vol.Table()))| - NewClusters(|old(Look(s)).bytes|, offset + len)
    {
      ghost var before, disk, fat, root, c := Look(s), cache.disk, vol.fat[..], vol.root[..], vol.chains[s];
      broken := Grow(s, offset + len, junk);
      AccessGrown(broken, cmd, s, first, offset, buf, len, junk, before, disk, fat, root, c);
    }

    /**
     fat12_rw_aux on the file of slot s: a write puts the buffer at offset and keeps the rest of the file and
     all other files; a read returns the bytes at offset, of a file that first grows when the range ends past it.
     A file that grows shows what the sectors of its chain held.
     When the growth breaks the volume nothing more is said.
     */
    method ReadWrite(cmd: Command, s: nat, offset: nat, buf: array<Byte>, len: nat, junk: bv32) returns (broken: bool)
      requires InUse(s)
      requires buf != vol.fat && buf != vol.root && len <= buf.Length && offset < 0x8000_0000 && offset + len < RANGE_END
      modifies vol.fat, vol.root, vol`chains, cache, cache.nodes, buf
      ensures Parts() && fresh(cache.nodes - old(cache.nodes))
      ensures broken <==> old(TooFew(s, offset + len))
      ensures broken ==> NoChains(vol.Table(), vol.Dir())
      ensures !broken ==> InUse(s) && Accessed(cmd, old(Look(s)), Look(s), offset, old(buf[..]), buf[..], len)
      ensures !broken ==> ShowsDisk(cmd, old(Look(s)), Look(s), old(cache.disk), vol.chains[s], offset, len)
      ensures !broken ==> DiskAfter(old(cache.disk), old(vol.fat[..]), old(vol.root[..]), old(vol.chains[s]),
                                    cache.disk, vol.fat[..], vol.root[..], vol.chains[s], |old(Look(s)).bytes|, offset + len)
      ensures !broken ==> |Zeros(vol.Table())| == |Zeros(old(vol.Table()))| - NewClusters(|old(Look(s)).bytes|, offset + len)
      ensures cmd.Read? && offset + len <= |old(Look(s)).bytes| ==> cache.disk == old(cache.disk)
    {
      var slot := SlotAt(vol.root[..], s);
      assert slot == vol.Dir()[s];
      var first := Cluster(slot);
      if offset + len > Size(slot) {
        broken := AccessPast(cmd, s, first, offset, buf, len, junk);
      } else {
        broken := false;
        ghost var before, disk := Look(s), cache.disk;
        AccessInside(cmd, s, first, offset, buf, len, junk);
        NothingShown(cmd, before, Look(s), disk, vol.Table(), vol.Dir(), vol.chains, s, offset, old(buf[..]), buf[..], len);
        DiskDone(disk, vol.fat[..], vol.root[..], vol.chains[s], disk, cache.disk, vol.fat[..], vol.root[..], vol.Table(), vol.chains[s],
                 |before.bytes|, offset + len);
      }
    }
  }
}
