/**
 Whole runs of the file calls of kernel/fat12.c, against a map of names to bytes and a count of the free clusters.
 */
module FileRuns {
  import opened DiskBuffer
  import opened FatTable
  import opened FatVolume
  import opened Fat12
  import opened Sequences

  /** What a volume is to its callers. */
  datatype Store = Store(files: map<seq<Byte>, seq<Byte>>, free: int)

  datatype Request =
    | CreateFile(name: seq<Byte>)
    | RemoveFile(name: seq<Byte>)
    | ReadAt(name: seq<Byte>, offset: nat, len: nat)
    | WriteAt(name: seq<Byte>, offset: nat, bytes: seq<Byte>)

  /** A C string, short enough for its slot, and a range whose end can be rounded up to a sector in 32 bits. */
  ghost predicate Sensible(r: Request) {
    && 0 !in r.name
    && match r
       case CreateFile(name) => |name| <= SLOT_SIZE
       case RemoveFile(_) => true
       case ReadAt(_, offset, len) => offset < 0x8000_0000 && offset + len < RANGE_END
       case WriteAt(_, offset, bytes) => offset < 0x8000_0000 && offset + |bytes| < RANGE_END
  }

  /** There are enough free clusters. */
  ghost predicate Fits(v: Store, r: Request) {
    var p := ShortName(r.name);
    match r
    case CreateFile(_) => p in v.files || |v.files| == SLOTS || v.free > 0
    case RemoveFile(_) => true
    case ReadAt(_, offset, len) => RangeFits(v, p, offset + len)
    case WriteAt(_, offset, bytes) => RangeFits(v, p, offset + |bytes|)
  }

  ghost predicate RangeFits(v: Store, p: seq<Byte>, end: nat) {
    p in v.files ==> NewClusters(|v.files[p]|, end) <= v.free
  }

  /** What reading or writing a range does to the file of name p, to the other files and to the caller's buffer. */
  ghost predicate RangeServed(cmd: Command, v: Store, p: seq<Byte>, offset: nat, buf: seq<Byte>, v': Store, buf': seq<Byte>)
    requires p in v.files
  {
    var f, end := v.files[p], offset + |buf|;
    && p in v'.files && v'.files == v.files[p := v'.files[p]] && v'.free == v.free - NewClusters(|f|, end)
    && match cmd
       case Write => buf' == buf && Written(f, v'.files[p], offset, buf)
       case Read =>
         && |v'.files[p]| == (if end > |f| then end else |f|)
         && v'.files[p][..|f|] == f && buf' == v'.files[p][offset..end]
  }

  /** What a request does to the files and the caller's buffer. */
  ghost predicate Served(v: Store, r: Request, v': Store, buf: seq<Byte>) {
    var p := ShortName(r.name);
    match r
    case CreateFile(_) =>
      v' == if p in v.files || |v.files| == SLOTS then v else Store(v.files[p := []], v.free - 1)
    case RemoveFile(_) =>
      v' == if p in v.files then Store(v.files - {p}, v.free + |v.files[p]| / SECTOR_SIZE + 1) else v
    case ReadAt(_, offset, len) =>
      if p in v.files then |buf| == len && RangeServed(Read, v, p, offset, seq(len, _ => 0), v', buf) else v' == v
    case WriteAt(_, offset, bytes) =>
      if p in v.files then RangeServed(Write, v, p, offset, bytes, v', bytes) else v' == v
  }

  // ------------------------------------------------------------------ clusters are conserved

  /** The clusters that the files own. */
  ghost function Clusters(m: map<seq<Byte>, seq<Byte>>): nat
    decreases |m|
  {
    if m == map[] then 0 else
    var n :| n in m;
    assert |m - {n}| < |m| by { MapRest(m, n); }
    |m[n]| / SECTOR_SIZE + 1 + Clusters(m - {n})
  }

  lemma MapRest<X, Y>(m: map<X, Y>, x: X)
    requires x in m
    ensures |m - {x}| == |m| - 1
  {
    assert (m - {x}).Keys == m.Keys - {x};
    assert |m.Keys| == |m| && |(m - {x}).Keys| == |m - {x}|;
  }

  /** In whatever order they are counted. */
  lemma {:induction false} ClustersOf(m: map<seq<Byte>, seq<Byte>>, x: seq<Byte>)
    requires x in m
    ensures Clusters(m) == |m[x]| / SECTOR_SIZE + 1 + Clusters(m - {x})
    decreases |m|
  {
    var n :| n in m && Clusters(m) == |m[n]| / SECTOR_SIZE + 1 + Clusters(m - {n});
    if n != x {
      MapRest(m, n);
      MapRest(m, x);
      ClustersOf(m - {n}, x);
      ClustersOf(m - {x}, n);
      assert m - {n} - {x} == m - {x} - {n};
    }
  }

  lemma ClustersPut(m: map<seq<Byte>, seq<Byte>>, x: seq<Byte>, f: seq<Byte>)
    ensures Clusters(m[x := f]) == |f| / SECTOR_SIZE + 1 + Clusters(m - {x})
  {
    ClustersOf(m[x := f], x);
    assert m[x := f] - {x} == m - {x};
  }

  /** Free clusters and clusters of files. */
  ghost function Room(v: Store): int {
    v.free + Clusters(v.files)
  }

  /** No request loses a cluster or makes one. */
  lemma RoomKept(v: Store, r: Request, v': Store, out: seq<Byte>)
    requires Served(v, r, v', out)
    ensures Room(v') == Room(v)
  {
    var p := ShortName(r.name);
    if p in v.files { ClustersOf(v.files, p); }
    match r {
      case CreateFile(_) =>
        if p !in v.files {
          ClustersPut(v.files, p, []);
          MapWithout(v.files, p);
        }
      case RemoveFile(_) =>
      case ReadAt(_, _, _) => if p in v.files { ClustersPut(v.files, p, v'.files[p]); }
      case WriteAt(_, _, _) => if p in v.files { ClustersPut(v.files, p, v'.files[p]); }
    }
  }

  // ------------------------------------------------------------------ the volume counts as the store does

  lemma CreatedTakesOne(filename: seq<Byte>, t: seq<nat>, slots: seq<seq<Byte>>, chains: seq<seq<nat>>,
                        t': seq<nat>, slots': seq<seq<Byte>>, chains': seq<seq<nat>>)
    requires Created(filename, t, slots, chains, t', slots', chains')
    ensures |Zeros(t')| == |Zeros(t)| - 1
  {
    var j: nat, e: nat :| CreatedAt(filename, t, slots, chains, t', slots', chains', j, e);
    assert Zeros(t') == Zeros(t) - {e};
  }

  lemma UnionSize(a: set<nat>, b: set<nat>)
    requires a !! b
    ensures |a + b| == |a| + |b|
  {
  }

  lemma ChainGivesBack(t: seq<nat>, t': seq<nat>, c: seq<nat>)
    requires IsChain(t, c) && Zeros(t') == Zeros(t) + Members(c) && Zeros(t) !! Members(c)
    ensures |Zeros(t')| == |Zeros(t)| + |c|
  {
    MembersCount(c);
    UnionSize(Zeros(t), Members(c));
  }

  lemma RemovedGivesBack(name: seq<Byte>, disk: seq<Sector>, t: seq<nat>, slots: seq<seq<Byte>>, chains: seq<seq<nat>>,
                         t': seq<nat>, slots': seq<seq<Byte>>)
    requires |disk| == DISK_SECTORS && Removed(name, t, slots, chains, t', slots')
    ensures var m := FatVolume.Files(disk, t, slots, chains);
            name in m && |Zeros(t')| == |Zeros(t)| + |m[name]| / SECTOR_SIZE + 1
  {
    var s := SlotNamed(slots, name);
    FileAt(disk, t, slots, chains, s);
    ChainGivesBack(t, t', chains[s]);
  }

  /** The number of the first k slots that are in use. */
  ghost function LiveCount(slots: seq<seq<Byte>>, k: nat): nat
    requires k <= |slots| && forall s :: 0 <= s < |slots| ==> |slots[s]| == SLOT_SIZE
  {
    if k == 0 then 0 else LiveCount(slots, k - 1) + if Live(slots[k - 1]) then 1 else 0
  }

  /** The names of the first k slots. */
  ghost function FirstNames(slots: seq<seq<Byte>>, k: nat): set<seq<Byte>>
    requires k <= |slots| && forall s :: 0 <= s < |slots| ==> |slots[s]| == SLOT_SIZE
  {
    if k == 0 then {} else FirstNames(slots, k - 1) + if Live(slots[k - 1]) then {Name(slots[k - 1])} else {}
  }

  lemma {:induction false} LiveCountFull(slots: seq<seq<Byte>>, k: nat)
    requires k <= |slots| && forall s :: 0 <= s < |slots| ==> |slots[s]| == SLOT_SIZE
    ensures LiveCount(slots, k) <= k
    ensures LiveCount(slots, k) == k <==> forall s :: 0 <= s < k ==> Live(slots[s])
  {
    if k > 0 { LiveCountFull(slots, k - 1); }
  }

  lemma {:induction false} FirstNamesHas(slots: seq<seq<Byte>>, k: nat, n: seq<Byte>)
    requires k <= |slots| && forall s :: 0 <= s < |slots| ==> |slots[s]| == SLOT_SIZE
    ensures n in FirstNames(slots, k) <==> exists s :: 0 <= s < k && Live(slots[s]) && Name(slots[s]) == n
  {
    if k > 0 { FirstNamesHas(slots, k - 1, n); }
  }

  lemma NameIsNew(slots: seq<seq<Byte>>, k: nat)
    requires k < |slots| == SLOTS && forall s :: 0 <= s < SLOTS ==> |slots[s]| == SLOT_SIZE
    requires forall s, r :: BothLive(slots, s, r) ==> Name(slots[s]) != Name(slots[r])
    ensures Live(slots[k]) ==> Name(slots[k]) !in FirstNames(slots, k)
  {
    FirstNamesHas(slots, k, Name(slots[k]));
    if Live(slots[k]) {
      assert forall s :: 0 <= s < k && Live(slots[s]) ==> BothLive(slots, s, k);
    }
  }

  lemma {:induction false} NamesCount(slots: seq<seq<Byte>>, k: nat)
    requires k <= |slots| && forall s :: 0 <= s < |slots| ==> |slots[s]| == SLOT_SIZE
    requires forall i: nat :: i < k && Live(slots[i]) ==> Name(slots[i]) !in FirstNames(slots, i)
    ensures |FirstNames(slots, k)| == LiveCount(slots, k)
  {
    if k > 0 { NamesCount(slots, k - 1); }
  }

  lemma AllNamesNew(slots: seq<seq<Byte>>)
    requires |slots| == SLOTS && forall s :: 0 <= s < SLOTS ==> |slots[s]| == SLOT_SIZE
    requires forall s, r :: BothLive(slots, s, r) ==> Name(slots[s]) != Name(slots[r])
    ensures |FirstNames(slots, SLOTS)| == LiveCount(slots, SLOTS)
  {
    forall i: nat | i < SLOTS && Live(slots[i]) ensures Name(slots[i]) !in FirstNames(slots, i) {
      NameIsNew(slots, i);
    }
    NamesCount(slots, SLOTS);
  }

  lemma NamesAreFirst(slots: seq<seq<Byte>>)
    requires |slots| == SLOTS && forall s :: 0 <= s < SLOTS ==> |slots[s]| == SLOT_SIZE
    ensures FirstNames(slots, SLOTS) == Names(slots)
  {
    forall n ensures n in FirstNames(slots, SLOTS) <==> n in Names(slots) {
      FirstNamesHas(slots, SLOTS, n);
    }
  }

  /** The root is full exactly when there are as many files as slots. */
  lemma FullMeans(disk: seq<Sector>, t: seq<nat>, slots: seq<seq<Byte>>, chains: seq<seq<nat>>)
    requires |disk| == DISK_SECTORS && VolumeOk(t, slots, chains)
    ensures RootFull(slots) <==> |FatVolume.Files(disk, t, slots, chains)| == SLOTS
  {
    var m := FatVolume.Files(disk, t, slots, chains);
    AllNamesNew(slots);
    NamesAreFirst(slots);
    LiveCountFull(slots, SLOTS);
    assert m.Keys == Names(slots) && |m.Keys| == |m|;
  }

  // ------------------------------------------------------------------ one request

  /** A volume and its disk: sound, with what it holds for its callers, or with no chains that fit. */
  datatype State = Sound(store: Store) | Ruined | Unknown

  ghost function StateAt(disk: seq<Sector>, t: seq<nat>, slots: seq<seq<Byte>>, chains: seq<seq<nat>>): State {
    if |disk| == DISK_SECTORS && VolumeOk(t, slots, chains)
    then Sound(Store(FatVolume.Files(disk, t, slots, chains), |Zeros(t)|))
    else if NoChains(t, slots) then Ruined
    else Unknown
  }

  ghost function StateOf(fs: FileSystem): State
    reads fs, fs.vol, fs.vol.fat, fs.vol.root, fs.cache, fs.cache.nodes
  {
    if fs.Parts() then StateAt(fs.cache.disk, fs.vol.Table(), fs.vol.Dir(), fs.vol.chains) else Unknown
  }

  /** What one call leaves behind: what the request asks for, or if it did not fit a volume without chains. */
  ghost predicate Outcome(v: Store, r: Request, broken: bool, now: State, out: seq<Byte>) {
    && (broken <==> !Fits(v, r)) && (broken ==> now.Ruined?)
    && (!broken ==> now.Sound? && Served(v, r, now.store, out))
  }

  /** What reading or writing a range leaves behind. */
  ghost predicate RangeOutcome(cmd: Command, v: Store, p: seq<Byte>, offset: nat, buf: seq<Byte>, broken: bool, now: State, buf': seq<Byte>) {
    && (broken <==> !RangeFits(v, p, offset + |buf|)) && (broken ==> now.Ruined?)
    && (!broken ==> now.Sound? && |buf'| == |buf|
                    && if p in v.files then RangeServed(cmd, v, p, offset, buf, now.store, buf') else now.store == v && buf' == buf)
  }

  /** The disk, and in memory the table, the root and the chains that these mean. */
  datatype Image = Image(disk: seq<Sector>, fat: seq<Byte>, root: seq<Byte>, chains: seq<seq<nat>>)

  ghost function ImageOf(fs: FileSystem): Image
    reads fs, fs.vol, fs.vol.fat, fs.vol.root, fs.cache
  {
    Image(fs.cache.disk, fs.vol.fat[..], fs.vol.root[..], fs.vol.chains)
  }

  /** The disk has the table and the root of memory. */
  ghost predicate InSync(i: Image) {
    |i.disk| == DISK_SECTORS && |i.fat| == FAT_BYTES && |i.root| == ROOT_BYTES && OnDiskNow(i.disk, i.fat, i.root)
  }

  /** A range of the file of name p that ends at `end` needs a cluster, for which the table and the root are written. */
  ghost predicate RangeSyncs(v: Store, p: seq<Byte>, end: nat) {
    p in v.files && NewClusters(|v.files[p]|, end) > 0
  }

  /** It makes the file longer without a new cluster: only the root in memory has the new size. */
  ghost predicate RangeUnsaved(v: Store, p: seq<Byte>, end: nat) {
    p in v.files && end > |v.files[p]| && NewClusters(|v.files[p]|, end) == 0
  }

  ghost predicate Syncs(v: Store, r: Request) {
    match r
    case ReadAt(_, offset, len) => RangeSyncs(v, ShortName(r.name), offset + len)
    case WriteAt(_, offset, bytes) => RangeSyncs(v, ShortName(r.name), offset + |bytes|)
    case _ => false
  }

  /** The request changes the table or the root in memory only. */
  ghost predicate Unsaved(v: Store, r: Request) {
    var p := ShortName(r.name);
    match r
    case CreateFile(_) => p !in v.files && |v.files| != SLOTS
    case RemoveFile(_) => p in v.files
    case ReadAt(_, offset, len) => RangeUnsaved(v, p, offset + len)
    case WriteAt(_, offset, bytes) => RangeUnsaved(v, p, offset + |bytes|)
  }

  /** What a request that syncs, or is unsaved, or neither, leaves on the disk. */
  ghost predicate Saved(syncs: bool, unsaved: bool, was: Image, now: Image) {
    && (syncs ==> InSync(now))
    && (!syncs && InSync(was) ==> InSync(was.(disk := now.disk)))
    && (!syncs && !unsaved ==> now.fat == was.fat && now.root == was.root)
  }

  /** What the disk of now means with the table and the root of before. */
  ghost function Older(was: Image, now: Image): State {
    if |was.fat| == FAT_BYTES && |was.root| == ROOT_BYTES then StateAt(now.disk, Entries(was.fat), Slots(was.root), was.chains) else Unknown
  }

  /** The files of now, with the size of before for the one of name p. */
  ghost function RangeFound(v: Store, p: seq<Byte>, v': Store): map<seq<Byte>, seq<Byte>> {
    if p in v.files && p in v'.files && |v.files[p]| <= |v'.files[p]| then v'.files[p := v'.files[p][..|v.files[p]|]] else v'.files
  }

  /** The files that a restart finds after an unsaved request. */
  ghost function Found(v: Store, r: Request, v': Store): map<seq<Byte>, seq<Byte>> {
    if r.CreateFile? || r.RemoveFile? then v.files else RangeFound(v, ShortName(r.name), v')
  }

  ghost predicate SavedBy(v: Store, r: Request, was: Image, now: Image) {
    Saved(Syncs(v, r), Unsaved(v, r), was, now)
  }

  ghost predicate SavedRange(v: Store, p: seq<Byte>, end: nat, was: Image, now: Image) {
    Saved(RangeSyncs(v, p, end), RangeUnsaved(v, p, end), was, now)
  }

  /** What one call leaves behind, in memory and on the disk. */
  ghost predicate Done(v: Store, r: Request, broken: bool, now: State, out: seq<Byte>, was: Image, image: Image) {
    && Outcome(v, r, broken, now, out)
    && (!broken ==> SavedBy(v, r, was, image) && (Unsaved(v, r) ==> Older(was, image) == Sound(Store(Found(v, r, now.store), v.free))))
  }

  ghost predicate RangeDone(cmd: Command, v: Store, p: seq<Byte>, offset: nat, buf: seq<Byte>, broken: bool, now: State, buf': seq<Byte>,
                            was: Image, image: Image) {
    && RangeOutcome(cmd, v, p, offset, buf, broken, now, buf')
    && (!broken ==> SavedRange(v, p, offset + |buf|, was, image)
                    && (RangeUnsaved(v, p, offset + |buf|) ==> Older(was, image) == Sound(Store(RangeFound(v, p, now.store), v.free))))
  }

  lemma RangeSaved(v: Store, p: seq<Byte>, was: Image, now: Image, c0: seq<nat>, c: seq<nat>, end: nat)
    requires p in v.files && DiskAfter(was.disk, was.fat, was.root, c0, now.disk, now.fat, now.root, c, |v.files[p]|, end)
    ensures SavedRange(v, p, end, was, now)
  {
  }

  lemma RuinedAt(disk: seq<Sector>, t: seq<nat>, slots: seq<seq<Byte>>, chains: seq<seq<nat>>)
    requires NoChains(t, slots)
    ensures StateAt(disk, t, slots, chains).Ruined?
  {
  }

  lemma CreateFits(name: seq<Byte>, disk: seq<Sector>, t: seq<nat>, slots: seq<seq<Byte>>, chains: seq<seq<nat>>)
    requires StateAt(disk, t, slots, chains).Sound?
    ensures Fits(StateAt(disk, t, slots, chains).store, CreateFile(name))
       <==> Refused(slots, ShortName(name)) || Zeros(t) != {}
  {
    FullMeans(disk, t, slots, chains);
  }

  lemma CreateServed(name: seq<Byte>, disk: seq<Sector>, t: seq<nat>, slots: seq<seq<Byte>>, chains: seq<seq<nat>>,
                     t': seq<nat>, slots': seq<seq<Byte>>, chains': seq<seq<nat>>)
    requires StateAt(disk, t, slots, chains).Sound? && StateAt(disk, t', slots', chains').Sound?
    requires CreatedIfRoom(name, disk, t, slots, chains, t', slots', chains')
    ensures var v := StateAt(disk, t, slots, chains).store;
            Fits(v, CreateFile(name)) ==> Outcome(v, CreateFile(name), false, StateAt(disk, t', slots', chains'), [])
  {
    var v, v' := StateAt(disk, t, slots, chains).store, StateAt(disk, t', slots', chains').store;
    FullMeans(disk, t, slots, chains);
    if Refused(slots, ShortName(name)) {
      assert v' == v;
    } else {
      CreatedTakesOne(name, t, slots, chains, t', slots', chains');
      assert v' == Store(v.files[ShortName(name) := []], v.free - 1);
    }
  }

  lemma CreateOutcome(name: seq<Byte>, disk: seq<Sector>, t: seq<nat>, slots: seq<seq<Byte>>, chains: seq<seq<nat>>,
                      broken: bool, t': seq<nat>, slots': seq<seq<Byte>>, chains': seq<seq<nat>>)
    requires |disk| == DISK_SECTORS && VolumeOk(t, slots, chains)
    requires broken <==> !Refused(slots, ShortName(name)) && Zeros(t) == {}
    requires broken ==> NoChains(t', slots')
    requires !broken ==> VolumeOk(t', slots', chains') && CreatedIfRoom(name, disk, t, slots, chains, t', slots', chains')
    ensures Outcome(StateAt(disk, t, slots, chains).store, CreateFile(name), broken, StateAt(disk, t', slots', chains'), [])
  {
    CreateFits(name, disk, t, slots, chains);
    if broken {
      RuinedAt(disk, t', slots', chains');
    } else {
      CreateServed(name, disk, t, slots, chains, t', slots', chains');
    }
  }

  lemma RemoveServed(name: seq<Byte>, disk: seq<Sector>, t: seq<nat>, slots: seq<seq<Byte>>, chains: seq<seq<nat>>,
                     t': seq<nat>, slots': seq<seq<Byte>>, chains': seq<seq<nat>>)
    requires StateAt(disk, t, slots, chains).Sound? && StateAt(disk, t', slots', chains').Sound?
    requires FatVolume.Files(disk, t', slots', chains') == FatVolume.Files(disk, t, slots, chains) - {ShortName(name)}
    requires RemovedIfThere(ShortName(name), t, slots, chains, t', slots')
    ensures Outcome(StateAt(disk, t, slots, chains).store, RemoveFile(name), false, StateAt(disk, t', slots', chains'), [])
  {
    if ShortName(name) in Names(slots) {
      RemovedGivesBack(ShortName(name), disk, t, slots, chains, t', slots');
    } else {
      MapWithout(FatVolume.Files(disk, t, slots, chains), ShortName(name));
    }
  }

  lemma SizeOf(p: seq<Byte>, disk: seq<Sector>, t: seq<nat>, slots: seq<seq<Byte>>, chains: seq<seq<nat>>, s: nat)
    requires StateAt(disk, t, slots, chains).Sound? && s < SLOTS && Live(slots[s]) && Name(slots[s]) == p
    ensures var m := StateAt(disk, t, slots, chains).store.files; p in m && |m[p]| == Size(slots[s])
  {
    FileAt(disk, t, slots, chains, s);
  }

  lemma ViewsServed(cmd: Command, v: Store, before: View, v': Store, after: View, offset: nat, buf: seq<Byte>, buf': seq<Byte>)
    requires v.files == before.files && v'.files == after.files
    requires before.name in before.files && before.files[before.name] == before.bytes
    requires Accessed(cmd, before, after, offset, buf, buf', |buf|)
    requires v'.free == v.free - NewClusters(|before.bytes|, offset + |buf|)
    ensures RangeServed(cmd, v, before.name, offset, buf, v', buf')
  {
    assert buf[..|buf|] == buf;
    assert cmd.Read? ==> buf' == after.bytes[offset..offset + |buf|];
  }

  lemma AccessServed(cmd: Command, p: seq<Byte>, offset: nat, buf: seq<Byte>, buf': seq<Byte>, s: nat,
                     disk: seq<Sector>, t: seq<nat>, slots: seq<seq<Byte>>, chains: seq<seq<nat>>,
                     disk': seq<Sector>, t': seq<nat>, slots': seq<seq<Byte>>, chains': seq<seq<nat>>)
    requires StateAt(disk, t, slots, chains).Sound? && StateAt(disk', t', slots', chains').Sound? && s < SLOTS
    requires Live(slots[s]) && Live(slots'[s]) && Name(slots[s]) == p
    requires Accessed(cmd, LookAt(disk, t, slots, chains, s), LookAt(disk', t', slots', chains', s), offset, buf, buf', |buf|)
    requires |Zeros(t')| == |Zeros(t)| - NewClusters(Size(slots[s]), offset + |buf|)
    ensures var v, v' := StateAt(disk, t, slots, chains).store, StateAt(disk', t', slots', chains').store;
            p in v.files && RangeServed(cmd, v, p, offset, buf, v', buf')
  {
    FileAt(disk, t, slots, chains, s);
    ViewsServed(cmd, StateAt(disk, t, slots, chains).store, LookAt(disk, t, slots, chains, s),
                StateAt(disk', t', slots', chains').store, LookAt(disk', t', slots', chains', s), offset, buf, buf');
  }

  lemma RangeMeans(cmd: Command, v: Store, p: seq<Byte>, offset: nat, buf: seq<Byte>, broken: bool, now: State, buf': seq<Byte>)
    requires broken <==> !RangeFits(v, p, offset + |buf|)
    requires |buf'| == |buf| && (if broken then now.Ruined? else now.Sound?)
    requires !broken ==> if p in v.files then RangeServed(cmd, v, p, offset, buf, now.store, buf') else now.store == v && buf' == buf
    ensures RangeOutcome(cmd, v, p, offset, buf, broken, now, buf')
  {
  }

  /** fat12_create and fat12_remove write no sector. */
  lemma NothingWritten(v: Store, r: Request, was: Image, image: Image)
    requires image.disk == was.disk && (r.CreateFile? || r.RemoveFile?) && Older(was, was) == Sound(v)
    requires !Unsaved(v, r) ==> image.fat == was.fat && image.root == was.root
    ensures SavedBy(v, r, was, image) && forall v' :: Older(was, image) == Sound(Store(Found(v, r, v'), v.free))
  {
  }

  lemma CreateDone(name: seq<Byte>, disk: seq<Sector>, t: seq<nat>, slots: seq<seq<Byte>>, chains: seq<seq<nat>>,
                   broken: bool, t': seq<nat>, slots': seq<seq<Byte>>, chains': seq<seq<nat>>, was: Image, image: Image)
    requires |disk| == DISK_SECTORS && VolumeOk(t, slots, chains)
    requires broken <==> !Refused(slots, ShortName(name)) && Zeros(t) == {}
    requires broken ==> NoChains(t', slots')
    requires !broken ==> VolumeOk(t', slots', chains') && CreatedIfRoom(name, disk, t, slots, chains, t', slots', chains')
    requires image.disk == was.disk && (Refused(slots, ShortName(name)) ==> image.fat == was.fat && image.root == was.root)
    requires Older(was, was) == StateAt(disk, t, slots, chains)
    ensures Done(StateAt(disk, t, slots, chains).store, CreateFile(name), broken, StateAt(disk, t', slots', chains'), [], was, image)
  {
    CreateOutcome(name, disk, t, slots, chains, broken, t', slots', chains');
    FullMeans(disk, t, slots, chains);
    NothingWritten(StateAt(disk, t, slots, chains).store, CreateFile(name), was, image);
  }

  /** fat12_create */
  method DoCreate(fs: FileSystem, name: seq<Byte>) returns (broken: bool)
    requires StateOf(fs).Sound? && Sensible(CreateFile(name))
    modifies fs.vol.fat, fs.vol.root, fs.vol`chains
    ensures Done(old(StateOf(fs)).store, CreateFile(name), broken, StateOf(fs), [], old(ImageOf(fs)), ImageOf(fs))
  {
    ghost var disk, t, slots, c := fs.cache.disk, fs.vol.Table(), fs.vol.Dir(), fs.vol.chains;
    ghost var was := ImageOf(fs);
    broken := fs.vol.Create(name, disk);
    assert fs.Parts();
    CreateDone(name, disk, t, slots, c, broken, fs.vol.Table(), fs.vol.Dir(), fs.vol.chains, was, ImageOf(fs));
  }

  lemma RemoveDone(name: seq<Byte>, disk: seq<Sector>, t: seq<nat>, slots: seq<seq<Byte>>, chains: seq<seq<nat>>,
                   t': seq<nat>, slots': seq<seq<Byte>>, chains': seq<seq<nat>>, was: Image, image: Image)
    requires RemovedFrom(ShortName(name), disk, t, slots, chains, t', slots', chains')
    requires image.disk == was.disk && (ShortName(name) !in Names(slots) ==> image.fat == was.fat && image.root == was.root)
    requires Older(was, was) == StateAt(disk, t, slots, chains)
    ensures Done(StateAt(disk, t, slots, chains).store, RemoveFile(name), false, StateAt(disk, t', slots', chains'), [], was, image)
  {
    RemoveServed(name, disk, t, slots, chains, t', slots', chains');
    NothingWritten(StateAt(disk, t, slots, chains).store, RemoveFile(name), was, image);
  }

  /** fat12_remove, on values. */
  method RemoveNamed(fs: FileSystem, name: seq<Byte>)
    requires fs.Valid() && 0 !in name
    modifies fs.vol.fat, fs.vol.root, fs.vol`chains
    ensures fs.Parts()
    ensures RemovedFrom(ShortName(name), fs.cache.disk, old(fs.vol.Table()), old(fs.vol.Dir()), old(fs.vol.chains),
                        fs.vol.Table(), fs.vol.Dir(), fs.vol.chains)
    ensures ShortName(name) !in Names(old(fs.vol.Dir())) ==> fs.vol.fat[..] == old(fs.vol.fat[..]) && fs.vol.root[..] == old(fs.vol.root[..])
  {
    fs.vol.Remove(name, fs.cache.disk);
  }

  /** fat12_remove */
  method DoRemove(fs: FileSystem, name: seq<Byte>)
    requires StateOf(fs).Sound? && 0 !in name
    modifies fs.vol.fat, fs.vol.root, fs.vol`chains
    ensures Done(old(StateOf(fs)).store, RemoveFile(name), false, StateOf(fs), [], old(ImageOf(fs)), ImageOf(fs))
  {
    ghost var disk, t, slots, c, was := fs.cache.disk, fs.vol.Table(), fs.vol.Dir(), fs.vol.chains, ImageOf(fs);
    assert fs.Valid();
    RemoveNamed(fs, name);
    RemoveDone(name, disk, t, slots, c, fs.vol.Table(), fs.vol.Dir(), fs.vol.chains, was, ImageOf(fs));
  }

  lemma FoundMeans(name: seq<Byte>, s: nat, disk: seq<Sector>, t: seq<nat>, slots: seq<seq<Byte>>, chains: seq<seq<nat>>)
    requires StateAt(disk, t, slots, chains).Sound? && 0 !in name && s <= SLOTS && Absent(slots, ShortName(name), s)
    requires s < SLOTS ==> Name(slots[s]) == ShortName(name)
    ensures var m := StateAt(disk, t, slots, chains).store.files;
            if s < SLOTS then Live(slots[s]) && ShortName(name) in m && |m[ShortName(name)]| == Size(slots[s]) else ShortName(name) !in m
  {
    NamedIsLive(slots, name);
    if s < SLOTS { SizeOf(ShortName(name), disk, t, slots, chains, s); }
  }

  /** Slot s holds the file of that name. */
  ghost predicate IsFile(fs: FileSystem, s: nat, p: seq<Byte>)
    reads fs, fs.vol, fs.vol.root
  {
    fs.vol.Buffers() && s < SLOTS && Live(fs.vol.Dir()[s]) && Name(fs.vol.Dir()[s]) == p
  }

  /** The part of fat12_get_inode that looks through the root. */
  method Find(fs: FileSystem, name: seq<Byte>) returns (s: nat)
    requires StateOf(fs).Sound? && 0 !in name
    ensures StateOf(fs) == old(StateOf(fs))
    ensures s <= SLOTS && (s < SLOTS <==> ShortName(name) in StateOf(fs).store.files)
    ensures s < SLOTS ==> IsFile(fs, s, ShortName(name))
  {
    s := fs.vol.FindName(name, 0);
    FoundMeans(name, s, fs.cache.disk, fs.vol.Table(), fs.vol.Dir(), fs.vol.chains);
  }

  /** What is on the disk after an access that made the file longer in memory only. */
  lemma FoundOlder(cmd: Command, p: seq<Byte>, offset: nat, buf: seq<Byte>, buf': seq<Byte>, s: nat,
                   t: seq<nat>, slots: seq<seq<Byte>>, chains: seq<seq<nat>>,
                   t': seq<nat>, slots': seq<seq<Byte>>, chains': seq<seq<nat>>, was: Image, now: Image)
    requires |was.disk| == DISK_SECTORS == |now.disk| && VolumeOk(t, slots, chains) && s < SLOTS && Live(slots[s]) && Name(slots[s]) == p
    requires |was.fat| == FAT_BYTES && |was.root| == ROOT_BYTES && t == Entries(was.fat) && slots == Slots(was.root) && chains == was.chains
    requires VolumeOk(t', slots', chains') && Live(slots'[s])
    requires Accessed(cmd, LookAt(was.disk, t, slots, chains, s), LookAt(now.disk, t', slots', chains', s), offset, buf, buf', |buf|)
    requires DiskAfter(was.disk, was.fat, was.root, chains[s], now.disk, now.fat, now.root, chains'[s], Size(slots[s]), offset + |buf|)
    requires offset + |buf| > Size(slots[s]) && NewClusters(Size(slots[s]), offset + |buf|) == 0
    ensures var v, v' := StateAt(was.disk, t, slots, chains).store, StateAt(now.disk, t', slots', chains').store;
            Older(was, now) == Sound(Store(RangeFound(v, p, v'), v.free))
  {
    var before, after := LookAt(was.disk, t, slots, chains, s), LookAt(now.disk, t', slots', chains', s);
    OldSizeFiles(was.disk, now.disk, t, slots, chains, t', slots', chains', s);
    FileAt(was.disk, t, slots, chains, s);
    PutTwice(before.files, p, after.bytes, after.bytes[..|before.bytes|]);
  }

  lemma PutTwice<X, Y>(m: map<X, Y>, x: X, y: Y, z: Y)
    ensures m[x := y][x := z] == m[x := z]
  {
  }

  /** What ReadWrite promises, for the caller of fat12_read or fat12_write. */
  lemma FoundDone(cmd: Command, p: seq<Byte>, offset: nat, buf: seq<Byte>, buf': seq<Byte>, s: nat, broken: bool,
                  t: seq<nat>, slots: seq<seq<Byte>>, chains: seq<seq<nat>>,
                  t': seq<nat>, slots': seq<seq<Byte>>, chains': seq<seq<nat>>, was: Image, now: Image)
    requires |was.disk| == DISK_SECTORS == |now.disk| && VolumeOk(t, slots, chains) && s < SLOTS && Live(slots[s]) && Name(slots[s]) == p
    requires |was.fat| == FAT_BYTES && |was.root| == ROOT_BYTES && t == Entries(was.fat) && slots == Slots(was.root) && chains == was.chains
    requires |buf'| == |buf|
    requires broken <==> |Zeros(t)| < NewClusters(Size(slots[s]), offset + |buf|)
    requires broken ==> NoChains(t', slots')
    requires !broken ==> VolumeOk(t', slots', chains') && Live(slots'[s])
    requires !broken ==> Accessed(cmd, LookAt(was.disk, t, slots, chains, s), LookAt(now.disk, t', slots', chains', s), offset, buf, buf', |buf|)
    requires !broken ==> |Zeros(t')| == |Zeros(t)| - NewClusters(Size(slots[s]), offset + |buf|)
    requires !broken ==> DiskAfter(was.disk, was.fat, was.root, chains[s], now.disk, now.fat, now.root, chains'[s], Size(slots[s]), offset + |buf|)
    ensures RangeDone(cmd, StateAt(was.disk, t, slots, chains).store, p, offset, buf, broken, StateAt(now.disk, t', slots', chains'), buf', was, now)
  {
    var v := StateAt(was.disk, t, slots, chains).store;
    SizeOf(p, was.disk, t, slots, chains, s);
    if broken {
      RuinedAt(now.disk, t', slots', chains');
    } else {
      AccessServed(cmd, p, offset, buf, buf', s, was.disk, t, slots, chains, now.disk, t', slots', chains');
      RangeSaved(v, p, was, now, chains[s], chains'[s], offset + |buf|);
      if RangeUnsaved(v, p, offset + |buf|) { FoundOlder(cmd, p, offset, buf, buf', s, t, slots, chains, t', slots', chains', was, now); }
    }
    RangeMeans(cmd, v, p, offset, buf, broken, StateAt(now.disk, t', slots', chains'), buf');
  }

  /** fat12_read or fat12_write, of a file that was found. */
  method AccessSlot(fs: FileSystem, cmd: Command, ghost p: seq<Byte>, s: nat, offset: nat, buf: array<Byte>, junk: bv32)
    returns (broken: bool)
    requires StateOf(fs).Sound? && IsFile(fs, s, p)
    requires buf != fs.vol.fat && buf != fs.vol.root && offset + buf.Length < RANGE_END && offset < 0x8000_0000
    modifies fs.vol.fat, fs.vol.root, fs.vol`chains, fs.cache, fs.cache.nodes, buf
    ensures fresh(fs.cache.nodes - old(fs.cache.nodes))
    ensures RangeDone(cmd, old(StateOf(fs)).store, p, offset, old(buf[..]), broken, StateOf(fs), buf[..], old(ImageOf(fs)), ImageOf(fs))
  {
    ghost var t, slots, c, was, bytes := fs.vol.Table(), fs.vol.Dir(), fs.vol.chains, ImageOf(fs), buf[..];
    broken := fs.ReadWrite(cmd, s, offset, buf, buf.Length, junk);
    FoundDone(cmd, p, offset, bytes, buf[..], s, broken, t, slots, c, fs.vol.Table(), fs.vol.Dir(), fs.vol.chains, was, ImageOf(fs));
  }

  lemma NotFound(cmd: Command, now: State, p: seq<Byte>, offset: nat, buf: seq<Byte>)
    requires now.Sound? && p !in now.store.files
    ensures RangeOutcome(cmd, now.store, p, offset, buf, false, now, buf)
  {
  }

  /** fat12_read or fat12_write, when fat12_get_inode found the file. */
  method AccessIfFound(fs: FileSystem, cmd: Command, ghost p: seq<Byte>, s: nat, offset: nat, buf: array<Byte>, junk: bv32)
    returns (broken: bool)
    requires StateOf(fs).Sound? && (s < SLOTS ==> IsFile(fs, s, p)) && (s >= SLOTS ==> p !in StateOf(fs).store.files)
    requires buf != fs.vol.fat && buf != fs.vol.root && offset + buf.Length < RANGE_END && offset < 0x8000_0000
    modifies fs.vol.fat, fs.vol.root, fs.vol`chains, fs.cache, fs.cache.nodes, buf
    ensures fresh(fs.cache.nodes - old(fs.cache.nodes))
    ensures RangeDone(cmd, old(StateOf(fs)).store, p, offset, old(buf[..]), broken, StateOf(fs), buf[..], old(ImageOf(fs)), ImageOf(fs))
  {
    if s < SLOTS {
      broken := AccessSlot(fs, cmd, p, s, offset, buf, junk);
    } else {
      broken := false;
      NotFound(cmd, StateOf(fs), p, offset, buf[..]);
    }
  }

  /** fat12_get_inode, and fat12_read or fat12_write if it finds the file. */
  method Access(fs: FileSystem, cmd: Command, name: seq<Byte>, offset: nat, buf: array<Byte>, junk: bv32) returns (broken: bool)
    requires StateOf(fs).Sound? && 0 !in name
    requires buf != fs.vol.fat && buf != fs.vol.root && offset + buf.Length < RANGE_END && offset < 0x8000_0000
    modifies fs.vol.fat, fs.vol.root, fs.vol`chains, fs.cache, fs.cache.nodes, buf
    ensures fresh(fs.cache.nodes - old(fs.cache.nodes))
    ensures RangeDone(cmd, old(StateOf(fs)).store, ShortName(name), offset, old(buf[..]), broken, StateOf(fs), buf[..], old(ImageOf(fs)), ImageOf(fs))
  {
    var s := Find(fs, name);
    broken := AccessIfFound(fs, cmd, ShortName(name), s, offset, buf, junk);
  }

  lemma ReadDone(v: Store, name: seq<Byte>, offset: nat, len: nat, broken: bool, now: State, out: seq<Byte>, was: Image, image: Image)
    requires RangeDone(Read, v, ShortName(name), offset, seq(len, _ => 0), broken, now, out, was, image)
    ensures Done(v, ReadAt(name, offset, len), broken, now, out, was, image)
  {
  }

  lemma WriteDone(v: Store, name: seq<Byte>, offset: nat, bytes: seq<Byte>, broken: bool, now: State, buf': seq<Byte>, was: Image, image: Image)
    requires RangeDone(Write, v, ShortName(name), offset, bytes, broken, now, buf', was, image)
    ensures Done(v, WriteAt(name, offset, bytes), broken, now, [], was, image)
  {
  }

  /** A caller's buffer. */
  method NewBuffer(bytes: seq<Byte>) returns (buf: array<Byte>)
    ensures fresh(buf) && buf[..] == bytes
  {
    buf := new Byte[|bytes|](i requires 0 <= i < |bytes| => bytes[i]);
  }

  /** fat12_get_inode and fat12_read, into a buffer of zeros. */
  method ReadInto(fs: FileSystem, name: seq<Byte>, offset: nat, len: nat, buf: array<Byte>, junk: bv32) returns (broken: bool)
    requires StateOf(fs).Sound? && Sensible(ReadAt(name, offset, len)) && buf[..] == seq(len, _ => 0)
    requires buf != fs.vol.fat && buf != fs.vol.root
    modifies fs.vol.fat, fs.vol.root, fs.vol`chains, fs.cache, fs.cache.nodes, buf
    ensures fresh(fs.cache.nodes - old(fs.cache.nodes))
    ensures Done(old(StateOf(fs)).store, ReadAt(name, offset, len), broken, StateOf(fs), buf[..], old(ImageOf(fs)), ImageOf(fs))
  {
    ghost var v, was := StateOf(fs).store, ImageOf(fs);
    broken := Access(fs, Read, name, offset, buf, junk);
    ReadDone(v, name, offset, len, broken, StateOf(fs), buf[..], was, ImageOf(fs));
  }

  /** fat12_get_inode and fat12_write. */
  method WriteFrom(fs: FileSystem, name: seq<Byte>, offset: nat, buf: array<Byte>, junk: bv32) returns (broken: bool)
    requires StateOf(fs).Sound? && Sensible(WriteAt(name, offset, buf[..]))
    requires buf != fs.vol.fat && buf != fs.vol.root
    modifies fs.vol.fat, fs.vol.root, fs.vol`chains, fs.cache, fs.cache.nodes, buf
    ensures fresh(fs.cache.nodes - old(fs.cache.nodes))
    ensures Done(old(StateOf(fs)).store, WriteAt(name, offset, old(buf[..])), broken, StateOf(fs), [], old(ImageOf(fs)), ImageOf(fs))
  {
    ghost var v, bytes, was := StateOf(fs).store, buf[..], ImageOf(fs);
    broken := Access(fs, Write, name, offset, buf, junk);
    WriteDone(v, name, offset, bytes, broken, StateOf(fs), buf[..], was, ImageOf(fs));
  }

  method DoRead(fs: FileSystem, name: seq<Byte>, offset: nat, len: nat, junk: bv32) returns (broken: bool, out: seq<Byte>)
    requires StateOf(fs).Sound? && Sensible(ReadAt(name, offset, len))
    modifies fs.vol.fat, fs.vol.root, fs.vol`chains, fs.cache, fs.cache.nodes
    ensures fresh(fs.cache.nodes - old(fs.cache.nodes))
    ensures Done(old(StateOf(fs)).store, ReadAt(name, offset, len), broken, StateOf(fs), out, old(ImageOf(fs)), ImageOf(fs))
  {
    var buf := NewBuffer(seq(len, _ => 0));
    broken := ReadInto(fs, name, offset, len, buf, junk);
    out := buf[..];
  }

  method DoWrite(fs: FileSystem, name: seq<Byte>, offset: nat, bytes: seq<Byte>, junk: bv32) returns (broken: bool)
    requires StateOf(fs).Sound? && Sensible(WriteAt(name, offset, bytes))
    modifies fs.vol.fat, fs.vol.root, fs.vol`chains, fs.cache, fs.cache.nodes
    ensures fresh(fs.cache.nodes - old(fs.cache.nodes))
    ensures Done(old(StateOf(fs)).store, WriteAt(name, offset, bytes), broken, StateOf(fs), [], old(ImageOf(fs)), ImageOf(fs))
  {
    var buf := NewBuffer(bytes);
    broken := WriteFrom(fs, name, offset, buf, junk);
  }

  /** One call. */
  method Serve(fs: FileSystem, r: Request, junk: bv32) returns (broken: bool, out: seq<Byte>)
    requires StateOf(fs).Sound? && Sensible(r)
    modifies fs.vol.fat, fs.vol.root, fs.vol`chains, fs.cache, fs.cache.nodes
    ensures fresh(fs.cache.nodes - old(fs.cache.nodes))
    ensures Done(old(StateOf(fs)).store, r, broken, StateOf(fs), out, old(ImageOf(fs)), ImageOf(fs))
  {
    broken, out := false, [];
    match r {
      case CreateFile(name) => broken := DoCreate(fs, name);
      case RemoveFile(name) => DoRemove(fs, name);
      case ReadAt(name, offset, len) => broken, out := DoRead(fs, name, offset, len, junk);
      case WriteAt(name, offset, bytes) => broken := DoWrite(fs, name, offset, bytes, junk);
    }
  }

  // ------------------------------------------------------------------ runs

  ghost predicate ServedAt(rs: seq<Request>, stores: seq<Store>, outs: seq<seq<Byte>>, i: nat)
    requires i < |rs| && i < |outs| && i + 1 < |stores|
  {
    Fits(stores[i], rs[i]) && Served(stores[i], rs[i], stores[i + 1], outs[i])
  }

  /** stores are what the volume holds before, between and after the first requests, and outs the bytes they return. */
  ghost predicate Run(rs: seq<Request>, stores: seq<Store>, outs: seq<seq<Byte>>) {
    && |outs| <= |rs| && |stores| == |outs| + 1
    && forall i: nat :: i < |outs| ==> ServedAt(rs, stores, outs, i)
  }

  lemma RunGoesOn(rs: seq<Request>, stores: seq<Store>, outs: seq<seq<Byte>>, v: Store, out: seq<Byte>)
    requires Run(rs, stores, outs) && |outs| < |rs|
    requires Fits(stores[|outs|], rs[|outs|]) && Served(stores[|outs|], rs[|outs|], v, out)
    ensures Run(rs, stores + [v], outs + [out])
  {
    forall i: nat | i < |outs| + 1 ensures ServedAt(rs, stores + [v], outs + [out], i) {
      if i < |outs| { assert ServedAt(rs, stores, outs, i); }
    }
  }

  /** Whether the disk has the table and the root of memory after the first k requests, if `was` says so of the start. */
  ghost predicate InSyncAfter(rs: seq<Request>, stores: seq<Store>, k: nat, was: bool)
    requires k <= |rs| && k < |stores|
  {
    if k == 0 then was
    else Syncs(stores[k - 1], rs[k - 1]) || (InSyncAfter(rs, stores, k - 1, was) && !Unsaved(stores[k - 1], rs[k - 1]))
  }

  lemma {:induction false} InSyncSame(rs: seq<Request>, stores: seq<Store>, v: Store, k: nat, was: bool)
    requires k <= |rs| && k < |stores|
    ensures InSyncAfter(rs, stores + [v], k, was) == InSyncAfter(rs, stores, k, was)
  {
    if k > 0 { InSyncSame(rs, stores, v, k - 1, was); }
  }

  /** Where a run stands: it may go on, or the call after the last one served has ruined the volume. */
  ghost predicate Standing(rs: seq<Request>, stores: seq<Store>, outs: seq<seq<Byte>>, broken: bool, now: State, was: bool, image: Image) {
    && Run(rs, stores, outs)
    && if broken then |outs| < |rs| && now.Ruined? && !Fits(stores[|outs|], rs[|outs|])
       else now == Sound(stores[|outs|]) && (InSyncAfter(rs, stores, |outs|, was) ==> InSync(image))
  }

  lemma StandsAfter(rs: seq<Request>, stores: seq<Store>, outs: seq<seq<Byte>>, broken: bool, now: State, out: seq<Byte>,
                    was: bool, image: Image, image': Image)
    requires |outs| < |rs| && |outs| < |stores| && Standing(rs, stores, outs, false, Sound(stores[|outs|]), was, image)
    requires Done(stores[|outs|], rs[|outs|], broken, now, out, image, image')
    ensures if broken then Standing(rs, stores, outs, true, now, was, image')
            else Standing(rs, stores + [now.store], outs + [out], false, now, was, image')
  {
    if !broken {
      RunGoesOn(rs, stores, outs, now.store, out);
      InSyncSame(rs, stores, now.store, |outs|, was);
    }
  }

  /** The next call of a run. */
  method ServeNext(fs: FileSystem, rs: seq<Request>, outs: seq<seq<Byte>>, junk: bv32, ghost stores: seq<Store>, ghost was: bool)
    returns (broken: bool, outs': seq<seq<Byte>>, ghost stores': seq<Store>)
    requires Standing(rs, stores, outs, false, StateOf(fs), was, ImageOf(fs)) && |outs| < |rs| && Sensible(rs[|outs|])
    modifies fs.vol.fat, fs.vol.root, fs.vol`chains, fs.cache, fs.cache.nodes
    ensures fresh(fs.cache.nodes - old(fs.cache.nodes))
    ensures Standing(rs, stores', outs', broken, StateOf(fs), was, ImageOf(fs)) && stores'[0] == stores[0]
    ensures |outs'| == if broken then |outs| else |outs| + 1
  {
    ghost var image := ImageOf(fs);
    var out;
    broken, out := Serve(fs, rs[|outs|], junk);
    StandsAfter(rs, stores, outs, broken, StateOf(fs), out, was, image, ImageOf(fs));
    outs' := if broken then outs else outs + [out];
    stores' := if broken then stores else stores + [StateOf(fs).store];
  }

  /**
   Any run of file calls, up to the first one that needs more clusters than are free: that one ruins the volume.  Since
   the last call that synced, the disk stays in step with memory up to the first unsaved one.
   */
  method Replay(fs: FileSystem, rs: seq<Request>, junk: bv32) returns (outs: seq<seq<Byte>>, ghost stores: seq<Store>)
    requires StateOf(fs).Sound? && forall i :: 0 <= i < |rs| ==> Sensible(rs[i])
    modifies fs.vol.fat, fs.vol.root, fs.vol`chains, fs.cache, fs.cache.nodes
    ensures fresh(fs.cache.nodes - old(fs.cache.nodes))
    ensures Run(rs, stores, outs) && stores[0] == old(StateOf(fs)).store
    ensures |outs| == |rs| ==> StateOf(fs) == Sound(stores[|outs|])
    ensures |outs| == |rs| && InSyncAfter(rs, stores, |rs|, old(InSync(ImageOf(fs)))) ==> InSync(ImageOf(fs))
    ensures |outs| < |rs| ==> StateOf(fs).Ruined? && !Fits(stores[|outs|], rs[|outs|])
  {
    outs, stores := [], [StateOf(fs).store];
    ghost var was := InSync(ImageOf(fs));
    var broken := false;
    while !broken && |outs| < |rs|
      invariant fresh(fs.cache.nodes - old(fs.cache.nodes))
      invariant Standing(rs, stores, outs, broken, StateOf(fs), was, ImageOf(fs)) && stores[0] == old(StateOf(fs)).store
      decreases |rs| - |outs|, !broken
    {
      broken, outs, stores := ServeNext(fs, rs, outs, junk, stores, was);
    }
  }

  /** Clusters are neither lost nor made in any run. */
  lemma {:induction false} RoomOfRun(rs: seq<Request>, stores: seq<Store>, outs: seq<seq<Byte>>, i: nat)
    requires Run(rs, stores, outs) && i <= |outs|
    ensures Room(stores[i]) == Room(stores[0])
  {
    if i > 0 {
      RoomOfRun(rs, stores, outs, i - 1);
      assert ServedAt(rs, stores, outs, i - 1);
      RoomKept(stores[i - 1], rs[i - 1], stores[i], outs[i - 1]);
    }
  }

  /** The request neither writes nor removes the file of that name. */
  ghost predicate Spares(r: Request, p: seq<Byte>) {
    ShortName(r.name) == p ==> r.CreateFile? || r.ReadAt?
  }

  /** Bytes stay until their own file is written or removed, whatever is done to others. */
  lemma {:induction false} BytesStay(rs: seq<Request>, stores: seq<Store>, outs: seq<seq<Byte>>, p: seq<Byte>, i: nat, j: nat)
    requires Run(rs, stores, outs) && i <= j <= |outs| && p in stores[i].files
    requires forall k: nat :: i <= k < j ==> Spares(rs[k], p)
    ensures p in stores[j].files && stores[i].files[p] <= stores[j].files[p]
  {
    if i < j {
      BytesStay(rs, stores, outs, p, i, j - 1);
      assert ServedAt(rs, stores, outs, j - 1) && Spares(rs[j - 1], p);
    }
  }

  lemma SliceOfPrefix<T>(f: seq<T>, h: seq<T>, from: nat, n: nat)
    requires f <= h && from + n <= |f|
    ensures h[from..from + n] == f[from..from + n]
  {
  }

  /** What was written is what is read, however much later, if nothing else writes or removes the file. */
  lemma ReadsWhatWasWritten(rs: seq<Request>, stores: seq<Store>, outs: seq<seq<Byte>>, i: nat, j: nat, offset: nat, bytes: seq<Byte>)
    requires Run(rs, stores, outs) && i < j < |outs| && ShortName(rs[i].name) in stores[i].files
    requires rs[i] == WriteAt(rs[i].name, offset, bytes) && rs[j] == ReadAt(rs[j].name, offset, |bytes|)
    requires ShortName(rs[j].name) == ShortName(rs[i].name)
    requires forall k: nat :: i < k < j ==> Spares(rs[k], ShortName(rs[i].name))
    ensures outs[j] == bytes
  {
    var p := ShortName(rs[i].name);
    assert ServedAt(rs, stores, outs, i) && ServedAt(rs, stores, outs, j);
    BytesStay(rs, stores, outs, p, i + 1, j);
    var f, g, h := stores[i + 1].files[p], stores[j].files[p], stores[j + 1].files[p];
    assert f <= g && g <= h;
    SliceOfPrefix(f, h, offset, |bytes|);
  }

  // ------------------------------------------------------------------ starting again from the disk

  /** Sectors of the table and the root rewritten leave every file's bytes where they are. */
  lemma InfoKeepsFiles(disk: seq<Sector>, disk': seq<Sector>, t: seq<nat>, slots: seq<seq<Byte>>, chains: seq<seq<nat>>)
    requires |disk| == DISK_SECTORS && InfoOnly(disk, disk') && VolumeOk(t, slots, chains)
    ensures FatVolume.Files(disk', t, slots, chains) == FatVolume.Files(disk, t, slots, chains)
  {
    var m, m' := FatVolume.Files(disk, t, slots, chains), FatVolume.Files(disk', t, slots, chains);
    forall n | n in m ensures m'[n] == m[n] {
      InfoKeepsRaw(disk, disk', chains[SlotNamed(slots, n)]);
    }
  }

  /** A new file system with an empty cache, on a disk that holds a sound volume. */
  method Boot(disk: seq<Sector>, junk: bv32, ghost fat: seq<Byte>, ghost root: seq<Byte>, ghost chains: seq<seq<nat>>)
    returns (fs: FileSystem)
    requires |disk| == DISK_SECTORS && |fat| == FAT_BYTES && |root| == ROOT_BYTES
    requires OnDiskNow(disk, fat, root) && VolumeOk(Entries(fat), Slots(root), chains)
    ensures fresh(fs) && fresh(fs.vol) && fresh(fs.vol.fat) && fresh(fs.vol.root) && fresh(fs.cache) && fresh(fs.cache.nodes)
    ensures StateOf(fs) == StateAt(disk, Entries(fat), Slots(root), chains) && ImageOf(fs) == Image(disk, fat, root, chains)
  {
    var cache := new DiskCache(disk);
    fs := new FileSystem(cache);
    fs.Mount(junk, fat, root, chains);
  }

  /** A restart from a disk that is in step with memory gives back every file. */
  method Restart(fs: FileSystem, junk: bv32) returns (again: FileSystem)
    requires StateOf(fs).Sound? && InSync(ImageOf(fs))
    ensures StateOf(again) == StateOf(fs) && InSync(ImageOf(again)) && fresh(again)
  {
    again := Boot(fs.cache.disk, junk, fs.vol.fat[..], fs.vol.root[..], fs.vol.chains);
  }

  /** After fat12_set_info(FAT12_INFO_SYC) the disk alone gives back every file. */
  method SyncAndBoot(fs: FileSystem, junk: bv32) returns (again: FileSystem)
    requires StateOf(fs).Sound?
    modifies fs.cache, fs.cache.nodes
    ensures StateOf(fs) == old(StateOf(fs)) == StateOf(again) && fresh(again)
  {
    ghost var disk, t, slots, c := fs.cache.disk, fs.vol.Table(), fs.vol.Dir(), fs.vol.chains;
    fs.SyncInfo(junk);
    InfoKeepsFiles(disk, fs.cache.disk, t, slots, c);
    again := Boot(fs.cache.disk, junk, fs.vol.fat[..], fs.vol.root[..], c);
  }

  /** An unsaved request leaves other names or another size than there are on the disk. */
  lemma UnsavedShows(v: Store, r: Request, v': Store, out: seq<Byte>)
    requires Served(v, r, v', out) && Unsaved(v, r)
    ensures Store(Found(v, r, v'), v.free) != v'
  {
    var p := ShortName(r.name);
    if !r.CreateFile? && !r.RemoveFile? { assert |RangeFound(v, p, v')[p]| == |v.files[p]| < |v'.files[p]|; }
  }

  /** What a disk means that is in step with the table and the root of an image. */
  ghost function Meaning(image: Image): State {
    if InSync(image) then StateAt(image.disk, Entries(image.fat), Slots(image.root), image.chains) else Unknown
  }

  /**
   A call that was served, and a restart after it: every file is back exactly unless the call is unsaved.  In that case
   a file made or removed is not, and a file made longer has its new bytes but its old size.
   */
  ghost predicate Restarts(v: Store, r: Request, now: State, out: seq<Byte>, again: State) {
    && now.Sound? && Served(v, r, now.store, out) && (again == now <==> !Unsaved(v, r))
    && (Unsaved(v, r) ==> again == Sound(Store(Found(v, r, now.store), v.free)))
  }

  /** The table and the root that are on the disk after a call, and what the disk means with them. */
  lemma RestartPoint(v: Store, r: Request, broken: bool, now: State, out: seq<Byte>, was: Image, image: Image) returns (found: Image)
    requires Done(v, r, broken, now, out, was, image) && !broken && (InSync(was) || Syncs(v, r))
    requires |image.disk| == DISK_SECTORS && |image.fat| == FAT_BYTES && |image.root| == ROOT_BYTES
    requires StateAt(image.disk, Entries(image.fat), Slots(image.root), image.chains) == now
    ensures found.disk == image.disk && Restarts(v, r, now, out, Meaning(found))
  {
    if Unsaved(v, r) {
      found := was.(disk := image.disk);
      UnsavedShows(v, r, now.store, out);
    } else {
      found := image;
    }
  }

  /** A new file system on the same disk, with the table and the root found there. */
  method BootFound(fs: FileSystem, junk: bv32, ghost found: Image) returns (again: FileSystem)
    requires found.disk == fs.cache.disk && Meaning(found).Sound?
    ensures fresh(again) && StateOf(again) == Meaning(found) && StateOf(fs) == old(StateOf(fs))
  {
    again := Boot(fs.cache.disk, junk, found.fat, found.root, found.chains);
  }

  /** A call, and what a restart will find. */
  method ServeSaved(fs: FileSystem, r: Request, junk: bv32) returns (out: seq<Byte>, ghost found: Image)
    requires StateOf(fs).Sound? && Sensible(r) && Fits(StateOf(fs).store, r)
    requires InSync(ImageOf(fs)) || Syncs(StateOf(fs).store, r)
    modifies fs.vol.fat, fs.vol.root, fs.vol`chains, fs.cache, fs.cache.nodes
    ensures found.disk == fs.cache.disk && Restarts(old(StateOf(fs)).store, r, StateOf(fs), out, Meaning(found))
  {
    ghost var v, was := StateOf(fs).store, ImageOf(fs);
    var broken;
    broken, out := Serve(fs, r, junk);
    found := RestartPoint(v, r, broken, StateOf(fs), out, was, ImageOf(fs));
  }

  /** A call on a volume that is in step with its disk, or that puts it in step, and a restart from the disk. */
  method CallAndBoot(fs: FileSystem, r: Request, junk: bv32) returns (out: seq<Byte>, again: FileSystem)
    requires StateOf(fs).Sound? && Sensible(r) && Fits(StateOf(fs).store, r)
    requires InSync(ImageOf(fs)) || Syncs(StateOf(fs).store, r)
    modifies fs.vol.fat, fs.vol.root, fs.vol`chains, fs.cache, fs.cache.nodes
    ensures fresh(again) && Restarts(old(StateOf(fs)).store, r, StateOf(fs), out, StateOf(again))
  {
    ghost var found;
    out, found := ServeSaved(fs, r, junk);
    again := BootFound(fs, junk, found);
  }

  /** fat12_create and fat12_remove change memory only: without a sync, the disk gives back the files of before. */
  method NameAndBoot(fs: FileSystem, r: Request, junk: bv32) returns (again: FileSystem)
    requires StateOf(fs).Sound? && Sensible(r) && (r.CreateFile? || r.RemoveFile?)
    requires OnDiskNow(fs.cache.disk, fs.vol.fat[..], fs.vol.root[..])
    modifies fs.vol.fat, fs.vol.root, fs.vol`chains
    ensures StateOf(again) == old(StateOf(fs)) && fresh(again)
  {
    ghost var fat, root, c := fs.vol.fat[..], fs.vol.root[..], fs.vol.chains;
    match r {
      case CreateFile(name) => var _ := DoCreate(fs, name);
      case RemoveFile(name) => DoRemove(fs, name);
      case _ =>
    }
    again := Boot(fs.cache.disk, junk, fat, root, c);
  }

  // ------------------------------------------------------------------ a disk that is full

  /** The disk that one file fills. */
  function FullImage(): (disk: seq<Sector>)
    ensures |disk| == DISK_SECTORS
  {
    var fat, root := Packed(FullTable(), FAT_ENTRIES), FullRoot();
    seq(DISK_SECTORS, s requires 0 <= s < DISK_SECTORS => ImageSector(fat, root, s))
  }

  function ImageSector(fat: seq<Byte>, root: seq<Byte>, s: nat): Sector
    requires |fat| == FAT_BYTES && |root| == ROOT_BYTES
  {
    if FAT_START <= s < FAT_START + 8 then fat[(s - FAT_START) * SECTOR_SIZE..(s - FAT_START + 1) * SECTOR_SIZE]
    else if ROOT_START <= s < DATA_START then root[(s - ROOT_START) * SECTOR_SIZE..(s - ROOT_START + 1) * SECTOR_SIZE]
    else seq(SECTOR_SIZE, _ => 0)
  }

  lemma FullImageOnDisk()
    ensures OnDiskNow(FullImage(), Packed(FullTable(), FAT_ENTRIES), FullRoot())
  {
    var disk, fat, root := FullImage(), Packed(FullTable(), FAT_ENTRIES), FullRoot();
    forall s | 0 <= s < DISK_SECTORS ensures disk[s] == ImageSector(fat, root, s) {
    }
  }

  /** One file, and nothing is free. */
  lemma FullStore(disk: seq<Sector>) returns (fat: seq<Byte>, root: seq<Byte>, chains: seq<seq<nat>>)
    requires disk == FullImage()
    ensures |fat| == FAT_BYTES && |root| == ROOT_BYTES && OnDiskNow(disk, fat, root)
    ensures var v := StateAt(disk, Entries(fat), Slots(root), chains);
            && v.Sound? && v.store.free == 0 && ShortName([66]) !in v.store.files && |v.store.files| != SLOTS
            && ShortName([65]) in v.store.files && |v.store.files[ShortName([65])]| == (FAT_ENTRIES - 3) * SECTOR_SIZE
  {
    fat, root, chains := Packed(FullTable(), FAT_ENTRIES), FullRoot(), FullChains();
    FullImageOnDisk();
    FullDisk();
    FullSlotReads();
    FullSlots(0);
    FileAt(disk, Entries(fat), Slots(root), chains, 0);
    FullMeans(disk, Entries(fat), Slots(root), chains);
  }

  /** A request that is too much for the volume on a disk, from its start on. */
  method BootAndServe(disk: seq<Sector>, r: Request, junk: bv32, ghost fat: seq<Byte>, ghost root: seq<Byte>, ghost chains: seq<seq<nat>>)
    returns (fs: FileSystem)
    requires |disk| == DISK_SECTORS && |fat| == FAT_BYTES && |root| == ROOT_BYTES && Sensible(r)
    requires OnDiskNow(disk, fat, root) && StateAt(disk, Entries(fat), Slots(root), chains).Sound?
    requires !Fits(StateAt(disk, Entries(fat), Slots(root), chains).store, r)
    ensures StateOf(fs).Ruined?
  {
    fs := Boot(disk, junk, fat, root, chains);
    var broken, out := Serve(fs, r, junk);
  }

  /** A second file, or one more sector for the first one. */
  ghost predicate TooMuch(r: Request) {
    && Sensible(r)
    && (r == CreateFile([66]) || (r.WriteAt? && r.name == [65] && r.offset + |r.bytes| >= (FAT_ENTRIES - 2) * SECTOR_SIZE))
  }

  lemma NothingFits(v: Store, r: Request)
    requires v.free == 0 && ShortName([66]) !in v.files && |v.files| != SLOTS && TooMuch(r)
    requires ShortName([65]) in v.files && |v.files[ShortName([65])]| == (FAT_ENTRIES - 3) * SECTOR_SIZE
    ensures !Fits(v, r)
  {
  }

  /** The full disk has room for neither of them. */
  lemma FullDiskFails(disk: seq<Sector>, r: Request) returns (fat: seq<Byte>, root: seq<Byte>, chains: seq<seq<nat>>)
    requires disk == FullImage() && TooMuch(r)
    ensures |fat| == FAT_BYTES && |root| == ROOT_BYTES && OnDiskNow(disk, fat, root)
    ensures var v := StateAt(disk, Entries(fat), Slots(root), chains); v.Sound? && !Fits(v.store, r)
  {
    fat, root, chains := FullStore(disk);
    NothingFits(StateAt(disk, Entries(fat), Slots(root), chains).store, r);
  }

  /** On a full disk either of them ruins the volume. */
  method OnFullDisk(r: Request, junk: bv32) returns (fs: FileSystem)
    requires TooMuch(r)
    ensures StateOf(fs).Ruined?
  {
    var disk := FullImage();
    ghost var fat, root, chains := FullDiskFails(disk, r);
    fs := BootAndServe(disk, r, junk, fat, root, chains);
  }
}
