/** The free map on the disk after every call, whatever memory there is, and when it is the one in memory. */
module FileSysMap {
  import opened Common
  import opened InodeIO
  import opened Directory
  import opened FileSys
  import opened FileSysDisk
  import opened FileSysTables
  import opened FileSysSafety
  import opened FileSysOps
  import opened FileSysMount
  import opened FileSysCalls
  import B = Bitmap

  /** Whatever is marked in `used` is marked in `d`. */
  ghost predicate Covers(used: seq<bool>, d: seq<bool>) {
    |d| == |used| && forall i {:trigger used[i]} {:trigger d[i]} :: 0 <= i < |used| && used[i] ==> d[i]
  }

  /** The map on the disk is `d`, which marks all that is marked in memory. */
  ghost predicate ShowsMore(fs: Fs, d: seq<bool>) { Shows(fs, d) && Covers(fs.used, d) }

  lemma MapIsReady(fs: Fs)
    requires CoreInv(fs) && MapFits(fs)
    ensures MapReady(fs, LiveSet(fs))
  {
    MapIsOk(fs);
    NodeOfFile(fs, FREE_MAP);
    var id := fs.files[FREE_MAP].inode;
    assert Denials(fs.files, id) == {};
  }

  lemma AllocatedCovers(used: seq<bool>, cnt: nat, mem: bool, d: seq<bool>)
    requires Covers(used, d)
    ensures var m := AllocatedMap(used, cnt, mem, d);
      && Covers(used, m)
      && (B.FirstFit(used, 0, cnt, false).Some? && Reach(|used|, mem) == MapSize(|used|) ==>
            m == B.WithRange(used, B.FirstFit(used, 0, cnt, false).value, cnt, true))
  {
    ReachIs(|used|, mem);
  }

  lemma AllocateShowsMore(fs: Fs, live: set<nat>, cnt: nat, mem: bool, d: seq<bool>)
    requires MapReady(fs, live) && ShowsMore(fs, d)
    ensures var fs' := Allocate(fs, cnt, mem).0; MapReady(fs', live) && ShowsMore(fs', AllocatedMap(fs.used, cnt, mem, d))
  {
    AllocateShows(fs, live, cnt, mem, d);
    AllocateKeeps(fs, live, cnt, mem);
    AllocatedCovers(fs.used, cnt, mem, d);
  }

  lemma ReleaseShowsMore(fs: Fs, live: set<nat>, live': set<nat>, s: nat, cnt: nat, mem: bool, d: seq<bool>)
    requires MapReady(fs, live) && ShowsMore(fs, d) && live' <= live && FREE_MAP in live' && Unowned(fs.disk, live', s, cnt)
    ensures var fs' := Release(fs, s, cnt, mem); MapReady(fs', live') && ShowsMore(fs', ReleasedMap(fs.used, s, cnt, mem, d))
  {
    ReleaseShows(fs, live, live', s, cnt, mem, d);
    ReleaseKeeps(fs, live, live', s, cnt, mem);
  }

  /** The live files but one are kept, and that one is not the free map. */
  lemma ElsewhereShows(fs: Fs, fs': Fs, live: set<nat>, but: nat, d: seq<bool>)
    requires ShowsMore(fs, d) && Kept(fs.disk, fs'.disk, live, but) && FREE_MAP in live && but != FREE_MAP && fs'.used == fs.used
    ensures ShowsMore(fs', d)
  {
    assert KeepsFile(fs.disk, fs'.disk, FREE_MAP);
    KeptShows(fs, fs', d);
  }

  // ----- file_close()

  /** After the sectors of a file have been released, first its inode and then its data */
  function FreedMap(used: seq<bool>, s: nat, start: nat, cnt: nat, mem: nat -> bool, d: seq<bool>): (r: seq<bool>)
    requires |used| == |d|
    ensures |r| == |d|
  {
    ReleasedMap(B.WithRange(used, s, 1, false), start, cnt, mem(1), ReleasedMap(used, s, 1, mem(0), d))
  }

  /** After inode_close(), `n` being the inode before */
  function ClosedMap(used: seq<bool>, n: Inode, mem: nat -> bool, d: seq<bool>): (r: seq<bool>)
    requires |used| == |d|
    ensures |r| == |d|
  {
    if n.openCnt == 1 && n.removed then FreedMap(used, n.sector, n.start, BytesToSectors(n.length), mem, d) else d
  }

  lemma FreedShows(fs: Fs, s: nat, start: nat, cnt: nat, mem: nat -> bool, d: seq<bool>)
    requires CoreInv(fs) && ShowsMore(fs, d) && Unowned(fs.disk, LiveSet(fs), s, 1) && Unowned(fs.disk, LiveSet(fs), start, cnt)
    ensures ShowsMore(Release(Release(fs, s, 1, mem(0)), start, cnt, mem(1)), FreedMap(fs.used, s, start, cnt, mem, d))
  {
    var live := LiveSet(fs);
    assert Live(fs, FREE_MAP);
    MapIsReady(fs);
    ReleaseShowsMore(fs, live, live, s, 1, mem(0), d);
    ReleaseKeeps(fs, live, live, s, 1, mem(0));
    var fs1 := Release(fs, s, 1, mem(0));
    assert Unowned(fs1.disk, live, start, cnt);
    ReleaseShowsMore(fs1, live, live, start, cnt, mem(1), ReleasedMap(fs.used, s, 1, mem(0), d));
  }

  lemma CloseShows(fs: Fs, h: nat, mem: nat -> bool, d: seq<bool>)
    requires CoreInv(fs) && ShowsMore(fs, d) && h in fs.files && h != FREE_MAP && !fs.files[h].deny
    ensures ShowsMore(Close(fs, h, mem), ClosedMap(fs.used, Get(fs.open, fs.files[h].inode), mem, d))
  {
    DroppedCore(fs, h);
    CloseInodeIs(fs, h, mem);
    NodeOfFile(fs, h);
    var n, fs1 := Get(fs.open, fs.files[h].inode), Dropped(fs, h);
    if n.openCnt == 1 && n.removed {
      GoneForGood(fs, h);
      OwnedByOne(fs.disk, fs.used, LiveSet(fs), LiveSet(fs1), n.sector);
      FreedShows(fs1, n.sector, n.start, BytesToSectors(n.length), mem, d);
    }
  }

  /** A reference is given up again. */
  lemma GivenUpShows(fs1: Fs, id: nat, h: nat, mem: nat -> bool, d: seq<bool>)
    requires ShowsMore(fs1, d) && h !in fs1.files && h != FREE_MAP && CoreInv(fs1.(files := fs1.files[h := File(id, 0, false)]))
    requires Get(fs1.open, id).openCnt != 1 || !Get(fs1.open, id).removed
    ensures ShowsMore(CloseInode(fs1, id, mem), d)
  {
    ReferenceClosed(fs1, id, h, mem);
    CloseShows(fs1.(files := fs1.files[h := File(id, 0, false)]), h, mem, d);
  }

  // ----- filesys_open(), file_reopen(), filesys_remove()

  /** An inode with an entry is not removed. */
  lemma ListedStays(fs: Fs, held: Fs, s: nat, h: nat)
    requires HeldOk(fs, held, s, h) && Listed(RootDir(fs), s)
    ensures !Get(held.open, held.files[h].inode).removed
  {
    NodeOfFile(held, h);
  }

  lemma NewFileShows(fs1: Fs, id: nat, mem: nat -> bool, d: seq<bool>)
    requires ShowsMore(fs1, d) && NextInv(fs1) && FREE_MAP in fs1.files && CoreInv(fs1.(files := fs1.files[fs1.next := File(id, 0, false)]))
    requires Get(fs1.open, id).openCnt != 1 || !Get(fs1.open, id).removed
    ensures ShowsMore(NewFile(fs1, id, mem).0, d)
  {
    NoSuchId(fs1);
    if !mem(0) { GivenUpShows(fs1, id, fs1.next, Shift(mem, 1), d); }
  }

  lemma OpenShows(fs: Fs, name: seq<Byte>, mem: nat -> bool, o: Outcome, d: seq<bool>)
    requires Inv(fs) && ShowsMore(fs, d)
    ensures ShowsMore(Open(fs, name, mem, o).0, d)
  {
    var found := Sought(RootDir(fs), name, o.lookup);
    if mem(0) && found.Some? {
      FoundIsListed(fs, found.value);
      var s := SectorOf(RecordAt(RootDir(fs), found.value));
      if OpenInode(fs, s, mem(1)).1.Some? {
        var fs1, id, h := Reference(fs, s, mem(1));
        ListedStays(fs, fs1.(files := fs1.files[h := File(id, 0, false)]), s, h);
        NewFileShows(fs1, id, Shift(mem, 2), d);
      }
    }
  }

  lemma ReopenShows(fs: Fs, h: nat, mem: nat -> bool, d: seq<bool>)
    requires Inv(fs) && ShowsMore(fs, d) && h in fs.files && h != FREE_MAP
    ensures ShowsMore(Reopen(fs, h, mem).0, d)
  {
    ReopenHolds(fs, h);
    ReopenIs(fs, h, mem);
    NodeOfFile(fs, h);
    var id := fs.files[h].inode;
    var fs1 := Reopened(fs, id);
    SameIds(fs.open, fs1.open, id);
    NewFileShows(fs1, id, mem, d);
  }

  /** Whether the inode in sector `s` has been open before decides whether its sectors are released. */
  lemma OpenedAlone(fs: Fs, s: nat, mem: bool, fs1: Fs, id: nat)
    requires Inv(fs) && s < |fs.disk| && OpenInode(fs, s, mem) == (fs1, Some(id))
    ensures var n := Get(fs1.open, id);
      && (n.openCnt == 1 <==> BySector(fs.open, s).None?)
      && (n.openCnt == 1 ==> n.sector == s && n.start == Start(fs.disk[s]) && n.length == Length(fs.disk[s]))
  {
    var r := BySector(fs.open, s);
    if r.Some? {
      assert fs.open[r.value] in fs.open && Counted(fs.open[r.value], fs.files);
      ByIdIs(fs.open, r.value);
      SameIds(fs.open, fs1.open, id);
    }
  }

  /** After filesys_remove() */
  function RemovedMap(fs: Fs, name: seq<Byte>, mem: nat -> bool, o: Outcome, d: seq<bool>): (r: seq<bool>)
    requires |fs.used| == |d|
    ensures |r| == |d|
  {
    if !Releases(fs, name, mem, o) then d else
    var s := SectorOf(RecordAt(RootDir(fs), Sought(RootDir(fs), name, o.lookup).value));
    FreedMap(fs.used, s, Start(fs.disk[s]), BytesToSectors(Length(fs.disk[s])), Shift(mem, 2), d)
  }

  /** filesys_remove() releases the sectors of the file at once. */
  predicate Releases(fs: Fs, name: seq<Byte>, mem: nat -> bool, o: Outcome) {
    mem(0) && mem(1) && o.write &&
    match Sought(RootDir(fs), name, o.lookup)
    case None => false
    case Some(k) => var s := SectorOf(RecordAt(RootDir(fs), k)); s < |fs.disk| && BySector(fs.open, s).None?
  }

  lemma ErasedShows(fs: Fs, k: nat, r: Record, erased: Fs, d: seq<bool>)
    requires CoreInv(fs) && ShowsMore(fs, d) && k < Count(RootDir(fs))
    requires erased.disk == WithRecord(fs, k, r).disk && erased.used == fs.used
    ensures ShowsMore(erased, d)
  {
    assert Live(fs, FREE_MAP) && Live(fs, ROOT_DIR);
    RecordKeeps(fs, LiveSet(fs), k, r);
    ElsewhereShows(fs, erased, LiveSet(fs), ROOT_DIR, d);
  }

  lemma RemoveShows(fs: Fs, name: seq<Byte>, mem: nat -> bool, o: Outcome, d: seq<bool>)
    requires Inv(fs) && ShowsMore(fs, d)
    ensures ShowsMore(Remove(fs, name, mem, o).0, RemovedMap(fs, name, mem, o, d))
  {
    var found := Sought(RootDir(fs), name, o.lookup);
    if mem(0) && found.Some? {
      var k := found.value;
      FoundIsListed(fs, k);
      var r := RecordAt(RootDir(fs), k);
      if OpenInode(fs, SectorOf(r), mem(1)).1.Some? {
        var fs1, id, h := Reference(fs, SectorOf(r), mem(1));
        OpenedAlone(fs, SectorOf(r), mem(1), fs1, id);
        if o.write {
          var erased := RemoveOpened(fs1, k, id, h, Shift(mem, 2));
          ErasedShows(fs, k, FreedRecord(r), erased, d);
          CloseShows(erased, h, Shift(mem, 2), d);
        } else {
          ListedStays(fs, fs1.(files := fs1.files[h := File(id, 0, false)]), SectorOf(r), h);
          GivenUpShows(fs1, id, h, Shift(mem, 2), d);
        }
      }
    }
  }

  // ----- filesys_create()

  /** After filesys_create() */
  function CreatedMap(fs: Fs, name: seq<Byte>, size: nat, mem: nat -> bool, o: Outcome, d: seq<bool>): (r: seq<bool>)
    requires |fs.used| == |d|
    ensures |r| == |d|
  {
    if !mem(0) then d else
    var d1 := AllocatedMap(fs.used, 1, mem(1), d);
    match Allocate(fs, 1, mem(1))
    case (_, None) => d1
    case (fs1, Some(s)) => WithInodeMap(fs1, s, name, size, mem, o, d1)
  }

  /** The part of it after sector `s` has been got for the inode */
  function WithInodeMap(fs1: Fs, s: nat, name: seq<Byte>, size: nat, mem: nat -> bool, o: Outcome, d1: seq<bool>): (r: seq<bool>)
    requires |fs1.used| == |d1|
    ensures |r| == |d1|
  {
    var (fs2, made) := CreateInode(fs1, s, size, Shift(mem, 2));
    FinishedMap(fs2, s, made, name, mem(4), o, InodeMap(fs1.used, size, Shift(mem, 2), d1))
  }

  /** After inode_create() */
  function InodeMap(used: seq<bool>, size: nat, mem: nat -> bool, d: seq<bool>): (r: seq<bool>)
    requires |used| == |d|
    ensures |r| == |d|
  {
    if mem(0) then AllocatedMap(used, BytesToSectors(size), mem(1), d) else d
  }

  function FinishedMap(fs2: Fs, s: nat, made: bool, name: seq<Byte>, mem: bool, o: Outcome, d2: seq<bool>): (r: seq<bool>)
    requires |fs2.used| == |d2|
    ensures |r| == |d2|
  {
    if made && !AddFails(RootDir(fs2), name, o) then d2 else ReleasedMap(fs2.used, s, 1, mem, d2)
  }

  /** filesys_create() once it has an inode, or has not got one */
  lemma FinishShows(fs: Fs, fs2: Fs, s: nat, size: nat, made: bool, name: seq<Byte>, mem: bool, o: Outcome, d: seq<bool>)
    requires Inv(fs) && InodeTried(fs, fs2, s, size, made) && MapReady(fs2, LiveSet(fs)) && ShowsMore(fs2, d)
    ensures ShowsMore(Finish(fs2, s, made, name, mem, o).0, FinishedMap(fs2, s, made, name, mem, o, d))
  {
    var live := LiveSet(fs);
    assert Live(fs, FREE_MAP) && Live(fs, ROOT_DIR);
    var live' := if made then live + {s} else live;
    if !made || AddFails(RootDir(fs2), name, o) {
      ReleaseShowsMore(fs2, live, live, s, 1, mem, d);
    } else {
      var (k, r) := Addition(RootDir(fs2), name, s, o).value;
      RecordKeeps(fs2, live', k, r);
      ElsewhereShows(fs2, WithRecord(fs2, k, r), live', ROOT_DIR, d);
    }
  }

  lemma InodeCovers(fs1: Fs, live: set<nat>, s: nat, size: nat, mem: nat -> bool, d: seq<bool>)
    requires MapReady(fs1, live) && ShowsMore(fs1, d)
    ensures Covers(CreateInode(fs1, s, size, mem).0.used, InodeMap(fs1.used, size, mem, d))
  {
    if mem(0) { AllocateShowsMore(fs1, live, BytesToSectors(size), mem(1), d); }
  }

  lemma InodeShows(fs: Fs, fs1: Fs, s: nat, size: nat, mem: nat -> bool, fs2: Fs, made: bool, d: seq<bool>)
    requires Inv(fs) && SectorTaken(fs, fs1, s) && MapReady(fs1, LiveSet(fs)) && ShowsMore(fs1, d) && size < MAX_LENGTH
    requires CreateInode(fs1, s, size, mem) == (fs2, made) && InodeTried(fs, fs2, s, size, made)
    ensures MapReady(fs2, LiveSet(fs)) && ShowsMore(fs2, InodeMap(fs1.used, size, mem, d))
  {
    CreateInodeShows(fs1, LiveSet(fs), s, size, mem, d);
    InodeCovers(fs1, LiveSet(fs), s, size, mem, d);
    if made { MapChange(fs2.disk, fs2.used, fs2.used, LiveSet(fs) + {s}, LiveSet(fs)); }
  }

  lemma WithInodeShows(fs: Fs, fs1: Fs, s: nat, name: seq<Byte>, size: nat, mem: nat -> bool, o: Outcome, d1: seq<bool>)
    requires Inv(fs) && SectorTaken(fs, fs1, s) && MapReady(fs1, LiveSet(fs)) && ShowsMore(fs1, d1) && size < MAX_LENGTH
    requires mem(0) && Allocate(fs, 1, mem(1)) == (fs1, Some(s))
    ensures ShowsMore(Create(fs, name, size, mem, o).0, WithInodeMap(fs1, s, name, size, mem, o, d1))
  {
    var fs2, made := TryInode(fs, fs1, s, size, Shift(mem, 2));
    InodeShows(fs, fs1, s, size, Shift(mem, 2), fs2, made, d1);
    CreateIs(fs, fs1, s, fs2, made, name, size, mem, o);
    WithInodeIs(fs1, s, fs2, made, name, size, mem, o, d1);
    FinishShows(fs, fs2, s, size, made, name, mem(4), o, InodeMap(fs1.used, size, Shift(mem, 2), d1));
  }

  lemma WithInodeIs(fs1: Fs, s: nat, fs2: Fs, made: bool, name: seq<Byte>, size: nat, mem: nat -> bool, o: Outcome, d1: seq<bool>)
    requires |fs1.used| == |d1| == |fs2.used| && CreateInode(fs1, s, size, Shift(mem, 2)) == (fs2, made)
    ensures WithInodeMap(fs1, s, name, size, mem, o, d1)
      == FinishedMap(fs2, s, made, name, mem(4), o, InodeMap(fs1.used, size, Shift(mem, 2), d1))
  {
  }

  lemma CreateShows(fs: Fs, name: seq<Byte>, size: nat, mem: nat -> bool, o: Outcome, d: seq<bool>)
    requires Inv(fs) && ShowsMore(fs, d) && IsName(name) && size < MAX_LENGTH
    ensures ShowsMore(Create(fs, name, size, mem, o).0, CreatedMap(fs, name, size, mem, o, d))
  {
    if mem(0) {
      MapIsReady(fs);
      AllocateShowsMore(fs, LiveSet(fs), 1, mem(1), d);
      match Allocate(fs, 1, mem(1)).1
      case None =>
      case Some(s) =>
        var fs1 := TakeSector(fs, mem(1), s);
        WithInodeShows(fs, fs1, s, name, size, mem, o, AllocatedMap(fs.used, 1, mem(1), d));
    }
  }

  // ----- any call

  /** The map on the disk after a call, `d` being the one before */
  function MapAfter(fs: Fs, a: Action, d: seq<bool>): seq<bool>
    requires Enabled(fs, a) && |fs.used| == |d|
  {
    match a
    case DoCreate(name, size, mem, o) => CreatedMap(fs, name, size, mem, o, d)
    case DoRemove(name, mem, o) => RemovedMap(fs, name, mem, o, d)
    case DoClose(h, mem) => ClosedMap(fs.used, Get(fs.open, fs.files[h].inode), mem, d)
    case _ => d
  }

  lemma CloseFileShows(fs: Fs, h: nat, mem: nat -> bool, d: seq<bool>)
    requires Inv(fs) && ShowsMore(fs, d) && h in fs.files && h != FREE_MAP
    ensures ShowsMore(Close(fs, h, mem), ClosedMap(fs.used, Get(fs.open, fs.files[h].inode), mem, d))
  {
    var fs1 := Deny(fs, h, false);
    DenyKeeps(fs, h, false);
    NodeOfFile(fs, h);
    SameIds(fs.open, fs1.open, fs.files[h].inode);
    CloseShows(fs1, h, mem, d);
    assert Close(fs1, h, mem) == Close(fs, h, mem);
  }

  lemma WriteShows(fs: Fs, h: nat, data: seq<Byte>, bounce: bool, d: seq<bool>)
    requires Inv(fs) && ShowsMore(fs, d) && h in fs.files && h != FREE_MAP
    ensures ShowsMore(Write(fs, h, data, bounce), d)
  {
    WriteIs(fs, h, data, bounce);
    var f, n := fs.files[h], Get(fs.open, fs.files[h].inode);
    StoreKeeps(fs.disk, fs.used, LiveSet(fs), n.sector, f.pos, data[..Written(n, |data|, f.pos, bounce)]);
    assert Live(fs, FREE_MAP);
    ElsewhereShows(fs, Write(fs, h, data, bounce), LiveSet(fs), n.sector, d);
  }

  /** For all outcomes: the map on the disk after any call, which still marks everything that is marked in memory */
  lemma StepShows(fs: Fs, a: Action, d: seq<bool>)
    requires Inv(fs) && ShowsMore(fs, d) && Enabled(fs, a)
    ensures ShowsMore(Step(fs, a), MapAfter(fs, a, d))
  {
    match a
    case DoCreate(name, size, mem, o) => CreateShows(fs, name, size, mem, o, d);
    case DoOpen(name, mem, o) => OpenShows(fs, name, mem, o, d);
    case DoRemove(name, mem, o) => RemoveShows(fs, name, mem, o, d);
    case DoReopen(h, mem) => ReopenShows(fs, h, mem, d);
    case DoClose(h, mem) => CloseFileShows(fs, h, mem, d);
    case DoWrite(h, data, bounce) => WriteShows(fs, h, data, bounce, d);
    case _ =>
  }

  // ----- when the two maps stay the same

  /** A write of the map does not get as far as sector `k`: there is no memory, and the last bytes are not a whole sector. */
  predicate Beyond(bits: nat, mem: bool, k: nat) { k / 8 >= Reach(bits, mem) }

  /** free_map_allocate() has to give up, having written marks to the disk. */
  predicate AllocateSpoils(used: seq<bool>, cnt: nat, mem: bool) {
    var fit := B.FirstFit(used, 0, cnt, false);
    Reach(|used|, mem) < MapSize(|used|) && cnt > 0 && fit.Some? && !Beyond(|used|, mem, fit.value)
  }

  /** free_map_release() for a whole file leaves marks on the disk: that of the inode if both writes are cut short before
      it, and those of the data if the second is cut short before the last of them. */
  predicate FreeSpoils(bits: nat, s: nat, start: nat, cnt: nat, mem: nat -> bool) {
    || (Beyond(bits, mem(0), s) && Beyond(bits, mem(1), s))
    || (cnt > 0 && Beyond(bits, mem(1), start + cnt - 1))
  }

  lemma AllocatedExactly(used: seq<bool>, cnt: nat, mem: bool)
    ensures var m, fit := AllocatedMap(used, cnt, mem, used), B.FirstFit(used, 0, cnt, false);
      if Reach(|used|, mem) == MapSize(|used|) then m == (if fit.Some? then B.WithRange(used, fit.value, cnt, true) else used)
      else m == used <==> !AllocateSpoils(used, cnt, mem)
  {
    ReachIs(|used|, mem);
    var m, fit := AllocatedMap(used, cnt, mem, used), B.FirstFit(used, 0, cnt, false);
    if fit.Some? && AllocateSpoils(used, cnt, mem) {
      assert B.AllAre(used, fit.value, cnt, false);
      assert !used[fit.value] && m[fit.value];
    }
  }

  /** One sector is released, and beyond the reach of the write the map on the disk was the one in memory. */
  lemma ReleasedExactly(used: seq<bool>, s: nat, mem: bool, d: seq<bool>)
    requires s < |used| == |d| && used[s] && forall i {:trigger d[i]} :: 0 <= i < |used| && Beyond(|used|, mem, i) ==> d[i] == used[i]
    ensures ReleasedMap(used, s, 1, mem, d) == B.WithRange(used, s, 1, false) <==> !Beyond(|used|, mem, s)
  {
    var m, w := ReleasedMap(used, s, 1, mem, d), B.WithRange(used, s, 1, false);
    if Beyond(|used|, mem, s) { assert m[s] && !w[s]; }
    else { assert forall i :: 0 <= i < |used| ==> m[i] == w[i]; }
  }

  lemma FreedExactly(used: seq<bool>, s: nat, start: nat, cnt: nat, mem: nat -> bool)
    requires s < |used| && used[s] && start + cnt <= |used| && !(start <= s < start + cnt)
    requires forall i {:trigger used[i]} :: start <= i < start + cnt ==> used[i]
    ensures FreedMap(used, s, start, cnt, mem, used) == B.WithRange(B.WithRange(used, s, 1, false), start, cnt, false)
      <==> !FreeSpoils(|used|, s, start, cnt, mem)
  {
    var m, w := FreedMap(used, s, start, cnt, mem, used), B.WithRange(B.WithRange(used, s, 1, false), start, cnt, false);
    if Beyond(|used|, mem(0), s) && Beyond(|used|, mem(1), s) {
      assert m[s] && !w[s];
    } else if cnt > 0 && Beyond(|used|, mem(1), start + cnt - 1) {
      assert m[start + cnt - 1] && !w[start + cnt - 1];
    } else {
      assert forall i :: 0 <= i < |used| ==> m[i] == w[i];
    }
  }

  predicate CloseSpoils(bits: nat, n: Inode, mem: nat -> bool) {
    n.openCnt == 1 && n.removed && FreeSpoils(bits, n.sector, n.start, BytesToSectors(n.length), mem)
  }

  /** After this call the map on the disk is not the one in memory. */
  predicate Spoils(fs: Fs, a: Action)
    requires Enabled(fs, a)
  {
    match a
    case DoCreate(name, size, mem, o) => CreateSpoils(fs, name, size, mem, o)
    case DoRemove(name, mem, o) =>
      Releases(fs, name, mem, o) &&
      var s := SectorOf(RecordAt(RootDir(fs), Sought(RootDir(fs), name, o.lookup).value));
      FreeSpoils(|fs.used|, s, Start(fs.disk[s]), BytesToSectors(Length(fs.disk[s])), Shift(mem, 2))
    case DoClose(h, mem) =>
      CloseSpoils(|fs.used|, Get(fs.open, fs.files[h].inode), mem)
    case _ => false
  }

  /** No sector can be got, with marks written to the disk; or one was got and then given up, and this is not written. */
  predicate CreateSpoils(fs: Fs, name: seq<Byte>, size: nat, mem: nat -> bool, o: Outcome) {
    mem(0) &&
    match Allocate(fs, 1, mem(1))
    case (_, None) => AllocateSpoils(fs.used, 1, mem(1))
    case (fs1, Some(s)) =>
      var (fs2, made) := CreateInode(fs1, s, size, Shift(mem, 2));
      (!made || AddFails(RootDir(fs2), name, o)) && Beyond(|fs.used|, mem(4), s)
  }

  /** The maps are the same after a call if the one on the disk is then the one in memory. */
  lemma SyncedExactly(fs: Fs, d: seq<bool>)
    requires Shows(fs, d)
    ensures Synced(fs) <==> d == fs.used
  {
    ShownReads(fs, d);
    if Synced(fs) { ShownReads(fs, fs.used); }
  }

  lemma CloseUsed(fs: Fs, h: nat, mem: nat -> bool)
    requires CoreInv(fs) && h in fs.files && h != FREE_MAP && !fs.files[h].deny
    ensures var n := Get(fs.open, fs.files[h].inode);
      && Close(fs, h, mem).used == (if n.openCnt == 1 && n.removed
           then B.WithRange(B.WithRange(fs.used, n.sector, 1, false), n.start, BytesToSectors(n.length), false) else fs.used)
      && (n.openCnt == 1 && n.removed ==> (ClosedMap(fs.used, n, mem, fs.used) == Close(fs, h, mem).used
            <==> !FreeSpoils(|fs.used|, n.sector, n.start, BytesToSectors(n.length), mem)))
  {
    CloseInodeIs(fs, h, mem);
    NodeOfFile(fs, h);
    var n := Get(fs.open, fs.files[h].inode);
    assert PlacedAt(fs.disk, fs.used, n.sector);
    var b := fs.disk[n.sector];
    assert Owns(b, n.sector, n.sector);
    forall i | n.start <= i < n.start + BytesToSectors(n.length) ensures i < |fs.used| && fs.used[i] { assert Owns(b, n.sector, i); }
    FreedExactly(fs.used, n.sector, n.start, BytesToSectors(n.length), mem);
  }

  lemma CloseSyncs(fs: Fs, h: nat, mem: nat -> bool)
    requires CoreInv(fs) && Synced(fs) && h in fs.files && h != FREE_MAP && !fs.files[h].deny
    ensures Synced(Close(fs, h, mem)) <==> !CloseSpoils(|fs.used|, Get(fs.open, fs.files[h].inode), mem)
  {
    CloseShows(fs, h, mem, fs.used);
    CloseUsed(fs, h, mem);
    SyncedExactly(Close(fs, h, mem), ClosedMap(fs.used, Get(fs.open, fs.files[h].inode), mem, fs.used));
  }

  lemma CloseFileSyncs(fs: Fs, h: nat, mem: nat -> bool)
    requires Inv(fs) && Synced(fs) && h in fs.files && h != FREE_MAP
    ensures Synced(Close(fs, h, mem)) <==> !CloseSpoils(|fs.used|, Get(fs.open, fs.files[h].inode), mem)
  {
    var fs1 := Deny(fs, h, false);
    DenyKeeps(fs, h, false);
    NodeOfFile(fs, h);
    SameIds(fs.open, fs1.open, fs.files[h].inode);
    CloseSyncs(fs1, h, mem);
    assert Close(fs1, h, mem) == Close(fs, h, mem);
  }

  lemma RemoveSyncs(fs: Fs, name: seq<Byte>, mem: nat -> bool, o: Outcome)
    requires Inv(fs) && Synced(fs) && IsName(name)
    ensures Synced(Remove(fs, name, mem, o).0) <==> !Spoils(fs, DoRemove(name, mem, o))
  {
    if Releases(fs, name, mem, o) {
      var k := Sought(RootDir(fs), name, o.lookup).value;
      FoundIsListed(fs, k);
      var r := RecordAt(RootDir(fs), k);
      var fs1, id, h := Reference(fs, SectorOf(r), mem(1));
      OpenedAlone(fs, SectorOf(r), mem(1), fs1, id);
      var erased := RemoveOpened(fs1, k, id, h, Shift(mem, 2));
      ErasedShows(fs, k, FreedRecord(r), erased, fs.used);
      CloseSyncs(erased, h, Shift(mem, 2));
    } else {
      RemoveShows(fs, name, mem, o, fs.used);
      RemoveUsed(fs, name, mem, o);
    }
  }

  /** If it releases nothing the map in memory is not touched. */
  lemma RemoveUsed(fs: Fs, name: seq<Byte>, mem: nat -> bool, o: Outcome)
    requires Inv(fs) && !Releases(fs, name, mem, o)
    ensures Remove(fs, name, mem, o).0.used == fs.used
  {
    var found := Sought(RootDir(fs), name, o.lookup);
    if mem(0) && found.Some? {
      var k := found.value;
      FoundIsListed(fs, k);
      var s := SectorOf(RecordAt(RootDir(fs), k));
      if OpenInode(fs, s, mem(1)).1.Some? {
        var fs1, id, h := Reference(fs, s, mem(1));
        OpenedAlone(fs, s, mem(1), fs1, id);
        if o.write {
          var erased := RemoveOpened(fs1, k, id, h, Shift(mem, 2));
        } else {
          ListedStays(fs, fs1.(files := fs1.files[h := File(id, 0, false)]), s, h);
        }
      }
    }
  }

  /** inode_create() with the two maps the same: beyond what a short write reaches they still are. */
  lemma InodeSyncs(fs1: Fs, live: set<nat>, s: nat, size: nat, mem: nat -> bool)
    requires MapReady(fs1, live) && Synced(fs1)
    ensures var (fs2, made) := CreateInode(fs1, s, size, mem); var d := InodeMap(fs1.used, size, mem, fs1.used);
      && |fs2.used| == |fs1.used| && (made ==> d == fs2.used)
      && forall i: nat, short: bool {:trigger Beyond(|fs1.used|, short, i)} :: i < |fs1.used| && Beyond(|fs1.used|, short, i) ==> d[i] == fs2.used[i]
  {
    var cnt := BytesToSectors(size);
    if mem(0) {
      AllocateShows(fs1, live, cnt, mem(1), fs1.used);
      AllocateKeeps(fs1, live, cnt, mem(1));
      AllocatedExactly(fs1.used, cnt, mem(1));
      ReachIs(|fs1.used|, mem(1));
      ReachIs(|fs1.used|, true);
      ReachIs(|fs1.used|, false);
    }
  }

  lemma FinishSyncs(fs: Fs, fs2: Fs, s: nat, size: nat, made: bool, name: seq<Byte>, mem: bool, o: Outcome, d: seq<bool>)
    requires Inv(fs) && InodeTried(fs, fs2, s, size, made) && MapReady(fs2, LiveSet(fs)) && ShowsMore(fs2, d)
    requires s < |fs2.used| && fs2.used[s] && (made ==> d == fs2.used)
    requires forall i {:trigger d[i]} :: 0 <= i < |d| && Beyond(|d|, mem, i) ==> d[i] == fs2.used[i]
    ensures Synced(Finish(fs2, s, made, name, mem, o).0) <==>
      !((!made || AddFails(RootDir(fs2), name, o)) && Beyond(|fs2.used|, mem, s))
  {
    FinishShows(fs, fs2, s, size, made, name, mem, o, d);
    var fs' := Finish(fs2, s, made, name, mem, o).0;
    SyncedExactly(fs', FinishedMap(fs2, s, made, name, mem, o, d));
    if !made || AddFails(RootDir(fs2), name, o) {
      ReleasedExactly(fs2.used, s, mem, d);
    }
  }

  lemma WithInodeSyncs(fs: Fs, fs1: Fs, s: nat, name: seq<Byte>, size: nat, mem: nat -> bool, o: Outcome)
    requires Inv(fs) && SectorTaken(fs, fs1, s) && MapReady(fs1, LiveSet(fs)) && Synced(fs1) && size < MAX_LENGTH
    requires mem(0) && Allocate(fs, 1, mem(1)) == (fs1, Some(s))
    ensures Synced(Create(fs, name, size, mem, o).0) <==> !CreateSpoils(fs, name, size, mem, o)
  {
    var fs2, made := TryInode(fs, fs1, s, size, Shift(mem, 2));
    InodeShows(fs, fs1, s, size, Shift(mem, 2), fs2, made, fs1.used);
    InodeSyncs(fs1, LiveSet(fs), s, size, Shift(mem, 2));
    CreateInodeKeeps(fs1, LiveSet(fs), s, size, Shift(mem, 2));
    CreateIs(fs, fs1, s, fs2, made, name, size, mem, o);
    FinishSyncs(fs, fs2, s, size, made, name, mem(4), o, InodeMap(fs1.used, size, Shift(mem, 2), fs1.used));
  }

  lemma CreateSyncs(fs: Fs, name: seq<Byte>, size: nat, mem: nat -> bool, o: Outcome)
    requires Inv(fs) && Synced(fs) && IsName(name) && size < MAX_LENGTH
    ensures Synced(Create(fs, name, size, mem, o).0) <==> !CreateSpoils(fs, name, size, mem, o)
  {
    if mem(0) {
      MapIsReady(fs);
      AllocateShowsMore(fs, LiveSet(fs), 1, mem(1), fs.used);
      AllocateShows(fs, LiveSet(fs), 1, mem(1), fs.used);
      AllocateKeeps(fs, LiveSet(fs), 1, mem(1));
      AllocatedExactly(fs.used, 1, mem(1));
      match Allocate(fs, 1, mem(1)).1
      case None => SyncedExactly(Allocate(fs, 1, mem(1)).0, AllocatedMap(fs.used, 1, mem(1), fs.used));
      case Some(s) =>
        var fs1 := TakeSector(fs, mem(1), s);
        WithInodeSyncs(fs, fs1, s, name, size, mem, o);
    }
  }

  /** If the two maps are the same before a call, then they are so after it exactly if it does not spoil them. */
  lemma StepSyncs(fs: Fs, a: Action)
    requires Inv(fs) && Synced(fs) && Enabled(fs, a)
    ensures Synced(Step(fs, a)) <==> !Spoils(fs, a)
  {
    match a
    case DoCreate(name, size, mem, o) => CreateSyncs(fs, name, size, mem, o);
    case DoRemove(name, mem, o) => RemoveSyncs(fs, name, mem, o);
    case DoClose(h, mem) => CloseFileSyncs(fs, h, mem);
    case _ =>
      StepShows(fs, a, fs.used);
      StepUsed(fs, a);
  }

  /** The other calls do not touch the map in memory. */
  lemma StepUsed(fs: Fs, a: Action)
    requires Inv(fs) && Enabled(fs, a) && !a.DoCreate? && !a.DoRemove? && !a.DoClose?
    ensures Step(fs, a).used == fs.used
  {
    match a
    case DoOpen(name, mem, o) => OpenUsed(fs, name, mem, o);
    case DoReopen(h, mem) => ReopenUsed(fs, h, mem);
    case _ =>
  }

  lemma OpenUsed(fs: Fs, name: seq<Byte>, mem: nat -> bool, o: Outcome)
    requires Inv(fs)
    ensures Open(fs, name, mem, o).0.used == fs.used
  {
    var found := Sought(RootDir(fs), name, o.lookup);
    if mem(0) && found.Some? {
      FoundIsListed(fs, found.value);
      var s := SectorOf(RecordAt(RootDir(fs), found.value));
      if OpenInode(fs, s, mem(1)).1.Some? {
        var fs1, id, h := Reference(fs, s, mem(1));
        ListedStays(fs, fs1.(files := fs1.files[h := File(id, 0, false)]), s, h);
      }
    }
  }

  lemma ReopenUsed(fs: Fs, h: nat, mem: nat -> bool)
    requires Inv(fs) && h in fs.files && h != FREE_MAP
    ensures Reopen(fs, h, mem).0.used == fs.used
  {
    NodeOfFile(fs, h);
    ReopenIs(fs, h, mem);
    SameIds(fs.open, Reopened(fs, fs.files[h].inode).open, fs.files[h].inode);
  }

  // ----- mounting the device again

  /** A mount after this one: what was open is not open any more, and the map is the one on the disk. */
  function Remount(fs: Fs): Fs { if |fs.disk| == 0 then fs else Mounted(fs.disk, DiskMap(fs)) }

  /** No sector of a live file is free in the map on the disk. */
  lemma LiveOnDisk(fs: Fs, d: seq<bool>)
    requires Inv(fs) && ShowsMore(fs, d)
    ensures DiskMap(fs) == d && DiskInv(fs.disk, DiskMap(fs), LiveSet(fs))
  {
    ShownReads(fs, d);
    MapChange(fs.disk, fs.used, d, LiveSet(fs), LiveSet(fs));
  }

  /** Everything is in order after the next mount. */
  lemma RemountInv(fs: Fs, d: seq<bool>)
    requires Inv(fs) && ShowsMore(fs, d)
    ensures var fs' := Remount(fs);
      && Inv(fs') && fs'.disk == fs.disk && fs'.used == d && ShowsMore(fs', d) && RootDir(fs') == RootDir(fs) && LiveSet(fs') <= LiveSet(fs)
      && Preserves(fs, fs', 1)
  {
    LiveOnDisk(fs, d);
    var fs' := Remount(fs);
    assert RootDir(fs') == RootDir(fs);
    forall s | s in LiveSet(fs') ensures s in LiveSet(fs) { MountedLive(fs.disk, d, s); }
    MapChange(fs.disk, d, d, LiveSet(fs), LiveSet(fs'));
    MountedInv(fs.disk, d);
    KeptSame(fs.disk, fs.used, LiveSet(fs), 1);
  }
}
