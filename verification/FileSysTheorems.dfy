/** The file system over whole runs. */
module FileSysTheorems {
  import opened Common
  import opened InodeIO
  import opened Directory
  import opened FileSys
  import opened FileSysDisk
  import opened FileSysTables
  import opened FileSysSafety
  import opened FileSysOps
  import opened FileSysMount
  import opened FileSysCalls
  import opened FileSysMap
  import B = Bitmap

  /** A run starts with a formatted device, which may be mounted again later. */
  datatype Execution = Formatted(disk: seq<Sector>) | Then(before: Execution, act: Action) | Remounted(before: Execution)

  predicate Legal(e: Execution)
    decreases e, 0
  {
    match e
    case Formatted(disk) => 2 <= |disk| <= WORD && Format(disk).Some?
    case Then(before, act) => Legal(before) && Enabled(Last(before), act)
    case Remounted(before) => Legal(before)
  }

  function Last(e: Execution): Fs
    requires Legal(e)
    decreases e, 1
  {
    match e
    case Formatted(disk) => Format(disk).value
    case Then(before, act) => Step(Last(before), act)
    case Remounted(before) => Remount(Last(before))
  }

  /** The map on the disk marks everything that is marked in memory. */
  ghost predicate Covered(fs: Fs) { ShowsMore(fs, DiskMap(fs)) }

  lemma {:induction false} EveryRunKeepsInv(e: Execution)
    requires Legal(e)
    ensures Inv(Last(e)) && Covered(Last(e))
  {
    match e
    case Formatted(disk) => FormatCovers(disk);
    case Then(before, act) =>
      EveryRunKeepsInv(before);
      StepKeepsInv(Last(before), act);
      StepCovers(Last(before), act);
    case Remounted(before) =>
      EveryRunKeepsInv(before);
      RemountCovers(Last(before));
  }

  lemma FormatCovers(disk: seq<Sector>)
    requires 2 <= |disk| <= WORD && Format(disk).Some?
    ensures Inv(Format(disk).value) && Covered(Format(disk).value)
  {
    FormatInv(disk);
    ShownReads(Format(disk).value, Format(disk).value.used);
  }

  lemma StepCovers(fs: Fs, a: Action)
    requires Inv(fs) && Covered(fs) && Enabled(fs, a)
    ensures Covered(Step(fs, a)) && |fs.used| == |DiskMap(fs)| && DiskMap(Step(fs, a)) == MapAfter(fs, a, DiskMap(fs))
  {
    StepShows(fs, a, DiskMap(fs));
    ShownReads(Step(fs, a), MapAfter(fs, a, DiskMap(fs)));
  }

  lemma RemountCovers(fs: Fs)
    requires Inv(fs) && Covered(fs)
    ensures Inv(Remount(fs)) && Covered(Remount(fs)) && Remount(fs).used == DiskMap(fs) == DiskMap(Remount(fs))
  {
    RemountInv(fs, DiskMap(fs));
    ShownReads(Remount(fs), DiskMap(fs));
  }

  /** A state that some run leads to */
  ghost predicate Reachable(fs: Fs) {
    exists e :: Legal(e) && Last(e) == fs
  }

  lemma ReachableInv(fs: Fs)
    requires Reachable(fs)
    ensures Inv(fs)
  {
    var e :| Legal(e) && Last(e) == fs;
    EveryRunKeepsInv(e);
  }

  // ----- what that means

  /** No two files share a sector; a file lies on the device, apart from its own inode, and all its sectors are
      marked in the free map. */
  lemma FilesAreDisjoint(fs: Fs, s: nat, t: nat, k: nat)
    requires Reachable(fs) && Live(fs, s) && Live(fs, t)
    ensures s < |fs.disk| && t < |fs.disk|
    ensures Owns(fs.disk[s], s, k) ==> k < |fs.disk| == |fs.used| && fs.used[k]
    ensures s != t && Owns(fs.disk[s], s, k) ==> !Owns(fs.disk[t], t, k)
    ensures !InExtent(fs.disk[s], s)
  {
    ReachableInv(fs);
    LiveOnDevice(fs, s);
    LiveOnDevice(fs, t);
    assert PlacedAt(fs.disk, fs.used, s);
    assert s != t ==> ApartAt(fs.disk, s, t);
  }

  lemma LiveOnDevice(fs: Fs, s: nat)
    requires Inv(fs) && Live(fs, s)
    ensures s < |fs.disk| && s in LiveSet(fs)
  {
    if Listed(RootDir(fs), s) {
      var i: nat :| Lists(RootDir(fs), i, s);
      assert EntryAt(RootDir(fs), |fs.disk|, i);
    } else if BySector(fs.open, s).Some? {
      var n := fs.open[BySector(fs.open, s).value];
      assert n in fs.open && NodeOk(n, fs.disk, RootDir(fs));
    }
  }

  /** Entries of the directory have different inodes, never the system's. */
  lemma EntriesAreApart(fs: Fs, i: nat, j: nat)
    requires Reachable(fs) && i < Count(RootDir(fs)) && InUse(RecordAt(RootDir(fs), i))
    requires j < Count(RootDir(fs)) && InUse(RecordAt(RootDir(fs), j)) && i != j
    ensures var a, b := RecordAt(RootDir(fs), i), RecordAt(RootDir(fs), j);
      SectorOf(a) != SectorOf(b) && 2 <= SectorOf(a) < |fs.disk|
  {
    ReachableInv(fs);
    var dir := RootDir(fs);
    assert EntryAt(dir, |fs.disk|, i) && EntryPair(dir, i, j) && EntryPair(dir, j, i);
  }

  /** An inode is in memory at most once, as it is on disk, and counts its openers and those who deny writing. */
  lemma OpenInodesAreExact(fs: Fs, i: nat, j: nat)
    requires Reachable(fs) && i < |fs.open| && j < |fs.open|
    ensures var n, m := fs.open[i], fs.open[j];
      && (n.sector == m.sector ==> i == j)
      && n.sector < |fs.disk| && n.start == Start(fs.disk[n.sector]) && n.length == Length(fs.disk[n.sector])
      && n.openCnt == |Refs(fs.files, n.id)| > 0 && n.denyCnt == |Denials(fs.files, n.id)|
      && (n.removed ==> !Listed(RootDir(fs), n.sector))
  {
    ReachableInv(fs);
    assert NodePair(fs.open, i, j) && NodePair(fs.open, j, i);
    assert fs.open[i] in fs.open && Counted(fs.open[i], fs.files) && NodeOk(fs.open[i], fs.disk, RootDir(fs));
  }

  /** Every open file leads to an inode in memory. */
  lemma NoDanglingFile(fs: Fs, h: nat)
    requires Reachable(fs) && h in fs.files
    ensures exists i :: 0 <= i < |fs.open| && fs.open[i].id == fs.files[h].inode
  {
    ReachableInv(fs);
    assert FileAt(fs.open, fs.files, h);
    assert fs.open[ById(fs.open, fs.files[h].inode).value].id == fs.files[h].inode;
  }

  // ----- what files contain

  function FileBytes(fs: Fs, s: nat): seq<Byte>
    requires s < |fs.disk|
  {
    Bytes(fs.disk, fs.disk[s])
  }

  /** No call changes a file, open or closed, removed or not, unless it is a write to that very file. */
  lemma OthersUntouched(fs: Fs, a: Action, t: nat)
    requires Inv(fs) && Enabled(fs, a) && 2 <= t && Live(fs, t) && Live(Step(fs, a), t) && t != Target(fs, a)
    ensures t < |fs.disk| == |Step(fs, a).disk| && FileBytes(Step(fs, a), t) == FileBytes(fs, t)
  {
    StepKeepsInv(fs, a);
    LiveOnDevice(fs, t);
    LiveOnDevice(Step(fs, a), t);
    assert KeepsFile(fs.disk, Step(fs, a).disk, t);
    KeptBytes(fs.disk, Step(fs, a).disk, t);
  }

  /** `later` goes on from `e`, the file in sector `t` is always live, and nobody writes to it. */
  ghost predicate Continues(e: Execution, later: Execution) {
    e == later || (!later.Formatted? && Continues(e, later.before))
  }

  ghost predicate Undisturbed(e: Execution, later: Execution, t: nat)
    requires Legal(later) && Continues(e, later)
  {
    Live(Last(later), t) && (e == later ||
      ((later.Then? ==> t != Target(Last(later.before), later.act)) && Undisturbed(e, later.before, t)))
  }

  lemma {:induction false} ContinuesLegal(e: Execution, later: Execution)
    requires Legal(later) && Continues(e, later)
    ensures Legal(e)
  {
    if e != later { ContinuesLegal(e, later.before); }
  }

  /** A file keeps its bytes over any run in which it stays live, be it only because somebody has it open, and in
      which nobody writes to it, even if the device is mounted again. */
  lemma {:induction false} ContentLasts(e: Execution, later: Execution, t: nat)
    requires Legal(later) && Continues(e, later) && 2 <= t && Undisturbed(e, later, t)
    ensures Legal(e) && t < |Last(e).disk| && t < |Last(later).disk|
    ensures FileBytes(Last(later), t) == FileBytes(Last(e), t)
  {
    ContinuesLegal(e, later);
    EveryRunKeepsInv(later);
    LiveOnDevice(Last(later), t);
    if e != later {
      ContentLasts(e, later.before, t);
      EveryRunKeepsInv(later.before);
      assert Live(Last(later.before), t);
      if later.Then? {
        OthersUntouched(Last(later.before), later.act, t);
      } else {
        RemountCovers(Last(later.before));
      }
    }
  }

  /** A write replaces a slice of its own file by data, unless writing is denied, and moves past it. */
  lemma WriteReplacesItsSlice(fs: Fs, h: nat, data: seq<Byte>, bounce: bool)
    requires Inv(fs) && h in fs.files && h != FREE_MAP
    ensures var fs', pos := Write(fs, h, data, bounce), fs.files[h].pos;
      var s := Get(fs.open, fs.files[h].inode).sector;
      && s < |fs.disk| == |fs'.disk|
      && var c, c' := FileBytes(fs, s), FileBytes(fs', s);
      var n := if Denials(fs.files, fs.files[h].inode) != {} then 0 else Transferred(|c|, |data|, pos, bounce);
      && fs'.files == fs.files[h := fs.files[h].(pos := pos + n)]
      && c' == if n == 0 then c else c[..pos] + data[..n] + c[pos + n..]
  {
    WriteIs(fs, h, data, bounce);
    NodeOfFile(fs, h);
    var pos, m := fs.files[h].pos, Get(fs.open, fs.files[h].inode);
    var b, n := fs.disk[m.sector], Written(m, |data|, pos, bounce);
    assert PlacedAt(fs.disk, fs.used, m.sector);
    WriteKeeps(fs, h, data, bounce);
    StoreKeeps(fs.disk, fs.used, LiveSet(fs), m.sector, pos, data[..n]);
    if n == 0 {
      StoredNothing(fs.disk, m.start, pos);
      assert data[..0] == [];
    } else {
      WriteReplacesSlice(fs.disk, m.start, m.length, pos, data[..n]);
    }
  }

  // ----- giving sectors back

  /** Closing a file gives back exactly the sectors of its inode, if that is removed and nobody else has it open, and
      otherwise none. */
  lemma ReleasedWithLastClose(fs: Fs, h: nat, mem: nat -> bool)
    requires CoreInv(fs) && h in fs.files && h != FREE_MAP
    ensures var fs' := Close(fs, h, mem); var n := Get(fs.open, fs.files[h].inode);
      var last := n.removed && Refs(fs.files, n.id) == {h};
      && n.sector < |fs.disk| && |fs'.used| == |fs.used|
      && forall k :: 0 <= k < |fs.used| ==> fs'.used[k] == (fs.used[k] && !(last && Owns(fs.disk[n.sector], n.sector, k)))
  {
    NodeOfFile(fs, h);
    var n, fs1 := Get(fs.open, fs.files[h].inode), Deny(fs, h, false);
    DenyKeeps(fs, h, false);
    NodeOfFile(fs1, h);
    CloseInodeIs(fs1, h, mem);
    assert Close(fs1, h, mem) == Close(fs, h, mem);
    SameNode(fs, h);
    OnlyOne(Refs(fs.files, n.id), h);
    var n1, fs2 := Get(fs1.open, fs.files[h].inode), Dropped(fs1, h);
    if n1.openCnt == 1 && n1.removed {
      var fs3 := Release(fs2, n.sector, 1, mem(0));
      assert fs3.used == B.WithRange(fs.used, n.sector, 1, false);
      var fs4 := Release(fs3, n.start, BytesToSectors(n.length), mem(1));
      assert fs4.used == B.WithRange(fs3.used, n.start, BytesToSectors(n.length), false);
    }
  }

  lemma OnlyOne(s: set<nat>, h: nat)
    requires h in s
    ensures |s| == 1 <==> s == {h}
  {
    assert |s - {h}| == |s| - 1;
    assert s - {h} == {} ==> s == {h};
  }

  /** file_allow_write() changes only the count of those who deny writing. */
  lemma SameNode(fs: Fs, h: nat)
    requires CoreInv(fs) && h in fs.files
    ensures var n, m := Get(fs.open, fs.files[h].inode), Get(Deny(fs, h, false).open, fs.files[h].inode);
      m == n.(denyCnt := m.denyCnt)
  {
    NodeOfFile(fs, h);
    var open' := Deny(fs, h, false).open;
    SameIds(fs.open, open', fs.files[h].inode);
  }

  /** filesys_remove() up to where it closes the inode again, seen with the reference `h` that it holds */
  lemma RemoveHolds(fs: Fs, name: seq<Byte>, mem: nat -> bool, d: Outcome) returns (k: nat, s: nat, id: nat, h: nat, erased: Fs)
    requires Inv(fs) && Remove(fs, name, mem, d).1
    ensures Sought(RootDir(fs), name, d.lookup) == Some(k) && s == SectorOf(RecordAt(RootDir(fs), k))
    ensures 2 <= s < |fs.disk| == |erased.disk| && erased.disk[s] == fs.disk[s]
    ensures h !in fs.files && h != FREE_MAP && erased.files == fs.files[h := File(id, 0, false)]
    ensures erased.used == fs.used && CoreInv(erased)
    ensures RootDir(erased) == Rewritten(RootDir(fs), k, FreedRecord(RecordAt(RootDir(fs), k)))
    ensures Get(erased.open, id).sector == s && Get(erased.open, id).removed && Get(erased.open, id).id == id
    ensures id == match BySector(fs.open, s) case None => fs.next case Some(i) => fs.open[i].id
    ensures Remove(fs, name, mem, d).0 == Close(erased, h, Shift(mem, 2))
  {
    k := Sought(RootDir(fs), name, d.lookup).value;
    s := SectorOf(RecordAt(RootDir(fs), k));
    FoundIsListed(fs, k);
    var fs1, i, g := Reference(fs, s, mem(1));
    id, h := i, g;
    erased := RemoveOpened(fs1, k, id, h, Shift(mem, 2));
  }

  /** filesys_remove() takes the entry away at once, and with it the name, exactly if no other entry has it. The
      sectors of the file go at once if nobody has it open, and otherwise stay, to be released with the last close. */
  lemma RemoveErases(fs: Fs, name: seq<Byte>, mem: nat -> bool, d: Outcome)
    requires Inv(fs) && Remove(fs, name, mem, d).1
    ensures var fs', dir := Remove(fs, name, mem, d).0, RootDir(fs);
      && Sought(dir, name, d.lookup).Some?
      && var i := Sought(dir, name, d.lookup).value; var s := SectorOf(RecordAt(dir, i)); var open := BySector(fs.open, s).Some?;
      && RootDir(fs') == Rewritten(dir, i, FreedRecord(RecordAt(dir, i)))
      && (EntryOf(RootDir(fs'), name) == None <==> forall j :: 0 <= j < Count(dir) && j != i ==> !Matches(dir, j, name))
      && 2 <= s < |fs.disk| && |fs'.used| == |fs.used|
      && forall k :: 0 <= k < |fs.used| ==> fs'.used[k] == (fs.used[k] && (open || !Owns(fs.disk[s], s, k)))
  {
    var k, s, id, h, erased := RemoveHolds(fs, name, mem, d);
    CloseKeeps(erased, h, Shift(mem, 2));
    ReleasedWithLastClose(erased, h, Shift(mem, 2));
    LastReference(fs, s, id, h);
    ErasedName(RootDir(fs), name, k);
  }

  /** The reference that filesys_remove() holds is the only one exactly if the inode was not open. */
  lemma LastReference(fs: Fs, s: nat, id: nat, h: nat)
    requires Inv(fs) && h !in fs.files
    requires id == match BySector(fs.open, s) case None => fs.next case Some(i) => fs.open[i].id
    ensures Refs(fs.files[h := File(id, 0, false)], id) == {h} <==> BySector(fs.open, s).None?
  {
    var r := BySector(fs.open, s);
    assert Refs(fs.files[h := File(id, 0, false)], id) == Refs(fs.files, id) + {h};
    if r.Some? {
      assert fs.open[r.value] in fs.open && Counted(fs.open[r.value], fs.files);
      var g :| g in Refs(fs.files, id);
      assert g != h;
    } else {
      NoSuchId(fs);
      forall g | g in fs.files ensures fs.files[g].inode != id { assert FileAt(fs.open, fs.files, g); }
    }
  }

  lemma RootIsClosed(fs: Fs)
    requires Inv(fs)
    ensures BySector(fs.open, ROOT_DIR).None? && ROOT_DIR < |fs.disk|
  {
    forall i | 0 <= i < |fs.open| ensures fs.open[i].sector != ROOT_DIR {
      assert fs.open[i] in fs.open && NodeOk(fs.open[i], fs.disk, RootDir(fs));
    }
  }

  /** Closing the inode opened last, if nobody else has it open, only takes it off the list. */
  lemma CloseFirst(fs: Fs, open: seq<Inode>, n: Inode, mem: nat -> bool)
    requires fs.open == [n] + open && n.openCnt == 1 && !n.removed
    ensures Get(fs.open, n.id) == n && CloseInode(fs, n.id, mem) == fs.(open := open)
  {
    assert fs.open[1..] == open && fs.open[..0] + fs.open[1..] == open;
  }

  /** dir_open_root() and dir_close() around a call leave nothing behind: the root's inode is not open otherwise, and
      nobody denies writing to it. */
  lemma RootReferenceIsTemporary(fs: Fs, mem: nat -> bool)
    requires Inv(fs)
    ensures var (fs1, id) := OpenInode(fs, ROOT_DIR, true);
      && id.Some? && CloseInode(fs1, id.value, mem) == fs.(next := fs.next + 1)
      && var n := Get(fs1.open, id.value);
      n.denyCnt == 0 && n.start == Start(fs.disk[ROOT_DIR]) && n.length == Length(fs.disk[ROOT_DIR])
  {
    RootIsClosed(fs);
    var fs1 := OpenInode(fs, ROOT_DIR, true).0;
    CloseFirst(fs1, fs.open, fs1.open[0], mem);
  }

  // ----- assertions

  /** The assertions of free_map_release() in inode_close() */
  predicate CloseAsserts(fs: Fs, id: nat, mem: nat -> bool) {
    var n := Get(fs.open, id);
    n.openCnt == 1 && n.removed ==>
      ReleaseAsserts(fs, n.sector, 1) && ReleaseAsserts(Release(fs, n.sector, 1, mem(0)), n.start, BytesToSectors(n.length))
  }

  /** The assertions of inode_deny_write() and inode_allow_write() */
  predicate DenyAsserts(fs: Fs, h: nat, deny: bool)
    requires h in fs.files
  {
    var f, n := fs.files[h], Get(fs.open, fs.files[h].inode);
    f.deny != deny ==> if deny then n.denyCnt + 1 <= n.openCnt else 0 < n.denyCnt <= n.openCnt
  }

  /** The assertions that come up in one call */
  predicate Asserts(fs: Fs, a: Action)
    requires Enabled(fs, a)
  {
    match a
    case DoCreate(name, size, mem, d) =>
      (match Allocate(fs, 1, mem(1))
       case (_, None) => true
       case (fs1, Some(s)) =>
         var (fs2, made) := CreateInode(fs1, s, size, Shift(mem, 2));
         (made && !AddFails(RootDir(fs2), name, d)) || ReleaseAsserts(fs2, s, 1))
    case DoOpen(name, mem, d) =>
      (match Sought(RootDir(fs), name, d.lookup)
       case None => true
       case Some(k) =>
         var s := SectorOf(RecordAt(RootDir(fs), k));
         s < |fs.disk| &&
         match OpenInode(fs, s, mem(1))
         case (_, None) => true
         case (fs1, Some(id)) => CloseAsserts(fs1, id, Shift(mem, 3)))
    case DoRemove(name, mem, d) =>
      (match Sought(RootDir(fs), name, d.lookup)
       case None => true
       case Some(k) =>
         var s := SectorOf(RecordAt(RootDir(fs), k));
         s < |fs.disk| &&
         match OpenInode(fs, s, mem(1))
         case (_, None) => true
         case (fs1, Some(id)) =>
           k < Count(RootDir(fs1)) && CloseAsserts(if d.write then ErasedFs(fs1, k, id) else fs1, id, Shift(mem, 2)))
    case DoReopen(h, mem) =>
      var n := Get(fs.open, fs.files[h].inode);
      CloseAsserts(fs.(open := Put(fs.open, n.(openCnt := n.openCnt + 1))), n.id, Shift(mem, 1))
    case DoClose(h, mem) => DenyAsserts(fs, h, false) && CloseAsserts(Deny(fs, h, false), fs.files[h].inode, mem)
    case DoDeny(h, deny) => DenyAsserts(fs, h, deny)
    case _ => true
  }

  lemma CloseAssertsHold(fs: Fs, h: nat, mem: nat -> bool)
    requires CoreInv(fs) && h in fs.files
    ensures CloseAsserts(fs, fs.files[h].inode, mem)
  {
    NodeOfFile(fs, h);
    var n := Get(fs.open, fs.files[h].inode);
    assert PlacedAt(fs.disk, fs.used, n.sector);
    assert Owns(fs.disk[n.sector], n.sector, n.sector);
    forall k: nat | n.start <= k < n.start + BytesToSectors(n.length) ensures fs.used[k] && k != n.sector {
      assert Owns(fs.disk[n.sector], n.sector, k);
    }
  }

  /** The assertions do not depend on what stands for a reference. */
  lemma CloseAssertsOf(fs: Fs, files': map<nat, File>, id: nat, mem: nat -> bool)
    requires CloseAsserts(fs.(files := files'), id, mem)
    ensures CloseAsserts(fs, id, mem)
  {
  }

  lemma DenyAssertsHold(fs: Fs, h: nat, deny: bool)
    requires CoreInv(fs) && h in fs.files
    ensures DenyAsserts(fs, h, deny)
  {
    NodeOfFile(fs, h);
    var id := fs.files[h].inode;
    var refs, denials := Refs(fs.files, id), Denials(fs.files, id);
    Smaller(denials, refs);
    if fs.files[h].deny {
      assert h in denials;
    } else {
      assert h in refs && h !in denials;
      Smaller(denials + {h}, refs);
    }
  }

  lemma CreateAssertsHold(fs: Fs, size: nat, mem: nat -> bool)
    requires Inv(fs) && size < MAX_LENGTH && Allocate(fs, 1, mem(1)).1.Some?
    ensures var (fs1, s) := Allocate(fs, 1, mem(1)); ReleaseAsserts(CreateInode(fs1, s.value, size, Shift(mem, 2)).0, s.value, 1)
  {
    var live := LiveSet(fs);
    MapIsOk(fs);
    AllocateKeeps(fs, live, 1, mem(1));
    var (fs1, s) := Allocate(fs, 1, mem(1));
    TakenSector(fs, s.value);
    assert Unowned(fs1.disk, live, s.value, 1);
    CreateInodeKeeps(fs1, live, s.value, size, Shift(mem, 2));
  }

  /** No assertion fails in any run. */
  lemma NoAssertionFails(fs: Fs, a: Action)
    requires Reachable(fs) && Enabled(fs, a)
    ensures Asserts(fs, a)
  {
    ReachableInv(fs);
    AssertsHold(fs, a);
  }

  lemma AssertsHold(fs: Fs, a: Action)
    requires Inv(fs) && Enabled(fs, a)
    ensures Asserts(fs, a)
  {
    match a
    case DoCreate(name, size, mem, d) =>
      if Allocate(fs, 1, mem(1)).1.Some? { CreateAssertsHold(fs, size, mem); }
    case DoOpen(name, mem, d) =>
      if Sought(RootDir(fs), name, d.lookup).Some? { OpenAssertsHold(fs, name, mem, d); }
    case DoRemove(name, mem, d) =>
      if Sought(RootDir(fs), name, d.lookup).Some? { RemoveAssertsHold(fs, name, mem, d); }
    case DoReopen(h, mem) => ReopenAssertsHold(fs, h, mem);
    case DoClose(h, mem) =>
      DenyAssertsHold(fs, h, false);
      DenyKeeps(fs, h, false);
      CloseAssertsHold(Deny(fs, h, false), h, mem);
    case DoDeny(h, deny) => DenyAssertsHold(fs, h, deny);
    case _ =>
  }

  lemma ReopenAssertsHold(fs: Fs, h: nat, mem: nat -> bool)
    requires Inv(fs) && h in fs.files && h != FREE_MAP
    ensures Asserts(fs, DoReopen(h, mem))
  {
    NoSuchId(fs);
    NodeOfFile(fs, h);
    NodeOfFile(fs, FREE_MAP);
    var n := Get(fs.open, fs.files[h].inode);
    AddRef(fs, n.id, fs.next);
    var fs1 := fs.(open := Put(fs.open, n.(openCnt := n.openCnt + 1)));
    var files' := fs.files[fs.next := File(n.id, 0, false)];
    CloseAssertsHold(fs1.(files := files'), fs.next, Shift(mem, 1));
    CloseAssertsOf(fs1, files', n.id, Shift(mem, 1));
  }

  lemma OpenAssertsHold(fs: Fs, name: seq<Byte>, mem: nat -> bool, d: Outcome)
    requires Inv(fs) && IsName(name) && Sought(RootDir(fs), name, d.lookup).Some?
    ensures Asserts(fs, DoOpen(name, mem, d))
  {
    var k := Sought(RootDir(fs), name, d.lookup).value;
    var s := SectorOf(RecordAt(RootDir(fs), k));
    FoundIsListed(fs, k);
    if OpenInode(fs, s, mem(1)).1.Some? {
      var fs1, id, h := Reference(fs, s, mem(1));
      var files' := fs1.files[h := File(id, 0, false)];
      CloseAssertsHold(fs1.(files := files'), h, Shift(mem, 3));
      CloseAssertsOf(fs1, files', id, Shift(mem, 3));
    }
  }

  lemma ErasedAssertsHold(fs1: Fs, k: nat, id: nat, h: nat, erased: Fs, mem: nat -> bool)
    requires k < Count(RootDir(fs1)) && erased == ErasedFs(fs1, k, id).(files := fs1.files[h := File(id, 0, false)])
    requires CoreInv(erased)
    ensures CloseAsserts(ErasedFs(fs1, k, id), id, mem)
  {
    CloseAssertsHold(erased, h, mem);
    CloseAssertsOf(ErasedFs(fs1, k, id), erased.files, id, mem);
  }

  lemma RemoveAssertsHold(fs: Fs, name: seq<Byte>, mem: nat -> bool, d: Outcome)
    requires Inv(fs) && IsName(name) && Sought(RootDir(fs), name, d.lookup).Some?
    ensures Asserts(fs, DoRemove(name, mem, d))
  {
    var k := Sought(RootDir(fs), name, d.lookup).value;
    var s := SectorOf(RecordAt(RootDir(fs), k));
    FoundIsListed(fs, k);
    if OpenInode(fs, s, mem(1)).1.Some? {
      var fs1, id, h := Reference(fs, s, mem(1));
      if d.write {
        var erased := RemoveOpened(fs1, k, id, h, Shift(mem, 2));
        ErasedAssertsHold(fs1, k, id, h, erased, Shift(mem, 2));
      } else {
        var files' := fs1.files[h := File(id, 0, false)];
        CloseAssertsHold(fs1.(files := files'), h, Shift(mem, 2));
        CloseAssertsOf(fs1, files', id, Shift(mem, 2));
      }
    }
  }
}
