/** Runs on a device of 32 sectors in which sectors are lost, a name is entered twice, and an entry is overwritten. */
module FileSysExamples {
  import opened Common
  import opened InodeIO
  import opened Directory
  import opened FileSys
  import opened FileSysDisk
  import opened FileSysTables
  import opened FileSysSafety
  import opened FileSysOps
  import opened FileSysMount
  import opened FileSysCalls
  import opened FileSysMap
  import opened FileSysTheorems
  import opened FileSysRemount
  import opened FileSysNames
  import opened FileSysLeaks
  import B = Bitmap

  /** Memory for all that it takes to make a file, though perhaps not for giving up again */
  predicate Plenty(mem: nat -> bool) { mem(0) && mem(1) && mem(2) && mem(3) }

  // ----- the free map with its first sectors marked

  predicate Prefix(used: seq<bool>, m: nat) {
    forall k {:trigger used[k]} :: 0 <= k < |used| ==> used[k] == (k < m)
  }

  lemma PrefixFit(used: seq<bool>, m: nat, cnt: nat)
    requires Prefix(used, m) && 0 < cnt && m + cnt <= |used|
    ensures B.FirstFit(used, 0, cnt, false) == Some(m) && Prefix(B.WithRange(used, m, cnt, true), m + cnt)
  {
    assert B.IsFirstFit(used, 0, cnt, false, Some(m)) by {
      forall i | 0 <= i < m ensures !B.AllAre(used, i, cnt, false) { assert used[i]; }
    }
    B.FirstFitIsUnique(used, 0, cnt, false, B.FirstFit(used, 0, cnt, false), Some(m));
  }

  lemma AllocateAt(fs: Fs, live: set<nat>, m: nat, cnt: nat)
    requires MapReady(fs, live) && Prefix(fs.used, m) && 0 < cnt && m + cnt <= |fs.used|
    ensures var (fs', r) := Allocate(fs, cnt, true); r == Some(m) && Prefix(fs'.used, m + cnt) && Synced(fs') && MapReady(fs', live)
  {
    PrefixFit(fs.used, m, cnt);
    var marked := fs.(used := B.WithRange(fs.used, m, cnt, true));
    MapChange(fs.disk, fs.used, marked.used, live, live);
    MapWrittenSyncs(marked, live);
  }

  const SMALL: nat := 32

  lemma SmallMap(disk: seq<Sector>) returns (fs1: Fs)
    requires |disk| == SMALL
    ensures CreateInode(Fs(disk, seq(|disk|, k => k < 2), [], map[], 1), FREE_MAP, MapSize(|disk|), YES) == (fs1, true)
    ensures |fs1.disk| == SMALL && Prefix(fs1.used, 3) && MapReady(Mounted(fs1.disk, fs1.used), {FREE_MAP})
    ensures fs1.used[ROOT_DIR] && Unowned(fs1.disk, {FREE_MAP}, ROOT_DIR, 1)
  {
    fs1 := MapInodeMade(disk);
    var used := seq(|disk|, k => k < 2);
    assert Prefix(used, 2) && BytesToSectors(4) == 1;
    PrefixFit(used, 2, 1);
  }

  /** A device of this size can be formatted, and then four sectors are marked. */
  lemma SmallFormats(disk: seq<Sector>)
    requires |disk| == SMALL
    ensures Format(disk).Some?
    ensures var fs := Format(disk).value; Inv(fs) && Synced(fs) && |fs.disk| == SMALL && Prefix(fs.used, 4)
  {
    var fs1 := SmallMap(disk);
    var mounted := Mounted(fs1.disk, fs1.used);
    MapWrittenSyncs(mounted, {FREE_MAP});
    MapWrittenKeeps(mounted, {FREE_MAP}, true);
    var fs2 := MapWritten(mounted, true).0;
    SmallRoot(fs2);
    assert Format(disk).Some?;
    FormatInv(disk);
    var fs2' := FormattedMap(disk);
    assert fs2' == fs2;
    var fs3 := FormattedRoot(fs2);
    ShownReads(fs3, fs3.used);
  }

  lemma SmallRoot(fs2: Fs)
    requires |fs2.disk| == SMALL && MapReady(fs2, {FREE_MAP}) && Synced(fs2) && Prefix(fs2.used, 3)
    requires fs2.used[ROOT_DIR] && Unowned(fs2.disk, {FREE_MAP}, ROOT_DIR, 1)
    ensures var (fs3, ok) := CreateInode(fs2, ROOT_DIR, ROOT_ENTRIES * ENTRY, YES);
      ok && |fs3.disk| == SMALL && Prefix(fs3.used, 4) && |Bytes(fs3.disk, fs3.disk[FREE_MAP])| == MapSize(SMALL)
  {
    var size := ROOT_ENTRIES * ENTRY;
    assert BytesToSectors(size) == 1;
    AllocateAt(fs2, {FREE_MAP}, 3, 1);
    CreateInodeKeeps(fs2, {FREE_MAP}, ROOT_DIR, size, YES);
  }

  // ----- filesys_create() on such a device

  /** inode_create() for one sector of data */
  lemma InodeAt(fs1: Fs, live: set<nat>, s: nat, m: nat, mem: nat -> bool)
    requires MapReady(fs1, live) && Prefix(fs1.used, m) && m < |fs1.used| && mem(0) && mem(1)
    requires s < |fs1.disk| && fs1.used[s] && Unowned(fs1.disk, live, s, 1)
    ensures var (fs2, made) := CreateInode(fs1, s, SECTOR, mem);
      && made && Prefix(fs2.used, m + 1) && s < |fs2.disk| && Start(fs2.disk[s]) == m && Length(fs2.disk[s]) == SECTOR
  {
    assert BytesToSectors(SECTOR) == 1;
    AllocateAt(fs1, live, m, 1);
    AllocateKeeps(fs1, live, 1, true);
    CreateInodeMakes(fs1, Allocate(fs1, 1, true).0, live, s, m, SECTOR);
    HeaderReads(m, SECTOR);
  }

  /** The inode goes to the first free sector and the one sector of data to the next. */
  lemma MakesFile(fs: Fs, m: nat, mem: nat -> bool) returns (fs1: Fs, fs2: Fs)
    requires Plenty(mem) && Inv(fs) && Synced(fs) && Prefix(fs.used, m) && m + 2 <= |fs.used|
    ensures Allocate(fs, 1, mem(1)) == (fs1, Some(m)) && CreateInode(fs1, m, SECTOR, Shift(mem, 2)) == (fs2, true)
    ensures SectorTaken(fs, fs1, m) && InodeTried(fs, fs2, m, SECTOR, true) && Prefix(fs2.used, m + 2)
    ensures MadeAt(fs, SECTOR, mem) == Some(m) && Start(fs2.disk[m]) == m + 1 && Length(fs2.disk[m]) == SECTOR
  {
    MapIsReady(fs);
    AllocateAt(fs, LiveSet(fs), m, 1);
    fs1 := TakeSector(fs, mem(1), m);
    InodeAt(fs1, LiveSet(fs), m, m + 1, Shift(mem, 2));
    var f, made := TryInode(fs, fs1, m, SECTOR, Shift(mem, 2));
    fs2 := f;
    MadeIs(fs, fs1, m, SECTOR, mem, true);
  }

  /** If dir_add() succeeds two more sectors are marked. */
  lemma CreateGoesWell(fs: Fs, m: nat, name: seq<Byte>, mem: nat -> bool, d: Outcome)
    requires Plenty(mem) && Inv(fs) && Synced(fs) && Prefix(fs.used, m) && m + 2 <= |fs.used| && IsName(name) && !AddFails(RootDir(fs), name, d)
    ensures var fs' := Create(fs, name, SECTOR, mem, d).0;
      && Inv(fs') && Synced(fs') && Prefix(fs'.used, m + 2) && |fs'.used| == |fs.used|
      && RootDir(fs') == (var (k, r) := Addition(RootDir(fs), name, m, d).value; Rewritten(RootDir(fs), k, r))
  {
    var fs1, fs2 := MakesFile(fs, m, mem);
    CreateKeeps(fs, name, SECTOR, mem, d);
    CreateSyncs(fs, name, SECTOR, mem, d);
    assert !CreateSpoils(fs, name, SECTOR, mem, d);
    CreateDir(fs, name, SECTOR, mem, d);
    CreateIs(fs, fs1, m, fs2, true, name, SECTOR, mem, d);
  }

  /** If it fails the sector of data is lost. */
  lemma CreateGoesWrong(fs: Fs, m: nat, name: seq<Byte>, mem: nat -> bool, d: Outcome)
    requires Plenty(mem) && Inv(fs) && Synced(fs) && Prefix(fs.used, m) && m + 2 <= |fs.used| && AddFails(RootDir(fs), name, d)
    ensures CreateLoses(fs, name, SECTOR, mem, d, m + 1)
  {
    var fs1, fs2 := MakesFile(fs, m, mem);
    CreateLosesIs(fs, fs1, m, fs2, true, name, SECTOR, mem, d, m + 1);
    assert BytesToSectors(SECTOR) == 1 && InExtent(fs2.disk[m], m + 1);
  }

  // ----- the runs

  const A: seq<Byte> := [97]
  const BEE: seq<Byte> := [98]

  /** Memory for every record */
  function Enough(junk: Record): Outcome { Outcome(ROOT_ENTRIES, ROOT_ENTRIES, true, junk) }

  ghost predicate HasOnlyA(dir: seq<Byte>) {
    && Count(dir) == ROOT_ENTRIES && Matches(dir, 0, A) && SectorOf(RecordAt(dir, 0)) == 4
    && forall i :: 0 < i < Count(dir) ==> !InUse(RecordAt(dir, i))
  }

  /** In an empty directory the first record is used. */
  lemma AddsFirst(dir: seq<Byte>, junk: Record)
    requires Count(dir) == ROOT_ENTRIES && forall i :: 0 <= i < ROOT_ENTRIES ==> !InUse(RecordAt(dir, i))
    ensures !AddFails(dir, A, Enough(junk))
    ensures var (k, r) := Addition(dir, A, 4, Enough(junk)).value; HasOnlyA(Rewritten(dir, k, r))
  {
    NewRecordReads(LastRead(dir, ROOT_ENTRIES, junk), A, 4);
    var (k, r) := Addition(dir, A, 4, Enough(junk)).value;
    var d := Rewritten(dir, k, r);
    forall i | 0 <= i < ROOT_ENTRIES ensures RecordAt(d, i) == if i == 0 then r else RecordAt(dir, i) {
      RewrittenAt(dir, k, r, i);
    }
  }

  /** With that one entry, the next call may find the name, miss it, or miss the record. */
  lemma AddsSecond(dir: seq<Byte>, junk: Record)
    requires HasOnlyA(dir)
    ensures AddFails(dir, A, Enough(junk)) && DistinctNames(dir)
    ensures Repeats(dir, A, Enough(junk).(lookup := 0))
    ensures !AddFails(dir, BEE, Enough(junk).(search := 0)) && Slot(dir, 0) == 0 && Lists(dir, 0, 4)
  {
    assert EntryOf(dir, A) == Some(0) && Slot(dir, ROOT_ENTRIES) == 1;
    forall i: nat, j: nat ensures NamePair(dir, i, j) {}
  }

  ghost predicate AfterFirst(fs: Fs) {
    Inv(fs) && Synced(fs) && Prefix(fs.used, 6) && |fs.used| == SMALL && HasOnlyA(RootDir(fs))
  }

  ghost predicate BeforeFirst(fs: Fs) {
    && Inv(fs) && Synced(fs) && |fs.disk| == SMALL && Prefix(fs.used, 4)
    && Count(RootDir(fs)) == ROOT_ENTRIES && forall i :: 0 <= i < ROOT_ENTRIES ==> !InUse(RecordAt(RootDir(fs), i))
  }

  lemma FirstOf(fs: Fs, junk: Record, mem: nat -> bool)
    requires Plenty(mem) && BeforeFirst(fs)
    ensures AfterFirst(Create(fs, A, SECTOR, mem, Enough(junk)).0)
  {
    AddsFirst(RootDir(fs), junk);
    CreateGoesWell(fs, 4, A, mem, Enough(junk));
  }

  function FirstCall(junk: Record, mem: nat -> bool): Action { DoCreate(A, SECTOR, mem, Enough(junk)) }

  lemma FirstStep(fs: Fs, junk: Record, mem: nat -> bool, a: Action)
    requires Plenty(mem) && BeforeFirst(fs) && a == FirstCall(junk, mem)
    ensures Enabled(fs, a) && AfterFirst(Step(fs, a))
  {
    FirstOf(fs, junk, mem);
  }

  lemma SmallStart(disk: seq<Sector>) returns (fs: Fs)
    requires |disk| == SMALL
    ensures Legal(Formatted(disk)) && Last(Formatted(disk)) == fs && BeforeFirst(fs)
  {
    SmallFormats(disk);
    FormattedDir(disk);
    fs := Format(disk).value;
  }

  lemma OneMore(e: Execution, a: Action)
    requires Legal(e) && Enabled(Last(e), a)
    ensures Legal(Then(e, a)) && Last(Then(e, a)) == Step(Last(e), a)
  {
  }

  lemma SecondState(e: Execution, junk: Record, mem: nat -> bool, a: Action)
    requires Legal(e) && Plenty(mem) && BeforeFirst(Last(e)) && a == FirstCall(junk, mem)
    ensures Legal(Then(e, a)) && AfterFirst(Last(Then(e, a)))
  {
    FirstStep(Last(e), junk, mem, a);
    OneMore(e, a);
  }

  /** After the first call there is one entry, for the inode in sector 4. */
  lemma FirstCreate(disk: seq<Sector>, junk: Record, mem: nat -> bool) returns (e: Execution)
    requires |disk| == SMALL && Plenty(mem)
    ensures e == Then(Formatted(disk), FirstCall(junk, mem)) && Legal(e) && AfterFirst(Last(e))
  {
    var fs := SmallStart(disk);
    SecondState(Formatted(disk), junk, mem, FirstCall(junk, mem));
    e := Then(Formatted(disk), FirstCall(junk, mem));
  }

  /** A call that makes a file of one sector and cannot enter its name */
  ghost predicate Losing(fs: Fs, mem: nat -> bool, a: Action) {
    && Plenty(mem) && AfterFirst(fs) && a.DoCreate? && a.size == SECTOR && a.mem == mem && IsName(a.name)
    && AddFails(RootDir(fs), a.name, a.d)
  }

  lemma LosingStep(fs: Fs, mem: nat -> bool, a: Action)
    requires Losing(fs, mem, a)
    ensures Enabled(fs, a) && Loses(fs, a, 7)
  {
    CreateGoesWrong(fs, 6, a.name, mem, a.d);
  }

  /** The call that follows loses sector 7. */
  lemma LosingRun(e: Execution, mem: nat -> bool, a: Action)
    requires Legal(e) && Losing(Last(e), mem, a)
    ensures Legal(Then(e, a)) && Lost(Then(e, a), 7)
  {
    LosingStep(Last(e), mem, a);
    OneMore(e, a);
  }

  /** The call makes a file of one sector. */
  ghost predicate Makes(a: Action, name: seq<Byte>, mem: nat -> bool, d: Outcome) {
    Plenty(mem) && a.DoCreate? && a.name == name && a.size == SECTOR && a.mem == mem && a.d == d
  }

  lemma SameName(fs: Fs, junk: Record, mem: nat -> bool, a: Action)
    requires AfterFirst(fs) && Makes(a, A, mem, Enough(junk))
    ensures Losing(fs, mem, a)
  {
    AddsSecond(RootDir(fs), junk);
  }

  /** Making a file under a name that there is loses a sector. */
  lemma SecondCreateLoses(e: Execution, junk: Record, mem: nat -> bool, a: Action)
    requires Legal(e) && AfterFirst(Last(e)) && Makes(a, A, mem, Enough(junk))
    ensures Legal(Then(e, a)) && Lost(Then(e, a), 7)
  {
    SameName(Last(e), junk, mem, a);
    LosingRun(e, mem, a);
  }

  /** And if the write of the map then finds no memory, the next mount does not find the same map. */
  lemma UnwrittenRelease(e: Execution, junk: Record, mem: nat -> bool, a: Action)
    requires Legal(e) && AfterFirst(Last(e)) && Makes(a, A, mem, Enough(junk)) && !mem(4)
    ensures Legal(Then(e, a)) && !Synced(Last(Then(e, a))) && Last(Remounted(Then(e, a))).used != Last(Then(e, a)).used
  {
    SameName(Last(e), junk, mem, a);
    Unwritten(Last(e), mem, a);
    OneMore(e, a);
    MapSurvivesRemount(Then(e, a));
  }

  lemma Unwritten(fs: Fs, mem: nat -> bool, a: Action)
    requires Losing(fs, mem, a) && !mem(4)
    ensures Enabled(fs, a) && !Synced(Step(fs, a))
  {
    var fs1, fs2 := MakesFile(fs, 6, mem);
    ReachIs(SMALL, false);
    assert Beyond(SMALL, mem(4), 6);
    CreateSyncs(fs, a.name, SECTOR, mem, a.d);
  }

  lemma NoRecord(fs: Fs, junk: Record, mem: nat -> bool, a: Action)
    requires AfterFirst(fs) && Makes(a, BEE, mem, Enough(junk).(write := false))
    ensures Losing(fs, mem, a)
  {
  }

  /** So does making one under a new name when there is no memory to write the record. */
  lemma FailedWriteLoses(e: Execution, junk: Record, mem: nat -> bool, a: Action)
    requires Legal(e) && AfterFirst(Last(e)) && Makes(a, BEE, mem, Enough(junk).(write := false))
    ensures Legal(Then(e, a)) && Lost(Then(e, a), 7)
  {
    NoRecord(Last(e), junk, mem, a);
    LosingRun(e, mem, a);
  }

  lemma Entering(fs: Fs, mem: nat -> bool, a: Action)
    requires Plenty(mem) && AfterFirst(fs) && a.DoCreate? && a.size == SECTOR && a.mem == mem && !AddFails(RootDir(fs), a.name, a.d)
    ensures Enters(fs, a)
  {
    var fs1, fs2 := MakesFile(fs, 6, mem);
  }

  lemma Doubled(e: Execution, a: Action)
    requires Legal(e) && Enabled(Last(e), a) && DistinctNames(RootDir(Last(e))) && Doubles(Last(e), a)
    ensures Legal(Then(e, a)) && !DistinctNames(RootDir(Last(Then(e, a))))
  {
    EveryRunKeepsInv(e);
    StepNames(Last(e), a);
    OneMore(e, a);
  }

  lemma Doubling(fs: Fs, junk: Record, mem: nat -> bool, a: Action)
    requires AfterFirst(fs) && Makes(a, A, mem, Enough(junk).(lookup := 0))
    ensures Enabled(fs, a) && DistinctNames(RootDir(fs)) && Doubles(fs, a)
  {
    AddsSecond(RootDir(fs), junk);
    Entering(fs, mem, a);
  }

  /** When lookup() cannot read the first record a second file is made under its name. */
  lemma ShortLookupDoubles(e: Execution, junk: Record, mem: nat -> bool, a: Action)
    requires Legal(e) && AfterFirst(Last(e)) && Makes(a, A, mem, Enough(junk).(lookup := 0))
    ensures Legal(Then(e, a)) && !DistinctNames(RootDir(Last(Then(e, a))))
  {
    Doubling(Last(e), junk, mem, a);
    Doubled(e, a);
  }

  lemma Overwritten(e: Execution, a: Action, t: nat)
    requires Legal(e) && Enabled(Last(e), a) && Listed(RootDir(Last(e)), t) && Overwrites(Last(e), a, t)
    ensures Legal(Then(e, a)) && !Listed(RootDir(Last(Then(e, a))), t)
  {
    EveryRunKeepsInv(e);
    EntriesLast(Last(e), a, t);
    OneMore(e, a);
  }

  lemma Overwriting(fs: Fs, junk: Record, mem: nat -> bool, a: Action)
    requires AfterFirst(fs) && Makes(a, BEE, mem, Enough(junk).(search := 0))
    ensures Enabled(fs, a) && Listed(RootDir(fs), 4) && Overwrites(fs, a, 4)
  {
    AddsSecond(RootDir(fs), junk);
    Entering(fs, mem, a);
  }

  /** When the search for a free record cannot read the first one, the entry of that file is overwritten. */
  lemma ShortSearchOverwrites(e: Execution, junk: Record, mem: nat -> bool, a: Action)
    requires Legal(e) && AfterFirst(Last(e)) && Makes(a, BEE, mem, Enough(junk).(search := 0))
    ensures Legal(Then(e, a)) && Listed(RootDir(Last(e)), 4) && !Listed(RootDir(Last(Then(e, a))), 4)
  {
    Overwriting(Last(e), junk, mem, a);
    Overwritten(e, a, 4);
  }
}
