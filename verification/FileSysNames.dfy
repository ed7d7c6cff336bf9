/** Names: what every call does to the directory, whatever memory there is, and when names stay distinct. */
module FileSysNames {
  import opened Common
  import opened InodeIO
  import opened Directory
  import opened FileSys
  import opened FileSysDisk
  import opened FileSysTables
  import opened FileSysSafety
  import opened FileSysOps
  import opened FileSysMount
  import opened FileSysCalls
  import opened FileSysMap
  import opened FileSysTheorems

  // ----- the directory after a call

  /** The sector of the inode that filesys_create() has made when it calls dir_add() */
  function MadeAt(fs: Fs, size: nat, mem: nat -> bool): Option<nat> {
    if !mem(0) then None else
    match Allocate(fs, 1, mem(1))
    case (_, None) => None
    case (fs1, Some(s)) => if CreateInode(fs1, s, size, Shift(mem, 2)).1 then Some(s) else None
  }

  /** The call enters a name in the directory. */
  predicate Enters(fs: Fs, a: Action) {
    a.DoCreate? && MadeAt(fs, a.size, a.mem).Some? && !AddFails(RootDir(fs), a.name, a.d)
  }

  /** The call erases an entry of the directory. */
  predicate Unlinks(fs: Fs, a: Action) { a.DoRemove? && Remove(fs, a.name, a.mem, a.d).1 }

  function DirAfter(fs: Fs, a: Action): seq<Byte> {
    var dir := RootDir(fs);
    if Enters(fs, a) then
      var (k, r) := Addition(dir, a.name, MadeAt(fs, a.size, a.mem).value, a.d).value;
      Rewritten(dir, k, r)
    else if Unlinks(fs, a) && Sought(dir, a.name, a.d.lookup).Some? then
      var k := Sought(dir, a.name, a.d.lookup).value;
      Rewritten(dir, k, FreedRecord(RecordAt(dir, k)))
    else dir
  }

  lemma FinishDir(fs: Fs, fs2: Fs, s: nat, size: nat, made: bool, name: seq<Byte>, mem: bool, d: Outcome)
    requires Inv(fs) && IsName(name) && InodeTried(fs, fs2, s, size, made)
    ensures var dir' := RootDir(Finish(fs2, s, made, name, mem, d).0);
      dir' == if !made || AddFails(RootDir(fs), name, d) then RootDir(fs)
              else var (k, r) := Addition(RootDir(fs), name, s, d).value; Rewritten(RootDir(fs), k, r)
  {
    if made && !AddFails(RootDir(fs2), name, d) {
      EnterName(fs, fs2, s, size, name, d);
    } else {
      var live := LiveSet(fs);
      ReleaseKeeps(fs2, if made then live + {s} else live, live, s, 1, mem);
      var fs' := Release(fs2, s, 1, mem);
      KeptTwice(fs.disk, fs2.disk, fs'.disk, live, FREE_MAP);
      SameRoot(fs, fs');
    }
  }

  lemma MadeIs(fs: Fs, fs1: Fs, s: nat, size: nat, mem: nat -> bool, made: bool)
    requires mem(0) && Allocate(fs, 1, mem(1)) == (fs1, Some(s)) && CreateInode(fs1, s, size, Shift(mem, 2)).1 == made
    ensures MadeAt(fs, size, mem) == if made then Some(s) else None
  {
  }

  lemma CreateDir(fs: Fs, name: seq<Byte>, size: nat, mem: nat -> bool, d: Outcome)
    requires Inv(fs) && IsName(name) && size < MAX_LENGTH
    ensures RootDir(Create(fs, name, size, mem, d).0) == DirAfter(fs, DoCreate(name, size, mem, d))
    ensures Create(fs, name, size, mem, d).1 == Enters(fs, DoCreate(name, size, mem, d))
    ensures var s := MadeAt(fs, size, mem); s.Some? ==> 2 <= s.value < |fs.disk| && !Live(fs, s.value)
  {
    if mem(0) {
      match Allocate(fs, 1, mem(1)).1
      case None => NoSector(fs, mem(1));
      case Some(s) =>
        var fs1 := TakeSector(fs, mem(1), s);
        var fs2, made := TryInode(fs, fs1, s, size, Shift(mem, 2));
        CreateIs(fs, fs1, s, fs2, made, name, size, mem, d);
        MadeIs(fs, fs1, s, size, mem, made);
        FinishDir(fs, fs2, s, size, made, name, mem(4), d);
    }
  }

  lemma NewFileDir(fs: Fs, id: nat, mem: nat -> bool)
    requires NextInv(fs) && FREE_MAP in fs.files && CoreInv(fs.(files := fs.files[fs.next := File(id, 0, false)]))
    ensures RootDir(NewFile(fs, id, mem).0) == RootDir(fs)
  {
    NoSuchId(fs);
    var held := fs.(files := fs.files[fs.next := File(id, 0, false)]);
    assert RootDir(held) == RootDir(fs);
    if !mem(0) {
      ReferenceClosed(fs, id, fs.next, Shift(mem, 1));
      CloseKeeps(held, fs.next, Shift(mem, 1));
    }
  }

  lemma OpenDir(fs: Fs, name: seq<Byte>, mem: nat -> bool, d: Outcome)
    requires Inv(fs)
    ensures RootDir(Open(fs, name, mem, d).0) == RootDir(fs)
  {
    var found := Sought(RootDir(fs), name, d.lookup);
    if mem(0) && found.Some? {
      FoundIsListed(fs, found.value);
      var s := SectorOf(RecordAt(RootDir(fs), found.value));
      if OpenInode(fs, s, mem(1)).1.Some? {
        var fs1, id, h := Reference(fs, s, mem(1));
        NewFileDir(fs1, id, Shift(mem, 2));
      }
    }
  }

  lemma RemoveDir(fs: Fs, name: seq<Byte>, mem: nat -> bool, d: Outcome)
    requires Inv(fs)
    ensures RootDir(Remove(fs, name, mem, d).0) == DirAfter(fs, DoRemove(name, mem, d))
    ensures Remove(fs, name, mem, d).1 ==> Sought(RootDir(fs), name, d.lookup).Some?
  {
    var found := Sought(RootDir(fs), name, d.lookup);
    if mem(0) && found.Some? {
      if Remove(fs, name, mem, d).1 {
        RemoveErases(fs, name, mem, d);
      } else {
        FoundIsListed(fs, found.value);
        var s := SectorOf(RecordAt(RootDir(fs), found.value));
        if OpenInode(fs, s, mem(1)).1.Some? {
          var fs1, id, h := Reference(fs, s, mem(1));
          var held := fs1.(files := fs1.files[h := File(id, 0, false)]);
          ReferenceClosed(fs1, id, h, Shift(mem, 2));
          CloseKeeps(held, h, Shift(mem, 2));
        }
      }
    }
  }

  lemma WriteDir(fs: Fs, h: nat, data: seq<Byte>, mem: bool)
    requires Inv(fs) && h in fs.files && h != FREE_MAP
    ensures RootDir(Write(fs, h, data, mem)) == RootDir(fs)
  {
    WriteIs(fs, h, data, mem);
    var f, n, fs' := fs.files[h], Get(fs.open, fs.files[h].inode), Write(fs, h, data, mem);
    StoreKeeps(fs.disk, fs.used, LiveSet(fs), n.sector, f.pos, data[..Written(n, |data|, f.pos, mem)]);
    assert Live(fs, ROOT_DIR);
    assert KeepsFile(fs.disk, fs'.disk, ROOT_DIR);
    KeptBytes(fs.disk, fs'.disk, ROOT_DIR);
  }

  lemma ReopenDir(fs: Fs, h: nat, mem: nat -> bool)
    requires Inv(fs) && h in fs.files && h != FREE_MAP
    ensures RootDir(Reopen(fs, h, mem).0) == RootDir(fs)
  {
    var fs1, id := Reopened(fs, fs.files[h].inode), fs.files[h].inode;
    ReopenHolds(fs, h);
    ReopenIs(fs, h, mem);
    NewFileDir(fs1, id, mem);
  }

  /** The directory after any call */
  lemma StepDir(fs: Fs, a: Action)
    requires Inv(fs) && Enabled(fs, a)
    ensures RootDir(Step(fs, a)) == DirAfter(fs, a)
  {
    match a
    case DoCreate(name, size, mem, d) => CreateDir(fs, name, size, mem, d);
    case DoOpen(name, mem, d) => OpenDir(fs, name, mem, d);
    case DoRemove(name, mem, d) => RemoveDir(fs, name, mem, d);
    case DoReopen(h, mem) => ReopenDir(fs, h, mem);
    case DoClose(h, mem) =>
      DenyKeeps(fs, h, false);
      CloseKeeps(Deny(fs, h, false), h, mem);
    case DoWrite(h, data, bounce) => WriteDir(fs, h, data, bounce);
    case _ =>
  }

  // ----- names

  /** The call makes a second entry under a name. */
  predicate Doubles(fs: Fs, a: Action) { Enters(fs, a) && Repeats(RootDir(fs), a.name, a.d) }

  /** Names that are distinct stay so exactly if filesys_create() does not enter one that another entry has, which lookup()
      has not seen for want of memory. */
  lemma StepNames(fs: Fs, a: Action)
    requires Inv(fs) && Enabled(fs, a) && DistinctNames(RootDir(fs))
    ensures DistinctNames(RootDir(Step(fs, a))) <==> !Doubles(fs, a)
  {
    StepDir(fs, a);
    if Enters(fs, a) {
      CreateDir(fs, a.name, a.size, a.mem, a.d);
      AddedNames(RootDir(fs), a.name, MadeAt(fs, a.size, a.mem).value, a.d);
    } else if Unlinks(fs, a) && Sought(RootDir(fs), a.name, a.d.lookup).Some? {
      ErasedNames(RootDir(fs), Sought(RootDir(fs), a.name, a.d.lookup).value);
    }
  }

  ghost predicate AlwaysDistinct(e: Execution)
    requires Legal(e)
  {
    DistinctNames(RootDir(Last(e))) && (!e.Formatted? ==> AlwaysDistinct(e.before))
  }

  predicate NeverDoubles(e: Execution)
    requires Legal(e)
  {
    match e
    case Formatted(_) => true
    case Then(before, act) => NeverDoubles(before) && !Doubles(Last(before), act)
    case Remounted(before) => NeverDoubles(before)
  }

  /** Over every run, names are distinct all the time if and only if no call makes a second entry under a name. */
  lemma {:induction false} NamesAreDistinct(e: Execution)
    requires Legal(e)
    ensures AlwaysDistinct(e) <==> NeverDoubles(e)
  {
    match e
    case Formatted(disk) => FormattedDir(disk);
    case Then(before, act) =>
      NamesAreDistinct(before);
      EveryRunKeepsInv(before);
      if AlwaysDistinct(before) { StepNames(Last(before), act); }
    case Remounted(before) =>
      NamesAreDistinct(before);
      EveryRunKeepsInv(before);
      RemountInv(Last(before), DiskMap(Last(before)));
  }

  /** At the beginning the directory is empty. */
  lemma FormattedDir(disk: seq<Sector>)
    requires 2 <= |disk| <= WORD && Format(disk).Some?
    ensures var dir := RootDir(Format(disk).value); dir == seq(ROOT_ENTRIES * ENTRY, _ => 0) && DistinctNames(dir)
    ensures var dir := RootDir(Format(disk).value);
      Count(dir) == ROOT_ENTRIES && forall i :: 0 <= i < ROOT_ENTRIES ==> !InUse(RecordAt(dir, i))
  {
    var fs2 := FormattedMap(disk);
    var fs3 := FormattedRoot(fs2);
    ShownReads(fs3, fs3.used);
    EmptyRecords(RootDir(Format(disk).value));
  }

  lemma EmptyRecords(dir: seq<Byte>)
    requires dir == seq(ROOT_ENTRIES * ENTRY, _ => 0)
    ensures DistinctNames(dir) && Count(dir) == ROOT_ENTRIES && forall i :: 0 <= i < ROOT_ENTRIES ==> !InUse(RecordAt(dir, i))
  {
    forall i: nat | i < Count(dir) ensures !InUse(RecordAt(dir, i)) { assert RecordAt(dir, i)[19] == dir[ENTRY * i + 19]; }
    forall i: nat, j: nat ensures NamePair(dir, i, j) {}
  }

  // ----- entries

  /** The call writes over the entry of the inode in sector `t`. */
  ghost predicate Overwrites(fs: Fs, a: Action, t: nat) {
    Enters(fs, a) && Lists(RootDir(fs), Slot(RootDir(fs), a.d.search), t)
  }

  /** The search for a free record ends at one in use exactly if it finds no memory before it has found a free one. */
  lemma SlotInUse(dir: seq<Byte>, cut: nat)
    ensures Slot(dir, cut) < Count(dir) && InUse(RecordAt(dir, Slot(dir, cut))) <==>
      cut < Count(dir) && forall i :: 0 <= i <= cut ==> InUse(RecordAt(dir, i))
  {
  }

  /** The call removes the entry of the inode in sector `t`. */
  ghost predicate UnlinksIt(fs: Fs, a: Action, t: nat) {
    Unlinks(fs, a) && Sought(RootDir(fs), a.name, a.d.lookup).Some? && Lists(RootDir(fs), Sought(RootDir(fs), a.name, a.d.lookup).value, t)
  }

  /** An entry goes away exactly if the call removes it or writes over it. */
  lemma EntriesLast(fs: Fs, a: Action, t: nat)
    requires Inv(fs) && Enabled(fs, a) && Listed(RootDir(fs), t)
    ensures !Listed(RootDir(Step(fs, a)), t) <==> UnlinksIt(fs, a, t) || Overwrites(fs, a, t)
  {
    StepDir(fs, a);
    var dir := RootDir(fs);
    if Enters(fs, a) {
      CreateDir(fs, a.name, a.size, a.mem, a.d);
      Added(dir, |fs.disk|, a.name, MadeAt(fs, a.size, a.mem).value, a.d);
      assert Listed(RootDir(Step(fs, a)), t) == !Lists(dir, Slot(dir, a.d.search), t);
    } else if Unlinks(fs, a) && Sought(dir, a.name, a.d.lookup).Some? {
      var k := Sought(dir, a.name, a.d.lookup).value;
      Erased(dir, |fs.disk|, k);
      assert Listed(RootDir(Step(fs, a)), t) == (t != SectorOf(RecordAt(dir, k)));
    }
  }

  /** With memory for every record neither happens. */
  lemma EnoughMemory(fs: Fs, a: Action, t: nat)
    requires a.DoCreate? ==> Count(RootDir(fs)) <= a.d.lookup && Count(RootDir(fs)) <= a.d.search
    ensures !Doubles(fs, a) && !Overwrites(fs, a, t)
  {
  }
}
