/** Sectors that are marked as used although no file has them: which calls lose them, and that no other does. */
module FileSysLeaks {
  import opened Common
  import opened InodeIO
  import opened Directory
  import opened FileSys
  import opened FileSysDisk
  import opened FileSysTables
  import opened FileSysSafety
  import opened FileSysOps
  import opened FileSysMount
  import opened FileSysCalls
  import opened FileSysMap
  import opened FileSysTheorems
  import B = Bitmap

  /** Some live file has sector `k`. */
  ghost predicate Claimed(disk: seq<Sector>, live: set<nat>, k: nat) {
    exists t: nat {:trigger Owns(disk[t], t, k)} :: t in live && t < |disk| && Owns(disk[t], t, k)
  }

  ghost predicate LeakedIn(disk: seq<Sector>, used: seq<bool>, live: set<nat>, k: nat) {
    k < |used| && used[k] && !Claimed(disk, live, k)
  }

  ghost predicate Leaked(fs: Fs, k: nat) { LeakedIn(fs.disk, fs.used, LiveSet(fs), k) }

  ghost predicate SameLeaks(fs: Fs, fs': Fs) {
    forall k: nat {:trigger Leaked(fs', k)} :: Leaked(fs', k) == Leaked(fs, k)
  }

  // ----- parts

  lemma KeptClaims(disk: seq<Sector>, disk': seq<Sector>, live: set<nat>, but: nat, k: nat)
    requires Kept(disk, disk', live, but)
    ensures Claimed(disk', live, k) == Claimed(disk, live, k)
  {
    if Claimed(disk, live, k) {
      var t: nat :| t in live && t < |disk| && Owns(disk[t], t, k);
      assert Owns(disk'[t], t, k);
    }
    if Claimed(disk', live, k) {
      var t: nat :| t in live && t < |disk'| && Owns(disk'[t], t, k);
      assert Owns(disk[t], t, k);
    }
  }

  lemma KeptLeaks(fs: Fs, fs': Fs, but: nat)
    requires Kept(fs.disk, fs'.disk, LiveSet(fs), but) && LiveSet(fs') == LiveSet(fs) && fs'.used == fs.used
    ensures SameLeaks(fs, fs')
  {
    forall k: nat ensures Leaked(fs', k) == Leaked(fs, k) { KeptClaims(fs.disk, fs'.disk, LiveSet(fs), but, k); }
  }

  // ----- file_close()

  /** The inode of `h` is live no more once `h` is closed: nobody else has it open and it has no entry. */
  ghost predicate EndsWith(fs: Fs, h: nat)
    requires h in fs.files
  {
    var n := Get(fs.open, fs.files[h].inode);
    n.openCnt == 1 && !Listed(RootDir(fs), n.sector)
  }

  lemma DroppedLive(fs: Fs, h: nat)
    requires CoreInv(fs) && h in fs.files && h != FREE_MAP && !fs.files[h].deny
    ensures LiveSet(Dropped(fs, h)) == if EndsWith(fs, h) then LiveSet(fs) - {Get(fs.open, fs.files[h].inode).sector} else LiveSet(fs)
  {
    var n, fs' := Get(fs.open, fs.files[h].inode), Dropped(fs, h);
    NodeOfFile(fs, h);
    DroppedCore(fs, h);
    assert RootDir(fs') == RootDir(fs);
    if n.openCnt != 1 {
      SameLive(fs, fs'.open);
      assert LiveSet(fs') == LiveSet(fs);
    } else {
      if EndsWith(fs, h) { ClosedForGood(fs, h); }
      forall s | s in LiveSet(fs) && (s != n.sector || !EndsWith(fs, h)) ensures s in LiveSet(fs') {
        if s != n.sector && BySector(fs.open, s).Some? { OthersStayOpen(fs.open, n.id, s); }
        assert Live(fs', s);
      }
      assert n.sector in LiveSet(fs);
    }
  }

  /** An inode without an entry is not live any more once it is not open. */
  lemma ClosedForGood(fs: Fs, h: nat)
    requires CoreInv(fs) && h in fs.files && h != FREE_MAP && !fs.files[h].deny && EndsWith(fs, h)
    ensures Get(fs.open, fs.files[h].inode).sector !in LiveSet(Dropped(fs, h))
  {
    NodeOfFile(fs, h);
    var n, open' := Get(fs.open, fs.files[h].inode), Dropped(fs, h).open;
    var i := ById(fs.open, n.id).value;
    assert RootDir(Dropped(fs, h)) == RootDir(fs) && NodeOk(n, fs.disk, RootDir(fs));
    forall j | 0 <= j < |open'| ensures open'[j].sector != n.sector {
      var k := if j < i then j else j + 1;
      assert open'[j] == fs.open[k] && NodePair(fs.open, i, k) && NodePair(fs.open, k, i);
    }
  }

  lemma OthersStayOpen(open: seq<Inode>, id: nat, s: nat)
    requires BySector(open, s).Some? && Get(open, id).sector != s
    ensures BySector(Without(open, id), s).Some?
  {
    var j := BySector(open, s).value;
    match ById(open, id)
    case None =>
    case Some(i) =>
      var open' := Without(open, id);
      assert open'[if j < i then j else j - 1] == open[j];
  }

  /** Releasing the two parts of a file */
  lemma ReleasedLeaks(fs: Fs, fs': Fs, live: set<nat>, live': set<nat>, b: Sector, s: nat, k: nat)
    requires s in live && live' == live - {s} && s < |fs.disk| && fs.disk[s] == b
    requires DiskInv(fs.disk, fs.used, live) && Kept(fs.disk, fs'.disk, live', FREE_MAP)
    requires fs'.used == B.WithRange(B.WithRange(fs.used, s, 1, false), Start(b), BytesToSectors(Length(b)), false)
    ensures LeakedIn(fs'.disk, fs'.used, live', k) == LeakedIn(fs.disk, fs.used, live, k)
  {
    KeptClaims(fs.disk, fs'.disk, live', FREE_MAP, k);
    if k < |fs.used| {
      assert fs'.used[k] == (fs.used[k] && !Owns(b, s, k));
      if Owns(b, s, k) {
        assert Claimed(fs.disk, live, k);
      } else {
        SameClaims(fs.disk, live, s, k);
      }
    }
  }

  lemma SameClaims(disk: seq<Sector>, live: set<nat>, s: nat, k: nat)
    requires s < |disk| && !Owns(disk[s], s, k)
    ensures Claimed(disk, live - {s}, k) == Claimed(disk, live, k)
  {
    if Claimed(disk, live, k) {
      var t: nat :| t in live && t < |disk| && Owns(disk[t], t, k);
      assert t in live - {s};
    }
  }

  lemma ReleasedKept(fs: Fs, s: nat, start: nat, cnt: nat, mem: nat -> bool)
    requires CoreInv(fs) && Unowned(fs.disk, LiveSet(fs), s, 1) && Unowned(fs.disk, LiveSet(fs), start, cnt)
    ensures var fs' := Release(Release(fs, s, 1, mem(0)), start, cnt, mem(1));
      && Kept(fs.disk, fs'.disk, LiveSet(fs), FREE_MAP)
      && fs'.used == B.WithRange(B.WithRange(fs.used, s, 1, false), start, cnt, false)
  {
    var live := LiveSet(fs);
    MapIsOk(fs);
    var fs1 := Release(fs, s, 1, mem(0));
    ReleaseKeeps(fs, live, live, s, 1, mem(0));
    assert Unowned(fs1.disk, live, start, cnt);
    ReleaseKeeps(fs1, live, live, start, cnt, mem(1));
    KeptTwice(fs.disk, fs1.disk, Release(fs1, start, cnt, mem(1)).disk, live, 0);
  }

  /** file_close() loses sector `k`: it belongs to an inode that is not removed, has no entry, and is not open any more. */
  ghost predicate CloseLoses(fs: Fs, h: nat, k: nat)
    requires h in fs.files
  {
    var n := Get(fs.open, fs.files[h].inode);
    EndsWith(fs, h) && !n.removed && n.sector < |fs.disk| && Owns(fs.disk[n.sector], n.sector, k)
  }

  ghost predicate ClosedLeaks(fs: Fs, h: nat, fs': Fs)
    requires h in fs.files
  {
    forall k: nat {:trigger Leaked(fs', k)} :: Leaked(fs', k) == (Leaked(fs, k) || CloseLoses(fs, h, k))
  }

  /** An inode ends without its sectors being released. */
  lemma EndedLeaks(fs: Fs, live': set<nat>, s: nat, k: nat)
    requires DiskInv(fs.disk, fs.used, LiveSet(fs)) && s in LiveSet(fs) && live' == LiveSet(fs) - {s} && s < |fs.disk|
    ensures LeakedIn(fs.disk, fs.used, live', k) == (Leaked(fs, k) || Owns(fs.disk[s], s, k))
  {
    assert PlacedAt(fs.disk, fs.used, s);
    if Owns(fs.disk[s], s, k) {
      OwnedByOne(fs.disk, fs.used, LiveSet(fs), live', s);
    } else {
      SameClaims(fs.disk, LiveSet(fs), s, k);
    }
  }

  lemma CloseLeaks(fs: Fs, h: nat, mem: nat -> bool)
    requires CoreInv(fs) && h in fs.files && h != FREE_MAP && !fs.files[h].deny
    ensures ClosedLeaks(fs, h, Close(fs, h, mem))
  {
    var n, fs1, fs' := Get(fs.open, fs.files[h].inode), Dropped(fs, h), Close(fs, h, mem);
    NodeOfFile(fs, h);
    DroppedCore(fs, h);
    DroppedLive(fs, h);
    CloseInodeIs(fs, h, mem);
    CloseKeeps(fs, h, mem);
    if n.openCnt == 1 && n.removed {
      var live := LiveSet(fs1);
      OwnedByOne(fs.disk, fs.used, LiveSet(fs), live, n.sector);
      ReleasedKept(fs1, n.sector, n.start, BytesToSectors(n.length), mem);
      forall k: nat ensures Leaked(fs', k) == Leaked(fs, k) {
        ReleasedLeaks(fs, fs', LiveSet(fs), live, fs.disk[n.sector], n.sector, k);
      }
    } else if EndsWith(fs, h) {
      forall k: nat ensures Leaked(fs', k) == (Leaked(fs, k) || CloseLoses(fs, h, k)) {
        EndedLeaks(fs, LiveSet(fs1), n.sector, k);
      }
    }
  }

  lemma CloseFileLeaks(fs: Fs, h: nat, mem: nat -> bool)
    requires CoreInv(fs) && h in fs.files && h != FREE_MAP
    ensures ClosedLeaks(fs, h, Close(fs, h, mem))
  {
    var fs1, fs' := Deny(fs, h, false), Close(fs, h, mem);
    DenyKeeps(fs, h, false);
    CloseLeaks(fs1, h, mem);
    assert Close(fs1, h, mem) == fs';
    SameNode(fs, h);
    assert fs1.disk == fs.disk && fs1.used == fs.used && RootDir(fs1) == RootDir(fs);
    forall k: nat ensures Leaked(fs', k) == (Leaked(fs, k) || CloseLoses(fs, h, k)) {
      assert CloseLoses(fs1, h, k) == CloseLoses(fs, h, k) && Leaked(fs1, k) == Leaked(fs, k);
    }
  }

  /** Nothing is lost if the inode has an entry or is open otherwise. */
  lemma LastsLeaks(fs: Fs, h: nat, mem: nat -> bool)
    requires CoreInv(fs) && h in fs.files && h != FREE_MAP && !fs.files[h].deny
    requires !EndsWith(fs, h) || Get(fs.open, fs.files[h].inode).removed
    ensures SameLeaks(fs, Close(fs, h, mem))
  {
    CloseLeaks(fs, h, mem);
    forall k: nat ensures !CloseLoses(fs, h, k) {}
  }

  lemma LeaksTwice(fs: Fs, fs': Fs, fs'': Fs)
    requires SameLeaks(fs, fs') && SameLeaks(fs', fs'')
    ensures SameLeaks(fs, fs'')
  {
    forall k: nat ensures Leaked(fs'', k) == Leaked(fs, k) { assert Leaked(fs', k) == Leaked(fs, k); }
  }

  // ----- file_open(), filesys_open(), file_reopen()

  /** A reference to an inode that has an entry, or is open otherwise, becomes a file or is given up. */
  lemma NewFileLeaks(fs: Fs, fs1: Fs, id: nat, mem: nat -> bool)
    requires fs1.disk == fs.disk && fs1.used == fs.used && NextInv(fs1) && FREE_MAP in fs1.files
    requires var held := fs1.(files := fs1.files[fs1.next := File(id, 0, false)]);
      CoreInv(held) && LiveSet(held) == LiveSet(fs) && !EndsWith(held, fs1.next)
    ensures SameLeaks(fs, NewFile(fs1, id, mem).0)
  {
    NoSuchId(fs1);
    var held := fs1.(files := fs1.files[fs1.next := File(id, 0, false)]);
    var fs' := NewFile(fs1, id, mem).0;
    if mem(0) {
      assert LiveSet(fs') == LiveSet(held);
    } else {
      ReferenceClosed(fs1, id, fs1.next, Shift(mem, 1));
      LastsLeaks(held, fs1.next, Shift(mem, 1));
      LeaksTwice(fs, held, fs');
    }
  }

  lemma OpenLeaks(fs: Fs, name: seq<Byte>, mem: nat -> bool, d: Outcome)
    requires Inv(fs)
    ensures SameLeaks(fs, Open(fs, name, mem, d).0)
  {
    var found := Sought(RootDir(fs), name, d.lookup);
    if mem(0) && found.Some? {
      FoundIsListed(fs, found.value);
      var s := SectorOf(RecordAt(RootDir(fs), found.value));
      if OpenInode(fs, s, mem(1)).1.Some? {
        var fs1, id, h := Reference(fs, s, mem(1));
        NewFileLeaks(fs, fs1, id, Shift(mem, 2));
      }
    }
  }

  lemma ReopenLeaks(fs: Fs, h: nat, mem: nat -> bool)
    requires Inv(fs) && h in fs.files && h != FREE_MAP
    ensures SameLeaks(fs, Reopen(fs, h, mem).0)
  {
    ReopenHolds(fs, h);
    ReopenIs(fs, h, mem);
    ReopenedTwice(fs, h);
    NewFileLeaks(fs, Reopened(fs, fs.files[h].inode), fs.files[h].inode, mem);
  }

  lemma ReopenedTwice(fs: Fs, h: nat)
    requires Inv(fs) && h in fs.files && h != FREE_MAP
    ensures Get(Reopened(fs, fs.files[h].inode).open, fs.files[h].inode).openCnt != 1
  {
    NodeOfFile(fs, h);
    SameIds(fs.open, Reopened(fs, fs.files[h].inode).open, fs.files[h].inode);
  }

  // ----- filesys_remove()

  lemma ErasedLeaks(fs: Fs, k: nat, id: nat)
    requires CoreInv(fs) && k < Count(RootDir(fs)) && InUse(RecordAt(RootDir(fs), k)) && ById(fs.open, id).Some?
    requires Get(fs.open, id).sector == SectorOf(RecordAt(RootDir(fs), k))
    ensures SameLeaks(fs, ErasedFs(fs, k, id))
  {
    ErasedRecord(fs, k, id);
    ErasedLive(fs, k, id);
    KeptLeaks(fs, ErasedFs(fs, k, id), ROOT_DIR);
  }

  lemma RemoveLeaks(fs: Fs, name: seq<Byte>, mem: nat -> bool, d: Outcome)
    requires Inv(fs)
    ensures SameLeaks(fs, Remove(fs, name, mem, d).0)
  {
    var found := Sought(RootDir(fs), name, d.lookup);
    if mem(0) && found.Some? {
      var k := found.value;
      FoundIsListed(fs, k);
      var s := SectorOf(RecordAt(RootDir(fs), k));
      if OpenInode(fs, s, mem(1)).1.Some? {
        var fs1, id, h := Reference(fs, s, mem(1));
        if d.write {
          RemovedLeaks(fs, fs1, k, id, h, Shift(mem, 2));
        } else {
          var held := fs1.(files := fs1.files[h := File(id, 0, false)]);
          ReferenceClosed(fs1, id, h, Shift(mem, 2));
          LastsLeaks(held, h, Shift(mem, 2));
          LeaksTwice(fs, held, Remove(fs, name, mem, d).0);
        }
      }
    }
  }

  lemma RemovedLeaks(fs: Fs, fs1: Fs, k: nat, id: nat, h: nat, mem: nat -> bool)
    requires h !in fs1.files && h != FREE_MAP && ROOT_DIR < |fs.disk| && k < Count(RootDir(fs)) && InUse(RecordAt(RootDir(fs), k))
    requires HeldOk(fs, fs1.(files := fs1.files[h := File(id, 0, false)]), SectorOf(RecordAt(RootDir(fs), k)), h)
    ensures k < Count(RootDir(fs1)) && SameLeaks(fs, CloseInode(ErasedFs(fs1, k, id), id, mem))
  {
    var held := fs1.(files := fs1.files[h := File(id, 0, false)]);
    assert RootDir(fs1) == RootDir(held);
    var erased := RemoveOpened(fs1, k, id, h, mem);
    assert erased == ErasedFs(held, k, id);
    NodeOfFile(held, h);
    ErasedLeaks(held, k, id);
    LastsLeaks(erased, h, mem);
    LeaksTwice(fs, held, erased);
    LeaksTwice(fs, erased, CloseInode(ErasedFs(fs1, k, id), id, mem));
  }

  // ----- filesys_create()

  /** The sectors inode_create() marks are those of the extent it writes in the inode. */
  lemma CreateInodeUsed(fs: Fs, live: set<nat>, s: nat, length: nat, mem: nat -> bool)
    requires DiskInv(fs.disk, fs.used, live) && MapOk(fs, live) && length < MAX_LENGTH
    requires s < |fs.disk| && fs.used[s] && Unowned(fs.disk, live, s, 1)
    ensures var (fs', ok) := CreateInode(fs, s, length, mem);
      && |fs'.used| == |fs.used| && |fs'.disk| == |fs.disk|
      && if ok then forall k {:trigger fs'.used[k]} :: 0 <= k < |fs.used| ==> fs'.used[k] == (fs.used[k] || InExtent(fs'.disk[s], k))
         else fs'.used == fs.used
  {
    if mem(0) {
      AllocateKeeps(fs, live, BytesToSectors(length), mem(1));
      var (fs1, r) := Allocate(fs, BytesToSectors(length), mem(1));
      if r.Some? {
        CreateInodeMakes(fs, fs1, live, s, r.value, length);
        HeaderReads(r.value, length);
      }
    }
  }

  /** filesys_create() loses sector `k`: it is taken for the data of a file that then does not get its name, or it
      belongs to a file that is not open and whose entry is overwritten. */
  ghost predicate CreateLoses(fs: Fs, name: seq<Byte>, size: nat, mem: nat -> bool, d: Outcome, k: nat) {
    mem(0) &&
    match Allocate(fs, 1, mem(1))
    case (_, None) => false
    case (fs1, Some(s)) =>
      var (fs2, made) := CreateInode(fs1, s, size, Shift(mem, 2));
      made && FinishLoses(fs, fs2, s, name, d, k)
  }

  ghost predicate FinishLoses(fs: Fs, fs2: Fs, s: nat, name: seq<Byte>, d: Outcome, k: nat) {
    if AddFails(RootDir(fs), name, d) then s < |fs2.disk| && k < |fs2.disk| && InExtent(fs2.disk[s], k)
    else exists t: nat {:trigger Owns(fs.disk[t], t, k)} ::
      t in Ousted(fs, Slot(RootDir(fs), d.search)) && t < |fs.disk| && Owns(fs.disk[t], t, k)
  }

  /** The sectors of `b` are marked, and nobody has them. */
  lemma OrphanLeaks(fs: Fs, fs': Fs, b: Sector, k: nat)
    requires DiskInv(fs.disk, fs.used, LiveSet(fs)) && Kept(fs.disk, fs'.disk, LiveSet(fs), FREE_MAP) && LiveSet(fs') == LiveSet(fs)
    requires |fs'.used| == |fs.used|
    requires k < |fs.used| ==> fs'.used[k] == (fs.used[k] || InExtent(b, k)) && (InExtent(b, k) ==> !fs.used[k])
    ensures Leaked(fs', k) == (Leaked(fs, k) || (k < |fs.used| && InExtent(b, k)))
  {
    KeptClaims(fs.disk, fs'.disk, LiveSet(fs), FREE_MAP, k);
    if k < |fs.used| && InExtent(b, k) { FreeIsUnclaimed(fs.disk, fs.used, LiveSet(fs), k); }
  }

  lemma FreeIsUnclaimed(disk: seq<Sector>, used: seq<bool>, live: set<nat>, k: nat)
    requires DiskInv(disk, used, live) && k < |used| && !used[k]
    ensures !Claimed(disk, live, k)
  {
    FreeIsUnowned(disk, used, live, k);
  }

  /** The sectors of the new file are those that are marked now and were not before. */
  ghost predicate TookFor(fs: Fs, fs2: Fs, s: nat) {
    && |fs2.used| == |fs.used| == |fs2.disk| && s < |fs2.disk| && !InExtent(fs2.disk[s], s)
    && forall k: nat {:trigger fs2.used[k]} {:trigger InExtent(fs2.disk[s], k)} :: k < |fs.used| ==>
         fs2.used[k] == (fs.used[k] || Owns(fs2.disk[s], s, k)) && (Owns(fs2.disk[s], s, k) ==> !fs.used[k])
  }

  lemma TryMarks(fs: Fs, fs1: Fs, s: nat, size: nat, mem: nat -> bool, fs2: Fs, made: bool)
    requires size < MAX_LENGTH && SectorTaken(fs, fs1, s) && CreateInode(fs1, s, size, mem) == (fs2, made)
    ensures |fs2.used| == |fs.used| && if made then TookFor(fs, fs2, s) else fs2.used == fs1.used
  {
    CreateInodeKeeps(fs1, LiveSet(fs), s, size, mem);
    CreateInodeUsed(fs1, LiveSet(fs), s, size, mem);
    if made { assert PlacedAt(fs2.disk, fs2.used, s); }
  }

  /** dir_add() has failed and the sector of the inode is given back. */
  lemma FailedLeaks(fs: Fs, fs2: Fs, fs': Fs, s: nat, k: nat)
    requires CoreInv(fs) && Kept(fs.disk, fs'.disk, LiveSet(fs), FREE_MAP) && LiveSet(fs') == LiveSet(fs)
    requires TookFor(fs, fs2, s) && fs'.used == B.WithRange(fs2.used, s, 1, false) && |fs2.disk| == |fs.disk|
    ensures Leaked(fs', k) == (Leaked(fs, k) || (k < |fs2.disk| && InExtent(fs2.disk[s], k)))
  {
    if k < |fs.used| {
      assert fs'.used[k] == (k != s && fs2.used[k]);
      assert s < |fs.used| && Owns(fs2.disk[s], s, s);
    }
    OrphanLeaks(fs, fs', fs2.disk[s], k);
  }

  /** The new file has what has been marked for it, and the files in `out` are live no more. */
  lemma EnteredLeaks(fs: Fs, fs': Fs, s: nat, out: set<nat>, k: nat)
    requires CoreInv(fs) && TookFor(fs, fs', s) && LiveSet(fs') == LiveSet(fs) - out + {s} && out <= LiveSet(fs) && s !in LiveSet(fs)
    requires |fs'.disk| == |fs.disk| && forall t {:trigger t in LiveSet(fs)} :: t in LiveSet(fs) ==> fs'.disk[t] == fs.disk[t]
    ensures Leaked(fs', k) == (Leaked(fs, k) || exists t: nat {:trigger Owns(fs.disk[t], t, k)} ::
                                                  t in out && t < |fs.disk| && Owns(fs.disk[t], t, k))
  {
    var live, live' := LiveSet(fs), LiveSet(fs');
    forall t: nat | t in live && t < |fs.disk| && Owns(fs.disk[t], t, k) ensures k < |fs.used| && fs.used[k] {
      assert PlacedAt(fs.disk, fs.used, t);
    }
    if k < |fs.used| && fs.used[k] {
      assert fs'.used[k] && !Owns(fs'.disk[s], s, k);
      OneOwner(fs, out, k);
      EnteredClaims(fs, fs', s, out, k);
    } else if k < |fs.used| && fs'.used[k] {
      assert Owns(fs'.disk[s], s, k) && s in live';
    }
  }

  lemma OneOwner(fs: Fs, out: set<nat>, k: nat)
    requires CoreInv(fs) && out <= LiveSet(fs)
    ensures Claimed(fs.disk, out, k) ==> !Claimed(fs.disk, LiveSet(fs) - out, k)
  {
    if Claimed(fs.disk, out, k) {
      var t: nat :| t in out && t < |fs.disk| && Owns(fs.disk[t], t, k);
      forall u: nat | u in LiveSet(fs) - out && u < |fs.disk| ensures !Owns(fs.disk[u], u, k) {
        assert ApartAt(fs.disk, t, u);
      }
    }
  }

  lemma EnteredClaims(fs: Fs, fs': Fs, s: nat, out: set<nat>, k: nat)
    requires |fs'.disk| == |fs.disk| && s < |fs.disk| && !Owns(fs'.disk[s], s, k) && LiveSet(fs') == LiveSet(fs) - out + {s} && s !in LiveSet(fs)
    requires forall t {:trigger t in LiveSet(fs)} :: t in LiveSet(fs) ==> fs'.disk[t] == fs.disk[t]
    ensures Claimed(fs'.disk, LiveSet(fs'), k) == Claimed(fs.disk, LiveSet(fs) - out, k)
    ensures Claimed(fs.disk, LiveSet(fs), k) == (Claimed(fs.disk, LiveSet(fs) - out, k) || Claimed(fs.disk, LiveSet(fs) * out, k))
  {
    if Claimed(fs'.disk, LiveSet(fs'), k) {
      var t: nat :| t in LiveSet(fs') && t < |fs'.disk| && Owns(fs'.disk[t], t, k);
      assert t in LiveSet(fs) - out && Owns(fs.disk[t], t, k);
    }
    if Claimed(fs.disk, LiveSet(fs) - out, k) {
      var t: nat :| t in LiveSet(fs) - out && t < |fs.disk| && Owns(fs.disk[t], t, k);
      assert t in LiveSet(fs') && Owns(fs'.disk[t], t, k);
    }
    if Claimed(fs.disk, LiveSet(fs), k) {
      var t: nat :| t in LiveSet(fs) && t < |fs.disk| && Owns(fs.disk[t], t, k);
      assert t in LiveSet(fs) - out || t in LiveSet(fs) * out;
    }
  }

  /** filesys_create() giving back the sector of the inode */
  lemma GiveBackLeaks(fs: Fs, fs2: Fs, s: nat, live': set<nat>, mem: bool)
    requires Inv(fs) && SameMemory(fs, fs2) && Kept(fs.disk, fs2.disk, LiveSet(fs), FREE_MAP)
    requires DiskInv(fs2.disk, fs2.used, live') && LiveSet(fs) <= live' && MapOk(fs2, LiveSet(fs))
    requires Unowned(fs2.disk, LiveSet(fs), s, 1)
    ensures var fs' := Release(fs2, s, 1, mem);
      && Kept(fs.disk, fs'.disk, LiveSet(fs), FREE_MAP) && LiveSet(fs') == LiveSet(fs)
      && fs'.used == B.WithRange(fs2.used, s, 1, false)
  {
    var fs' := Release(fs2, s, 1, mem);
    GiveBack(fs, fs2, s, live', mem);
    ReleaseKeeps(fs2, live', LiveSet(fs), s, 1, mem);
    KeptTwice(fs.disk, fs2.disk, fs'.disk, LiveSet(fs), FREE_MAP);
  }

  ghost predicate FinishedLeaks(fs: Fs, fs2: Fs, s: nat, made: bool, name: seq<Byte>, d: Outcome, fs': Fs) {
    forall k: nat {:trigger Leaked(fs', k)} :: Leaked(fs', k) == (Leaked(fs, k) || (made && FinishLoses(fs, fs2, s, name, d, k)))
  }

  lemma FinishSucceeds(fs: Fs, fs2: Fs, s: nat, size: nat, name: seq<Byte>, mem: bool, d: Outcome)
    requires Inv(fs) && IsName(name) && InodeTried(fs, fs2, s, size, true) && TookFor(fs, fs2, s) && !AddFails(RootDir(fs), name, d)
    ensures FinishedLeaks(fs, fs2, s, true, name, d, Finish(fs2, s, true, name, mem, d).0)
  {
    var (i, r) := Addition(RootDir(fs2), name, s, d).value;
    var fs' := WithRecord(fs2, i, r);
    EnterName(fs, fs2, s, size, name, d);
    EnteredInv(fs, fs2, fs', s, size, i);
    var out := Ousted(fs, i);
    forall t | t in out ensures t in LiveSet(fs) { assert Listed(RootDir(fs), t); }
    forall t | t in LiveSet(fs) ensures fs'.disk[t] == fs.disk[t] { assert t in LiveSet(fs) + {s}; }
    assert fs'.disk[s] == fs2.disk[s] by { assert s in LiveSet(fs) + {s}; }
    forall k: nat ensures Leaked(fs', k) == (Leaked(fs, k) || FinishLoses(fs, fs2, s, name, d, k)) {
      EnteredLeaks(fs, fs', s, out, k);
    }
  }

  lemma FinishWithout(fs: Fs, fs1: Fs, fs2: Fs, s: nat, size: nat, mem: bool)
    requires Inv(fs) && InodeTried(fs, fs2, s, size, false) && SectorTaken(fs, fs1, s) && fs2.used == fs1.used
    ensures SameLeaks(fs, Release(fs2, s, 1, mem))
  {
    GiveBackLeaks(fs, fs2, s, LiveSet(fs), mem);
    BackAgain(fs.used, s);
    KeptLeaks(fs, Release(fs2, s, 1, mem), FREE_MAP);
  }

  /** The sector that was taken is free again. */
  lemma BackAgain(used: seq<bool>, s: nat)
    requires s < |used| && !used[s]
    ensures B.WithRange(B.WithRange(used, s, 1, true), s, 1, false) == used
  {
    B.RolledBack(used, s, 1, false);
  }

  lemma FinishFails(fs: Fs, fs2: Fs, s: nat, size: nat, name: seq<Byte>, mem: bool, d: Outcome)
    requires Inv(fs) && InodeTried(fs, fs2, s, size, true) && TookFor(fs, fs2, s) && AddFails(RootDir(fs), name, d)
    ensures FinishedLeaks(fs, fs2, s, true, name, d, Release(fs2, s, 1, mem))
  {
    var fs' := Release(fs2, s, 1, mem);
    GiveBackLeaks(fs, fs2, s, LiveSet(fs) + {s}, mem);
    forall k: nat ensures Leaked(fs', k) == (Leaked(fs, k) || FinishLoses(fs, fs2, s, name, d, k)) {
      FailedLeaks(fs, fs2, fs', s, k);
    }
  }

  lemma FinishLeaks(fs: Fs, fs1: Fs, fs2: Fs, s: nat, size: nat, made: bool, name: seq<Byte>, mem: bool, d: Outcome)
    requires Inv(fs) && IsName(name) && InodeTried(fs, fs2, s, size, made) && SectorTaken(fs, fs1, s)
    requires |fs2.used| == |fs.used| && if made then TookFor(fs, fs2, s) else fs2.used == fs1.used
    ensures FinishedLeaks(fs, fs2, s, made, name, d, Finish(fs2, s, made, name, mem, d).0)
  {
    if !made {
      FinishWithout(fs, fs1, fs2, s, size, mem);
    } else if AddFails(RootDir(fs), name, d) {
      FinishFails(fs, fs2, s, size, name, mem, d);
    } else {
      FinishSucceeds(fs, fs2, s, size, name, mem, d);
    }
  }

  ghost predicate CreatedLeaks(fs: Fs, fs': Fs, name: seq<Byte>, size: nat, mem: nat -> bool, d: Outcome) {
    forall k: nat {:trigger Leaked(fs', k)} :: Leaked(fs', k) == (Leaked(fs, k) || CreateLoses(fs, name, size, mem, d, k))
  }

  lemma CreateLosesIs(fs: Fs, fs1: Fs, s: nat, fs2: Fs, made: bool, name: seq<Byte>, size: nat, mem: nat -> bool, d: Outcome, k: nat)
    requires mem(0) && Allocate(fs, 1, mem(1)) == (fs1, Some(s)) && CreateInode(fs1, s, size, Shift(mem, 2)) == (fs2, made)
    ensures CreateLoses(fs, name, size, mem, d, k) == (made && FinishLoses(fs, fs2, s, name, d, k))
  {
  }

  lemma CreateLeaks(fs: Fs, name: seq<Byte>, size: nat, mem: nat -> bool, d: Outcome)
    requires Inv(fs) && IsName(name) && size < MAX_LENGTH
    ensures CreatedLeaks(fs, Create(fs, name, size, mem, d).0, name, size, mem, d)
  {
    if mem(0) {
      match Allocate(fs, 1, mem(1)).1
      case None =>
        NoSector(fs, mem(1));
        KeptLeaks(fs, Allocate(fs, 1, mem(1)).0, FREE_MAP);
      case Some(s) =>
        var fs1 := TakeSector(fs, mem(1), s);
        var fs2, made := TryInode(fs, fs1, s, size, Shift(mem, 2));
        TryMarks(fs, fs1, s, size, Shift(mem, 2), fs2, made);
        CreateIs(fs, fs1, s, fs2, made, name, size, mem, d);
        FinishLeaks(fs, fs1, fs2, s, size, made, name, mem(4), d);
        var fs' := Create(fs, name, size, mem, d).0;
        forall k: nat ensures Leaked(fs', k) == (Leaked(fs, k) || CreateLoses(fs, name, size, mem, d, k)) {
          CreateLosesIs(fs, fs1, s, fs2, made, name, size, mem, d, k);
        }
    }
  }

  // ----- file_write(), file_read(), file_seek()

  lemma SeekLeaks(fs: Fs, h: nat, pos: nat)
    requires h in fs.files
    ensures SameLeaks(fs, Seek(fs, h, pos))
  {
    assert LiveSet(Seek(fs, h, pos)) == LiveSet(fs);
  }

  lemma WriteLeaks(fs: Fs, h: nat, data: seq<Byte>, mem: bool)
    requires Inv(fs) && h in fs.files && h != FREE_MAP
    ensures SameLeaks(fs, Write(fs, h, data, mem))
  {
    WriteIs(fs, h, data, mem);
    var f, n := fs.files[h], Get(fs.open, fs.files[h].inode);
    StoreKeeps(fs.disk, fs.used, LiveSet(fs), n.sector, f.pos, data[..Written(n, |data|, f.pos, mem)]);
    WriteKeeps(fs, h, data, mem);
    KeptLeaks(fs, Write(fs, h, data, mem), n.sector);
  }

  // ----- runs

  /** The call loses sector `k`: filesys_create() fails in dir_add(), or overwrites an entry; or file_close() closes an
      inode whose entry was overwritten. */
  ghost predicate Loses(fs: Fs, a: Action, k: nat)
    requires Enabled(fs, a)
  {
    match a
    case DoCreate(name, size, mem, d) => CreateLoses(fs, name, size, mem, d, k)
    case DoClose(h, _) => CloseLoses(fs, h, k)
    case _ => false
  }

  ghost predicate LeaksAfter(fs: Fs, a: Action)
    requires Enabled(fs, a)
  {
    var fs' := Step(fs, a);
    forall k: nat {:trigger Leaked(fs', k)} :: Leaked(fs', k) == (Leaked(fs, k) || Loses(fs, a, k))
  }

  /** After any call, and whatever memory there is, the lost sectors are those lost before, which never come back, and
      those that the call has just lost. */
  lemma StepLeaks(fs: Fs, a: Action)
    requires Inv(fs) && Enabled(fs, a)
    ensures LeaksAfter(fs, a)
  {
    match a
    case DoCreate(name, size, mem, d) => CreateLeaks(fs, name, size, mem, d);
    case DoOpen(name, mem, d) => OpenLeaks(fs, name, mem, d);
    case DoRemove(name, mem, d) => RemoveLeaks(fs, name, mem, d);
    case DoReopen(h, mem) => ReopenLeaks(fs, h, mem);
    case DoClose(h, mem) => CloseFileLeaks(fs, h, mem);
    case DoRead(h, size, bounce) =>
      var f, n := fs.files[h], Get(fs.open, fs.files[h].inode);
      SeekLeaks(fs, h, f.pos + Transferred(n.length, size, f.pos, bounce));
    case DoWrite(h, data, bounce) => WriteLeaks(fs, h, data, bounce);
    case DoSeek(h, pos) => SeekLeaks(fs, h, pos);
    case DoDeny(h, deny) => DenyKeeps(fs, h, deny);
  }

  /** free_map_create() marks its own sectors, and the root's inode has been marked before. */
  lemma MapMadeMarks(disk: seq<Sector>)
    requires 2 <= |disk| <= WORD && Format(disk).Some?
    ensures var fs := MapMade(disk);
      && |fs.used| == |fs.disk| == |disk|
      && forall k: nat {:trigger fs.used[k]} :: k < |disk| && fs.used[k] ==> k == ROOT_DIR || Owns(fs.disk[FREE_MAP], FREE_MAP, k)
  {
    var fs0 := Fs(disk, seq(|disk|, k => k < 2), [], map[], 1);
    CreateInodeKeeps(fs0, {}, FREE_MAP, MapSize(|disk|), YES);
    CreateInodeUsed(fs0, {}, FREE_MAP, MapSize(|disk|), YES);
    var fs1 := CreateInode(fs0, FREE_MAP, MapSize(|disk|), YES).0;
    assert {} + {FREE_MAP} == {FREE_MAP};
    MapWrittenKeeps(Mounted(fs1.disk, fs1.used), {FREE_MAP}, true);
  }

  /** Then the root directory is made. */
  lemma RootMadeMarks(fs2: Fs, fs3: Fs)
    requires 2 <= |fs2.disk| == |fs2.used| && MapReady(fs2, {FREE_MAP})
    requires fs2.used[ROOT_DIR] && Unowned(fs2.disk, {FREE_MAP}, ROOT_DIR, 1)
    requires CreateInode(fs2, ROOT_DIR, ROOT_ENTRIES * ENTRY, YES) == (fs3, true)
    requires forall k: nat {:trigger fs2.used[k]} :: k < |fs2.used| && fs2.used[k] ==> k == ROOT_DIR || Owns(fs2.disk[FREE_MAP], FREE_MAP, k)
    ensures forall k: nat :: k < |fs3.used| && fs3.used[k] ==> Claimed(fs3.disk, {FREE_MAP, ROOT_DIR}, k)
  {
    CreateInodeKeeps(fs2, {FREE_MAP}, ROOT_DIR, ROOT_ENTRIES * ENTRY, YES);
    CreateInodeUsed(fs2, {FREE_MAP}, ROOT_DIR, ROOT_ENTRIES * ENTRY, YES);
    forall k: nat | k < |fs3.used| && fs3.used[k] ensures Claimed(fs3.disk, {FREE_MAP, ROOT_DIR}, k) {
      assert Owns(fs3.disk[FREE_MAP], FREE_MAP, k) || Owns(fs3.disk[ROOT_DIR], ROOT_DIR, k);
    }
  }

  /** Formatting marks the two inodes and the two extents, and nothing else. */
  lemma FormattedLeaks(disk: seq<Sector>)
    requires 2 <= |disk| <= WORD && Format(disk).Some?
    ensures var fs := Format(disk).value; forall k: nat {:trigger Leaked(fs, k)} :: !Leaked(fs, k)
  {
    var fs2 := FormattedMap(disk);
    MapMadeMarks(disk);
    var fs3 := FormattedRoot(fs2);
    RootMadeMarks(fs2, fs3);
    ShownReads(fs3, fs3.used);
    var fs := Format(disk).value;
    assert fs == Mounted(fs3.disk, fs3.used);
    SystemIsLive(fs);
    forall k: nat ensures !Leaked(fs, k) { MoreClaims(fs.disk, {FREE_MAP, ROOT_DIR}, LiveSet(fs), k); }
  }

  lemma SystemIsLive(fs: Fs)
    requires 2 <= |fs.disk|
    ensures {FREE_MAP, ROOT_DIR} <= LiveSet(fs)
  {
    assert Live(fs, FREE_MAP) && Live(fs, ROOT_DIR);
  }

  lemma MoreClaims(disk: seq<Sector>, live: set<nat>, live': set<nat>, k: nat)
    requires live <= live'
    ensures Claimed(disk, live, k) ==> Claimed(disk, live', k)
  {
  }

  /** The next mount loses sector `k`: it is marked on the disk only, or it belongs to a file that has no entry and was
      only kept by those who had it open. */
  ghost predicate RemountLoses(fs: Fs, k: nat) {
    || (k < |fs.used| == |DiskMap(fs)| && DiskMap(fs)[k] && !fs.used[k])
    || (exists t: nat {:trigger Owns(fs.disk[t], t, k)} :: Unlisted(fs, t) && Owns(fs.disk[t], t, k))
  }

  ghost predicate Unlisted(fs: Fs, t: nat) { 2 <= t < |fs.disk| && t in LiveSet(fs) && !Listed(RootDir(fs), t) }

  lemma RemountLeaks(fs: Fs, k: nat)
    requires Inv(fs) && Covered(fs)
    ensures Leaked(Remount(fs), k) == (Leaked(fs, k) || RemountLoses(fs, k))
  {
    var fs', live := Remount(fs), LiveSet(fs);
    RemountInv(fs, DiskMap(fs));
    RemountLive(fs);
    MoreClaims(fs.disk, LiveSet(fs'), live, k);
    if k < |fs.used| && !fs.used[k] {
      FreeIsUnclaimed(fs.disk, fs.used, live, k);
    }
    if Claimed(fs.disk, live, k) && !Claimed(fs.disk, LiveSet(fs'), k) {
      var t: nat :| t in live && t < |fs.disk| && Owns(fs.disk[t], t, k);
      assert Unlisted(fs, t) && PlacedAt(fs.disk, fs.used, t);
    }
    if t: nat :| Unlisted(fs, t) && Owns(fs.disk[t], t, k) {
      assert PlacedAt(fs.disk, fs.used, t);
      UnlistedIsUnclaimed(fs, fs', t, k);
    }
  }

  lemma RemountLive(fs: Fs)
    requires Inv(fs) && Covered(fs)
    ensures forall t {:trigger t in LiveSet(Remount(fs))} :: t in LiveSet(Remount(fs)) <==> t in LiveSet(fs) && (t < 2 || Listed(RootDir(fs), t))
  {
    var fs' := Remount(fs);
    RemountInv(fs, DiskMap(fs));
    forall t ensures t in LiveSet(fs') <==> t in LiveSet(fs) && (t < 2 || Listed(RootDir(fs), t)) {
      if 0 <= t < |fs.disk| { MountedLive(fs.disk, DiskMap(fs), t); }
    }
  }

  lemma UnlistedIsUnclaimed(fs: Fs, fs': Fs, t: nat, k: nat)
    requires DiskInv(fs.disk, fs.used, LiveSet(fs)) && LiveSet(fs') <= LiveSet(fs) && Unlisted(fs, t) && t !in LiveSet(fs')
    requires Owns(fs.disk[t], t, k)
    ensures !Claimed(fs.disk, LiveSet(fs'), k)
  {
    forall u: nat {:trigger Owns(fs.disk[u], u, k)} | u in LiveSet(fs') && u < |fs.disk| ensures !Owns(fs.disk[u], u, k) {
      assert ApartAt(fs.disk, u, t);
    }
  }

  /** Some call of the run, or a mount, lost sector `k`. */
  ghost predicate Lost(e: Execution, k: nat)
    requires Legal(e)
  {
    match e
    case Formatted(_) => false
    case Then(before, act) => Lost(before, k) || Loses(Last(before), act, k)
    case Remounted(before) => Lost(before, k) || RemountLoses(Last(before), k)
  }

  /** Sectors are conserved: over every run, whatever memory there is, a sector is marked exactly if a live file has it
      or some call or mount has lost it, and never both. */
  lemma {:induction false} SectorsAreConserved(e: Execution, k: nat)
    requires Legal(e) && k < |Last(e).used|
    ensures Last(e).used[k] <==> Claimed(Last(e).disk, LiveSet(Last(e)), k) || Lost(e, k)
    ensures !(Claimed(Last(e).disk, LiveSet(Last(e)), k) && Lost(e, k))
  {
    var fs := Last(e);
    EveryRunKeepsInv(e);
    LeaksOfRun(e, k);
    if !fs.used[k] { FreeIsUnclaimed(fs.disk, fs.used, LiveSet(fs), k); }
  }

  lemma {:induction false} LeaksOfRun(e: Execution, k: nat)
    requires Legal(e)
    ensures Leaked(Last(e), k) == Lost(e, k)
  {
    match e
    case Formatted(disk) => FormattedLeaks(disk);
    case Then(before, act) =>
      LeaksOfRun(before, k);
      EveryRunKeepsInv(before);
      StepLeaks(Last(before), act);
    case Remounted(before) =>
      LeaksOfRun(before, k);
      EveryRunKeepsInv(before);
      RemountLeaks(Last(before), k);
  }
}
