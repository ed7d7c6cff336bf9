/** What a client sees: which file a handle leads to, where it stands, and exactly when a call succeeds. */
module FileSysClient {
  import opened Common
  import opened InodeIO
  import opened Directory
  import opened FileSys
  import opened FileSysDisk
  import opened FileSysTables
  import opened FileSysSafety
  import opened FileSysOps
  import opened FileSysMount
  import opened FileSysCalls
  import opened FileSysMap
  import opened FileSysTheorems
  import B = Bitmap

  // ----- handles

  /** The inode a file is open on, its position, whether it denies writing, and whether the inode is removed */
  datatype View = View(sector: nat, pos: nat, deny: bool, removed: bool)

  function Look(open: seq<Inode>, f: File): View {
    var n := Get(open, f.inode);
    View(n.sector, f.pos, f.deny, n.removed)
  }

  function Views(fs: Fs): map<nat, View> { map h | h in fs.files :: Look(fs.open, fs.files[h]) }

  /** An inode in memory is updated. */
  lemma PutLook(open: seq<Inode>, n: Inode, f: File)
    requires n.sector == Get(open, n.id).sector && n.removed == Get(open, n.id).removed
    ensures Look(Put(open, n), f) == Look(open, f)
  {
    SameIds(open, Put(open, n), f.inode);
  }

  /** An inode is read in. */
  lemma PushLook(open: seq<Inode>, n: Inode, f: File)
    requires n.id != f.inode
    ensures Look([n] + open, f) == Look(open, f)
  {
    assert ([n] + open)[1..] == open;
  }

  // ----- file_deny_write(), file_allow_write(), file_seek(), file_read()

  lemma DenySets(fs: Fs, h: nat, deny: bool)
    requires CoreInv(fs) && h in fs.files
    ensures Views(Deny(fs, h, deny)) == Views(fs)[h := Views(fs)[h].(deny := deny)]
  {
    var fs' := Deny(fs, h, deny);
    DenyIs(fs, h, deny);
    forall g | g in fs.files ensures Look(fs'.open, fs'.files[g]) == Look(fs.open, fs'.files[g]) { DenyLook(fs, h, deny, fs'.files[g]); }
  }

  lemma DenyIs(fs: Fs, h: nat, deny: bool)
    requires h in fs.files
    ensures Deny(fs, h, deny).files == fs.files[h := fs.files[h].(deny := deny)]
  {
  }

  lemma DenyLook(fs: Fs, h: nat, deny: bool, f: File)
    requires CoreInv(fs) && h in fs.files
    ensures Look(Deny(fs, h, deny).open, f) == Look(fs.open, f)
  {
    NodeOfFile(fs, h);
    var n := Get(fs.open, fs.files[h].inode);
    if fs.files[h].deny != deny { PutLook(fs.open, n.(denyCnt := n.denyCnt + if deny then 1 else -1), f); }
  }

  lemma SeekSets(fs: Fs, h: nat, pos: nat)
    requires h in fs.files
    ensures Views(Seek(fs, h, pos)) == Views(fs)[h := Views(fs)[h].(pos := pos)]
  {
  }

  // ----- file_close()

  /** The last file on an inode */
  lemma LastOn(fs: Fs, h: nat, g: nat)
    requires CoreInv(fs) && h in fs.files && g in fs.files && g != h && Get(fs.open, fs.files[h].inode).openCnt == 1
    ensures fs.files[g].inode != fs.files[h].inode
  {
    NodeOfFile(fs, h);
    var id := fs.files[h].inode;
    OnlyOne(Refs(fs.files, id), h);
    assert fs.files[g].inode == id ==> g in Refs(fs.files, id);
  }

  lemma WithoutLook(fs: Fs, id: nat, g: nat)
    requires CoreInv(fs) && ById(fs.open, id).Some? && g in fs.files && fs.files[g].inode != id
    ensures Look(Without(fs.open, id), fs.files[g]) == Look(fs.open, fs.files[g])
  {
    NodeOfFile(fs, g);
    DropIds(fs.open, ById(fs.open, id).value, fs.files[g].inode);
  }

  lemma DropLook(fs: Fs, h: nat, g: nat)
    requires CoreInv(fs) && h in fs.files && g in fs.files && g != h
    ensures Look(Dropped(fs, h).open, fs.files[g]) == Look(fs.open, fs.files[g])
  {
    NodeOfFile(fs, h);
    var n := Get(fs.open, fs.files[h].inode);
    if n.openCnt != 1 {
      PutLook(fs.open, n.(openCnt := n.openCnt - 1), fs.files[g]);
    } else {
      LastOn(fs, h, g);
      WithoutLook(fs, n.id, g);
    }
  }

  lemma DropViews(fs: Fs, h: nat, mem: nat -> bool)
    requires CoreInv(fs) && h in fs.files && h != FREE_MAP && !fs.files[h].deny
    ensures Views(Close(fs, h, mem)) == Views(fs) - {h}
  {
    var fs' := Close(fs, h, mem);
    CloseKeeps(fs, h, mem);
    CloseInodeIs(fs, h, mem);
    assert fs'.files == fs.files - {h};
    forall g | g in fs'.files ensures Look(fs'.open, fs'.files[g]) == Look(fs.open, fs.files[g]) { DropLook(fs, h, g); }
  }

  /** The handle is gone, and all others are as before. */
  lemma CloseDrops(fs: Fs, h: nat, mem: nat -> bool)
    requires CoreInv(fs) && h in fs.files && h != FREE_MAP
    ensures Views(Close(fs, h, mem)) == Views(fs) - {h}
  {
    var fs1 := Deny(fs, h, false);
    DenyKeeps(fs, h, false);
    DenySets(fs, h, false);
    DropViews(fs1, h, mem);
    assert Close(fs1, h, mem) == Close(fs, h, mem);
  }

  // ----- filesys_open() and file_reopen()

  /** A new reference to the inode in sector `s`, seen as a file */
  lemma OpenLook(fs: Fs, s: nat, mem: bool, f: File)
    requires Inv(fs) && s < |fs.disk| && f.inode < fs.next
    ensures Look(OpenInode(fs, s, mem).0.open, f) == Look(fs.open, f)
  {
    match BySector(fs.open, s)
    case Some(i) =>
      ByIdIs(fs.open, i);
      PutLook(fs.open, fs.open[i].(openCnt := fs.open[i].openCnt + 1), f);
    case None =>
      if mem { PushLook(fs.open, Inode(fs.next, s, 1, 0, false, Start(fs.disk[s]), Length(fs.disk[s])), f); }
  }

  lemma FilesBelow(fs: Fs, g: nat)
    requires Inv(fs) && g in fs.files
    ensures fs.files[g].inode < fs.next
  {
    NodeOfFile(fs, g);
  }

  /** A new file on a reference: it is on the inode, which is not removed, at its beginning. */
  lemma HeldLook(fs: Fs, held: Fs, s: nat, h: nat)
    requires HeldOk(fs, held, s, h) && Listed(RootDir(fs), s) && held.files[h].pos == 0 && !held.files[h].deny
    ensures Look(held.open, held.files[h]) == View(s, 0, false, false)
  {
    NodeOfFile(held, h);
  }

  lemma OthersLook(fs: Fs, s: nat, mem: bool, fs1: Fs)
    requires Inv(fs) && s < |fs.disk| && fs1 == OpenInode(fs, s, mem).0
    ensures fs1.files == fs.files && forall g {:trigger fs.files[g]} :: g in fs.files ==> Look(fs1.open, fs.files[g]) == Look(fs.open, fs.files[g])
  {
    forall g | g in fs.files ensures Look(fs1.open, fs.files[g]) == Look(fs.open, fs.files[g]) {
      FilesBelow(fs, g);
      OpenLook(fs, s, mem, fs.files[g]);
    }
  }

  lemma ViewsWith(fs: Fs, open': seq<Inode>, h: nat, f: File, held: Fs)
    requires forall g {:trigger fs.files[g]} :: g in fs.files ==> Look(open', fs.files[g]) == Look(fs.open, fs.files[g])
    requires held.open == open' && held.files == fs.files[h := f]
    ensures Views(held) == Views(fs)[h := Look(open', f)]
  {
  }

  lemma HeldViews(fs: Fs, s: nat, mem: bool, fs1: Fs, id: nat, h: nat, held: Fs)
    requires Inv(fs) && s < |fs.disk| && Listed(RootDir(fs), s) && OpenInode(fs, s, mem) == (fs1, Some(id))
    requires held == fs1.(files := fs1.files[h := File(id, 0, false)]) && HeldOk(fs, held, s, h)
    ensures Views(held) == Views(fs)[h := View(s, 0, false, false)]
  {
    OthersLook(fs, s, mem, fs1);
    HeldLook(fs, held, s, h);
    ViewsWith(fs, fs1.open, h, File(id, 0, false), held);
  }

  /** file_open() on the reference: the file is there, or the reference is given up and all is as it was. */
  lemma NewFileViews(fs: Fs, fs1: Fs, id: nat, mem: nat -> bool, held: Fs, v: View)
    requires held == fs1.(files := fs1.files[fs1.next := File(id, 0, false)]) && CoreInv(held) && fs1.next != FREE_MAP
    requires fs1.files == fs.files && fs1.next !in fs.files && Views(held) == Views(fs)[fs1.next := v]
    ensures var (fs', r) := NewFile(fs1, id, mem);
      if mem(0) then r == Some(fs1.next) && Views(fs') == Views(fs)[fs1.next := v] && fs'.disk == fs1.disk
      else r == None && Views(fs') == Views(fs)
  {
    if !mem(0) {
      ReferenceClosed(fs1, id, fs1.next, Shift(mem, 1));
      DropViews(held, fs1.next, Shift(mem, 1));
      assert Views(fs)[fs1.next := v] - {fs1.next} == Views(fs);
    }
  }

  /** Record `k` is the first in use under the name, and lookup() can read as far. */
  ghost predicate IsEntry(dir: seq<Byte>, name: seq<Byte>, d: Outcome, k: nat) {
    k < Count(dir) && k < d.lookup && Matches(dir, k, name) && forall i :: 0 <= i < k ==> !Matches(dir, i, name)
  }

  ghost predicate HasEntry(dir: seq<Byte>, name: seq<Byte>, d: Outcome) { exists k: nat :: IsEntry(dir, name, d, k) }

  lemma SoughtIs(dir: seq<Byte>, name: seq<Byte>, d: Outcome)
    ensures match Sought(dir, name, d.lookup)
      case None => !HasEntry(dir, name, d)
      case Some(k) => IsEntry(dir, name, d, k)
  {
  }

  /** `r` is a new handle that looks like `v`, or nothing. */
  ghost predicate Gives(fs: Fs, fs': Fs, r: Option<nat>, v: View) {
    match r
    case None => Views(fs') == Views(fs)
    case Some(h) =>
      && h !in fs.files && Views(fs') == Views(fs)[h := v]
      && v.sector < |fs.disk| == |fs'.disk| && FileBytes(fs', v.sector) == FileBytes(fs, v.sector)
  }

  /** What filesys_open() gives: a file exactly if the name is found and there is memory for the directory, for the inode
      if that is not open, and for the file; then a new handle on the inode of the entry, at its beginning. All other
      handles are as before. */
  lemma OpenGives(fs: Fs, name: seq<Byte>, mem: nat -> bool, d: Outcome, k: nat)
    requires Inv(fs) && IsEntry(RootDir(fs), name, d, k)
    ensures var (fs', r) := Open(fs, name, mem, d); var s := SectorOf(RecordAt(RootDir(fs), k));
      && 2 <= s < |fs.disk| && (r.Some? <==> mem(0) && (BySector(fs.open, s).Some? || mem(1)) && mem(2))
      && Gives(fs, fs', r, View(s, 0, false, false))
  {
    SoughtIs(RootDir(fs), name, d);
    FoundIsListed(fs, k);
    var s := SectorOf(RecordAt(RootDir(fs), k));
    if mem(0) && (BySector(fs.open, s).Some? || mem(1)) {
      OpenGoesOn(fs, s, mem);
      OpenIs(fs, name, mem, d, k);
    } else {
      OpenFails(fs, name, mem, d, k);
    }
  }

  lemma OpenGoesOn(fs: Fs, s: nat, mem: nat -> bool)
    requires Inv(fs) && s < |fs.disk| && Listed(RootDir(fs), s) && (BySector(fs.open, s).Some? || mem(1))
    ensures var (fs1, id) := OpenInode(fs, s, mem(1));
      && id.Some?
      && var (fs', r) := NewFile(fs1, id.value, Shift(mem, 2)); (r.Some? <==> mem(2)) && Gives(fs, fs', r, View(s, 0, false, false))
  {
    var fs1, id, h := Reference(fs, s, mem(1));
    var held := fs1.(files := fs1.files[h := File(id, 0, false)]);
    HeldViews(fs, s, mem(1), fs1, id, h, held);
    NewFileGives(fs, fs1, id, Shift(mem, 2), held, s, h);
    assert Shift(mem, 2)(0) == mem(2);
  }

  lemma NewFileGives(fs: Fs, fs1: Fs, id: nat, mem: nat -> bool, held: Fs, s: nat, h: nat)
    requires held == fs1.(files := fs1.files[h := File(id, 0, false)]) && HeldOk(fs, held, s, h) && s < |fs.disk|
    requires h == fs1.next && h != FREE_MAP && fs1.files == fs.files && h !in fs.files && Views(held) == Views(fs)[h := View(s, 0, false, false)]
    ensures var (fs', r) := NewFile(fs1, id, mem); (r.Some? <==> mem(0)) && Gives(fs, fs', r, View(s, 0, false, false))
  {
    NewFileViews(fs, fs1, id, mem, held, View(s, 0, false, false));
  }

  lemma OpenIs(fs: Fs, name: seq<Byte>, mem: nat -> bool, d: Outcome, k: nat)
    requires Sought(RootDir(fs), name, d.lookup) == Some(k) && SectorOf(RecordAt(RootDir(fs), k)) < |fs.disk| && mem(0)
    requires OpenInode(fs, SectorOf(RecordAt(RootDir(fs), k)), mem(1)).1.Some?
    ensures var (fs1, id) := OpenInode(fs, SectorOf(RecordAt(RootDir(fs), k)), mem(1));
      Open(fs, name, mem, d) == NewFile(fs1, id.value, Shift(mem, 2))
  {
  }

  lemma OpenFails(fs: Fs, name: seq<Byte>, mem: nat -> bool, d: Outcome, k: nat)
    requires Sought(RootDir(fs), name, d.lookup) == Some(k) && SectorOf(RecordAt(RootDir(fs), k)) < |fs.disk|
    requires mem(0) ==> OpenInode(fs, SectorOf(RecordAt(RootDir(fs), k)), mem(1)).1.None?
    ensures Open(fs, name, mem, d) == (fs, None)
  {
  }

  lemma OpenFindsNothing(fs: Fs, name: seq<Byte>, mem: nat -> bool, d: Outcome)
    requires !HasEntry(RootDir(fs), name, d)
    ensures Open(fs, name, mem, d) == (fs, None)
  {
    SoughtIs(RootDir(fs), name, d);
  }

  /** file_reopen() gives a new handle on the same inode, at its beginning, exactly if there is memory for it. */
  lemma ReopenGives(fs: Fs, h: nat, mem: nat -> bool)
    requires Inv(fs) && h in fs.files && h != FREE_MAP
    ensures var (fs', r) := Reopen(fs, h, mem); (r.Some? <==> mem(0)) && Gives(fs, fs', r, Views(fs)[h].(pos := 0, deny := false))
  {
    var id := fs.files[h].inode;
    var fs1 := Reopened(fs, id);
    var held := fs1.(files := fs1.files[fs.next := File(id, 0, false)]);
    NodeOfFile(fs, h);
    ReopenHolds(fs, h);
    ReopenIs(fs, h, mem);
    ReopenLook(fs, h);
    ViewsWith(fs, fs1.open, fs.next, File(id, 0, false), held);
    NewFileViews(fs, fs1, id, mem, held, Views(fs)[h].(pos := 0, deny := false));
  }

  lemma ReopenLook(fs: Fs, h: nat)
    requires CoreInv(fs) && h in fs.files
    ensures forall f: File {:trigger Look(fs.open, f)} :: Look(Reopened(fs, fs.files[h].inode).open, f) == Look(fs.open, f)
  {
    NodeOfFile(fs, h);
    var n := Get(fs.open, fs.files[h].inode);
    forall f: File ensures Look(Reopened(fs, n.id).open, f) == Look(fs.open, f) {
      PutLook(fs.open, n.(openCnt := n.openCnt + 1), f);
    }
  }

  // ----- filesys_remove()

  /** All handles on the inode in sector `s` are now on a removed one. */
  function Marked(v: map<nat, View>, s: nat): map<nat, View> {
    map h | h in v :: if v[h].sector == s then v[h].(removed := true) else v[h]
  }

  /** Exactly the files on inode `id` are on its sector. */
  lemma OneInode(fs: Fs, id: nat, g: nat)
    requires CoreInv(fs) && ById(fs.open, id).Some? && g in fs.files
    ensures fs.files[g].inode == id <==> Look(fs.open, fs.files[g]).sector == Get(fs.open, id).sector
  {
    NodeOfFile(fs, g);
    var i, j := ById(fs.open, id).value, ById(fs.open, fs.files[g].inode).value;
    assert NodePair(fs.open, i, j) && NodePair(fs.open, j, i);
  }

  lemma MarkLook(open: seq<Inode>, id: nat, f: File)
    requires ById(open, id).Some?
    ensures Look(Put(open, Get(open, id).(removed := true)), f)
         == if f.inode == id then Look(open, f).(removed := true) else Look(open, f)
  {
    SameIds(open, Put(open, Get(open, id).(removed := true)), f.inode);
  }

  lemma MarkViews(fs: Fs, id: nat, erased: Fs)
    requires CoreInv(fs) && ById(fs.open, id).Some? && erased.files == fs.files
    requires erased.open == Put(fs.open, Get(fs.open, id).(removed := true))
    ensures Views(erased) == Marked(Views(fs), Get(fs.open, id).sector)
  {
    forall g | g in fs.files
      ensures Look(erased.open, fs.files[g]) == Marked(Views(fs), Get(fs.open, id).sector)[g]
    {
      OneInode(fs, id, g);
      MarkLook(fs.open, id, fs.files[g]);
    }
  }

  /** The entry is erased and the reference given up: the files that are open on the inode stay, on a removed one. */
  lemma RemovedViews(fs: Fs, fs1: Fs, k: nat, id: nat, h: nat, s: nat, held: Fs, mem: nat -> bool)
    requires Inv(fs) && k < Count(RootDir(fs)) && InUse(RecordAt(RootDir(fs), k)) && s == SectorOf(RecordAt(RootDir(fs), k))
    requires held == fs1.(files := fs1.files[h := File(id, 0, false)]) && HeldOk(fs, held, s, h) && h !in fs1.files && h != FREE_MAP
    requires fs1.files == fs.files && Views(held) == Views(fs)[h := View(s, 0, false, false)]
    ensures k < Count(RootDir(fs1)) && Views(CloseInode(ErasedFs(fs1, k, id), id, mem)) == Marked(Views(fs), s)
  {
    assert RootDir(fs1) == RootDir(held);
    var erased := RemoveOpened(fs1, k, id, h, mem);
    ErasedOpen(fs1, k, id);
    MarkViews(held, id, erased);
    DropViews(erased, h, mem);
    MarkedWithout(Views(fs), h, View(s, 0, false, false), s);
  }

  lemma ErasedOpen(fs: Fs, k: nat, id: nat)
    requires k < Count(RootDir(fs))
    ensures ErasedFs(fs, k, id).open == Put(fs.open, Get(fs.open, id).(removed := true))
  {
  }

  lemma MarkedWithout(v: map<nat, View>, h: nat, x: View, s: nat)
    requires h !in v
    ensures Marked(v[h := x], s) - {h} == Marked(v, s)
  {
  }

  lemma GivenUpViews(fs: Fs, fs1: Fs, id: nat, h: nat, held: Fs, v: View, mem: nat -> bool)
    requires held == fs1.(files := fs1.files[h := File(id, 0, false)]) && CoreInv(held) && h !in fs1.files && h != FREE_MAP
    requires fs1.files == fs.files && Views(held) == Views(fs)[h := v]
    ensures Views(CloseInode(fs1, id, mem)) == Views(fs)
  {
    ReferenceClosed(fs1, id, h, mem);
    DropViews(held, h, mem);
    assert Views(fs)[h := v] - {h} == Views(fs);
  }

  /** What filesys_remove() does to the handles, and exactly when it succeeds: the name is found, there is memory for the
      directory and for the inode if that is not open, and the record can be written. */
  lemma RemoveGives(fs: Fs, name: seq<Byte>, mem: nat -> bool, d: Outcome, k: nat)
    requires Inv(fs) && IsEntry(RootDir(fs), name, d, k)
    ensures var (fs', ok) := Remove(fs, name, mem, d); var s := SectorOf(RecordAt(RootDir(fs), k));
      && (ok <==> mem(0) && (BySector(fs.open, s).Some? || mem(1)) && d.write)
      && Views(fs') == if ok then Marked(Views(fs), s) else Views(fs)
  {
    SoughtIs(RootDir(fs), name, d);
    FoundIsListed(fs, k);
    var s := SectorOf(RecordAt(RootDir(fs), k));
    if mem(0) && (BySector(fs.open, s).Some? || mem(1)) {
      var fs1, id := RemoveGoesOn(fs, k, s, mem, d);
      RemoveIs(fs, name, mem, d, k, fs1, id);
    } else {
      RemoveFails(fs, name, mem, d, k);
    }
  }

  lemma RemoveGoesOn(fs: Fs, k: nat, s: nat, mem: nat -> bool, d: Outcome) returns (fs1: Fs, id: nat)
    requires Inv(fs) && k < Count(RootDir(fs)) && InUse(RecordAt(RootDir(fs), k)) && s == SectorOf(RecordAt(RootDir(fs), k))
    requires s < |fs.disk| && Listed(RootDir(fs), s) && (BySector(fs.open, s).Some? || mem(1))
    ensures OpenInode(fs, s, mem(1)) == (fs1, Some(id)) && RootDir(fs1) == RootDir(fs)
    ensures if d.write then Views(CloseInode(ErasedFs(fs1, k, id), id, Shift(mem, 2))) == Marked(Views(fs), s)
            else Views(CloseInode(fs1, id, Shift(mem, 2))) == Views(fs)
  {
    var f, i, h := Reference(fs, s, mem(1));
    fs1, id := f, i;
    var held := fs1.(files := fs1.files[h := File(id, 0, false)]);
    assert RootDir(fs1) == RootDir(held);
    HeldViews(fs, s, mem(1), fs1, id, h, held);
    if d.write {
      RemovedViews(fs, fs1, k, id, h, s, held, Shift(mem, 2));
    } else {
      GivenUpViews(fs, fs1, id, h, held, View(s, 0, false, false), Shift(mem, 2));
    }
  }

  lemma RemoveFails(fs: Fs, name: seq<Byte>, mem: nat -> bool, d: Outcome, k: nat)
    requires Sought(RootDir(fs), name, d.lookup) == Some(k) && SectorOf(RecordAt(RootDir(fs), k)) < |fs.disk|
    requires mem(0) ==> OpenInode(fs, SectorOf(RecordAt(RootDir(fs), k)), mem(1)).1.None?
    ensures Remove(fs, name, mem, d) == (fs, false)
  {
  }

  lemma RemoveIs(fs: Fs, name: seq<Byte>, mem: nat -> bool, d: Outcome, k: nat, fs1: Fs, id: nat)
    requires Sought(RootDir(fs), name, d.lookup) == Some(k) && SectorOf(RecordAt(RootDir(fs), k)) < |fs.disk| && mem(0)
    requires OpenInode(fs, SectorOf(RecordAt(RootDir(fs), k)), mem(1)) == (fs1, Some(id)) && RootDir(fs1) == RootDir(fs)
    ensures Remove(fs, name, mem, d) ==
      if d.write then (CloseInode(ErasedFs(fs1, k, id), id, Shift(mem, 2)), true) else (CloseInode(fs1, id, Shift(mem, 2)), false)
  {
  }

  lemma RemoveFindsNothing(fs: Fs, name: seq<Byte>, mem: nat -> bool, d: Outcome)
    requires !HasEntry(RootDir(fs), name, d)
    ensures Remove(fs, name, mem, d) == (fs, false)
  {
    SoughtIs(RootDir(fs), name, d);
  }

  // ----- filesys_create()

  /** free_map_allocate() succeeds: there is a run of free sectors, and the map can be written in full. */
  predicate CanAllocate(used: seq<bool>, cnt: nat, mem: bool) {
    B.FirstFit(used, 0, cnt, false).Some? && Reach(|used|, mem) == MapSize(|used|)
  }

  /** There is memory for the directory and the inode, a free sector for the inode, and then a run of free sectors for the
      data. */
  predicate CanMake(used: seq<bool>, size: nat, mem: nat -> bool) {
    && mem(0) && mem(2) && CanAllocate(used, 1, mem(1))
    && CanAllocate(B.WithRange(used, B.FirstFit(used, 0, 1, false).value, 1, true), BytesToSectors(size), mem(3))
  }

  lemma AllocateMemory(fs: Fs, cnt: nat, mem: bool)
    ensures var fs' := Allocate(fs, cnt, mem).0; fs'.files == fs.files && fs'.open == fs.open
  {
  }

  lemma CreateInodeMemory(fs: Fs, s: nat, size: nat, mem: nat -> bool)
    ensures var fs' := CreateInode(fs, s, size, mem).0; fs'.files == fs.files && fs'.open == fs.open
  {
    AllocateMemory(fs, BytesToSectors(size), mem(1));
  }

  lemma FinishMemory(fs: Fs, s: nat, made: bool, name: seq<Byte>, mem: bool, d: Outcome)
    ensures var fs' := Finish(fs, s, made, name, mem, d).0; fs'.files == fs.files && fs'.open == fs.open
  {
  }

  /** inode_create() succeeds exactly if there is memory and room. */
  lemma InodeGives(fs: Fs, live: set<nat>, s: nat, size: nat, mem: nat -> bool, on: seq<bool>)
    requires MapReady(fs, live) && Shows(fs, on)
    ensures CreateInode(fs, s, size, mem).1 <==> mem(0) && CanAllocate(fs.used, BytesToSectors(size), mem(1))
  {
    AllocateShows(fs, live, BytesToSectors(size), mem(1), on);
  }

  /** filesys_create() succeeds exactly if the file can be made and its name can be entered, and touches no handle. */
  lemma CreateGives(fs: Fs, name: seq<Byte>, size: nat, mem: nat -> bool, d: Outcome)
    requires Inv(fs) && Covered(fs) && IsName(name) && size < MAX_LENGTH
    ensures var (fs', ok) := Create(fs, name, size, mem, d);
      (ok <==> CanMake(fs.used, size, mem) && !AddFails(RootDir(fs), name, d)) && Views(fs') == Views(fs)
  {
    if mem(0) {
      MapIsReady(fs);
      AllocateShows(fs, LiveSet(fs), 1, mem(1), DiskMap(fs));
      AllocateMemory(fs, 1, mem(1));
      match Allocate(fs, 1, mem(1)).1
      case None => NoSectorFor(fs, name, size, mem, d);
      case Some(s) => SectorFor(fs, name, size, mem, d, s, AllocatedMap(fs.used, 1, mem(1), DiskMap(fs)));
    }
  }

  lemma NoSectorFor(fs: Fs, name: seq<Byte>, size: nat, mem: nat -> bool, d: Outcome)
    requires mem(0) && Allocate(fs, 1, mem(1)).1.None?
    ensures Create(fs, name, size, mem, d) == (Allocate(fs, 1, mem(1)).0, false)
  {
  }

  lemma SectorFor(fs: Fs, name: seq<Byte>, size: nat, mem: nat -> bool, d: Outcome, s: nat, on: seq<bool>)
    requires Inv(fs) && size < MAX_LENGTH && mem(0) && Allocate(fs, 1, mem(1)).1 == Some(s)
    requires var fs1 := Allocate(fs, 1, mem(1)).0; MapReady(fs1, LiveSet(fs)) && Shows(fs1, on)
    ensures var (fs', ok) := Create(fs, name, size, mem, d); var used := B.WithRange(fs.used, s, 1, true);
      && (ok <==> mem(2) && CanAllocate(used, BytesToSectors(size), mem(3)) && !AddFails(RootDir(fs), name, d))
      && fs'.files == fs.files && fs'.open == fs.open
  {
    var fs1 := TakeSector(fs, mem(1), s);
    var fs2, made := TryInode(fs, fs1, s, size, Shift(mem, 2));
    AllocateMemory(fs, 1, mem(1));
    CreateIs(fs, fs1, s, fs2, made, name, size, mem, d);
    InodeFor(fs1, fs2, LiveSet(fs), s, size, made, name, mem, d, on);
  }

  lemma InodeFor(fs1: Fs, fs2: Fs, live: set<nat>, s: nat, size: nat, made: bool, name: seq<Byte>, mem: nat -> bool, d: Outcome, on: seq<bool>)
    requires MapReady(fs1, live) && Shows(fs1, on) && CreateInode(fs1, s, size, Shift(mem, 2)) == (fs2, made)
    ensures var (fs', ok) := Finish(fs2, s, made, name, mem(4), d);
      && (ok <==> mem(2) && CanAllocate(fs1.used, BytesToSectors(size), mem(3)) && !AddFails(RootDir(fs2), name, d))
      && fs'.files == fs1.files && fs'.open == fs1.open
  {
    InodeGives(fs1, live, s, size, Shift(mem, 2), on);
    CreateInodeMemory(fs1, s, size, Shift(mem, 2));
    FinishMemory(fs2, s, made, name, mem(4), d);
    FinishWhen(fs2, s, made, name, mem(4), d);
    assert Shift(mem, 2)(0) == mem(2) && Shift(mem, 2)(1) == mem(3);
  }

  lemma FinishWhen(fs2: Fs, s: nat, made: bool, name: seq<Byte>, mem: bool, d: Outcome)
    ensures Finish(fs2, s, made, name, mem, d).1 <==> made && !AddFails(RootDir(fs2), name, d)
  {
  }

  // ----- file_read() and file_write()

  /** How many bytes a read or write transfers */
  ghost function Moved(fs: Fs, h: nat, size: int, bounce: bool): nat
    requires h in fs.files && Views(fs)[h].sector < |fs.disk|
  {
    Transferred(|FileBytes(fs, Views(fs)[h].sector)|, size, Views(fs)[h].pos, bounce)
  }

  lemma OnFile(fs: Fs, h: nat)
    requires Inv(fs) && h in fs.files
    ensures var n := Get(fs.open, fs.files[h].inode);
      Views(fs)[h].sector == n.sector < |fs.disk| && |FileBytes(fs, n.sector)| == n.length
  {
    NodeOfFile(fs, h);
    assert PlacedAt(fs.disk, fs.used, Get(fs.open, fs.files[h].inode).sector);
  }

  lemma PosSets(fs: Fs, fs': Fs, h: nat, pos: nat)
    requires h in fs.files && fs'.open == fs.open && fs'.files == fs.files[h := fs.files[h].(pos := pos)]
    ensures Views(fs') == Views(fs)[h := Views(fs)[h].(pos := pos)]
  {
  }

  lemma ReadMoves(fs: Fs, h: nat, size: int, bounce: bool)
    requires Inv(fs) && h in fs.files
    ensures Views(fs)[h].sector < |fs.disk|
    ensures var v := Views(fs); Views(Read(fs, h, size, bounce)) == v[h := v[h].(pos := v[h].pos + Moved(fs, h, size, bounce))]
  {
    OnFile(fs, h);
    PosSets(fs, Read(fs, h, size, bounce), h, fs.files[h].pos + Moved(fs, h, size, bounce));
  }

  /** Nothing is written if somebody denies it. */
  ghost function MovedIn(fs: Fs, h: nat, size: int, bounce: bool): nat
    requires h in fs.files && Views(fs)[h].sector < |fs.disk|
  {
    if Denials(fs.files, fs.files[h].inode) != {} then 0 else Moved(fs, h, size, bounce)
  }

  lemma WriteFiles(fs: Fs, h: nat, data: seq<Byte>, bounce: bool)
    requires Inv(fs) && h in fs.files && h != FREE_MAP && Views(fs)[h].sector < |fs.disk|
    ensures var f := fs.files[h]; Write(fs, h, data, bounce).files == fs.files[h := f.(pos := f.pos + MovedIn(fs, h, |data|, bounce))]
  {
    WriteReplacesItsSlice(fs, h, data, bounce);
  }

  lemma WriteMoves(fs: Fs, h: nat, data: seq<Byte>, bounce: bool)
    requires Inv(fs) && h in fs.files && h != FREE_MAP
    ensures Views(fs)[h].sector < |fs.disk|
    ensures var v := Views(fs); Views(Write(fs, h, data, bounce)) == v[h := v[h].(pos := v[h].pos + MovedIn(fs, h, |data|, bounce))]
  {
    OnFile(fs, h);
    WriteFiles(fs, h, data, bounce);
    PosSets(fs, Write(fs, h, data, bounce), h, fs.files[h].pos + MovedIn(fs, h, |data|, bounce));
  }

  // ----- all calls

  /** Other calls than close leave a handle on its inode; its position changes with its own reads, writes and seeks, and
      whether it denies writing with its own denials. The inode becomes removed when its entry is. */
  ghost predicate StaysOn(fs: Fs, a: Action, h: nat, v: View, v': View)
    requires Inv(fs) && Enabled(fs, a)
  {
    && v'.sector == v.sector
    && (v'.pos != v.pos ==> (a.DoRead? || a.DoWrite? || a.DoSeek?) && a.h == h)
    && (v'.deny != v.deny ==> a.DoDeny? && a.h == h && v'.deny == a.deny)
    && (v'.removed != v.removed ==> v'.removed && a.DoRemove? && Remove(fs, a.name, a.mem, a.d).1)
  }

  lemma HandleStays(fs: Fs, a: Action, h: nat)
    requires Inv(fs) && Covered(fs) && Enabled(fs, a) && h in fs.files && !(a.DoClose? && a.h == h)
    ensures h in Views(Step(fs, a)) && StaysOn(fs, a, h, Views(fs)[h], Views(Step(fs, a))[h])
  {
    match a
    case DoCreate(name, size, mem, d) => CreateGives(fs, name, size, mem, d);
    case DoOpen(name, mem, d) => OpenOrNot(fs, name, mem, d);
    case DoRemove(name, mem, d) => RemoveOrNot(fs, name, mem, d);
    case DoReopen(g, mem) => ReopenGives(fs, g, mem);
    case DoClose(g, mem) => CloseDrops(fs, g, mem);
    case _ => HandleMoves(fs, a, h);
  }

  lemma HandleMoves(fs: Fs, a: Action, h: nat)
    requires Inv(fs) && Enabled(fs, a) && h in fs.files && (a.DoRead? || a.DoWrite? || a.DoSeek? || a.DoDeny?)
    ensures h in Views(Step(fs, a)) && StaysOn(fs, a, h, Views(fs)[h], Views(Step(fs, a))[h])
  {
    match a
    case DoRead(g, size, bounce) => ReadMoves(fs, g, size, bounce);
    case DoWrite(g, data, bounce) => WriteMoves(fs, g, data, bounce);
    case DoSeek(g, pos) => SeekSets(fs, g, pos);
    case DoDeny(g, deny) => DenySets(fs, g, deny);
  }

  lemma OpenOrNot(fs: Fs, name: seq<Byte>, mem: nat -> bool, d: Outcome)
    requires Inv(fs)
    ensures var (fs', r) := Open(fs, name, mem, d); exists v :: Gives(fs, fs', r, v)
  {
    if k: nat :| IsEntry(RootDir(fs), name, d, k) {
      OpenGives(fs, name, mem, d, k);
    } else {
      OpenFindsNothing(fs, name, mem, d);
      assert Gives(fs, fs, None, View(0, 0, false, false));
    }
  }

  lemma RemoveOrNot(fs: Fs, name: seq<Byte>, mem: nat -> bool, d: Outcome)
    requires Inv(fs)
    ensures var (fs', ok) := Remove(fs, name, mem, d); if ok then exists s :: Views(fs') == Marked(Views(fs), s) else Views(fs') == Views(fs)
  {
    if k: nat :| IsEntry(RootDir(fs), name, d, k) {
      RemoveGives(fs, name, mem, d, k);
    } else {
      RemoveFindsNothing(fs, name, mem, d);
    }
  }
}
