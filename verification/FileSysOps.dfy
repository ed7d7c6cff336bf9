/** Opening, making, removing and writing files keeps the invariant. */
module FileSysOps {
  import opened Common
  import opened InodeIO
  import opened Directory
  import opened FileSys
  import opened FileSysDisk
  import opened FileSysTables
  import opened FileSysSafety
  import B = Bitmap

  // ----- one more reference

  /** Another file on an inode that is open */
  lemma AddRef(fs: Fs, id: nat, h: nat)
    requires CoreInv(fs) && h !in fs.files && ById(fs.open, id).Some? && id != fs.files[FREE_MAP].inode
    ensures var n := Get(fs.open, id);
      var fs' := fs.(open := Put(fs.open, n.(openCnt := n.openCnt + 1)), files := fs.files[h := File(id, 0, false)]);
      CoreInv(fs') && LiveSet(fs') == LiveSet(fs) && RootDir(fs') == RootDir(fs)
  {
    var n, files' := Get(fs.open, id), fs.files[h := File(id, 0, false)];
    var n' := n.(openCnt := n.openCnt + 1);
    assert Counted(n, fs.files) && NodeOk(n, fs.disk, RootDir(fs));
    assert Refs(files', id) == Refs(fs.files, id) + {h} && Denials(files', id) == Denials(fs.files, id);
    forall other | other != id
      ensures Refs(files', other) == Refs(fs.files, other) && Denials(files', other) == Denials(fs.files, other) {}
    PutInv(fs.open, fs.files, files', n');
    PutKeeps(fs, n', files');
  }

  /** A first file on an inode read from the disk */
  lemma FirstRef(fs: Fs, s: nat, id: nat, h: nat)
    requires CoreInv(fs) && h !in fs.files && ById(fs.open, id).None? && BySector(fs.open, s).None?
    requires 2 <= s < |fs.disk| && Listed(RootDir(fs), s)
    ensures var n := Inode(id, s, 1, 0, false, Start(fs.disk[s]), Length(fs.disk[s]));
      var fs' := fs.(open := [n] + fs.open, files := fs.files[h := File(id, 0, false)]);
      CoreInv(fs') && LiveSet(fs') == LiveSet(fs) && RootDir(fs') == RootDir(fs)
  {
    var n := Inode(id, s, 1, 0, false, Start(fs.disk[s]), Length(fs.disk[s]));
    var fs' := fs.(open := [n] + fs.open, files := fs.files[h := File(id, 0, false)]);
    PushInv(fs.open, fs.files, n, h);
    assert fs'.open[1..] == fs.open;
    assert RootDir(fs') == RootDir(fs);
    forall t ensures (t in LiveSet(fs')) == (t in LiveSet(fs)) {
      assert BySector(fs'.open, t).Some? == (t == s || BySector(fs.open, t).Some?);
    }
    forall m | m in fs'.open ensures NodeOk(m, fs.disk, RootDir(fs')) {
      assert m != n ==> NodeOk(m, fs.disk, RootDir(fs));
    }
  }

  /** The state after inode_open(), in which `h` stands for whoever holds the reference */
  function Held(fs: Fs, s: nat, mem: bool, h: nat): Fs
    requires s < |fs.disk|
  {
    match OpenInode(fs, s, mem)
    case (fs', None) => fs'
    case (fs', Some(id)) => fs'.(files := fs'.files[h := File(id, 0, false)])
  }

  ghost predicate HeldOk(fs: Fs, held: Fs, s: nat, h: nat) {
    && held.disk == fs.disk && held.used == fs.used && h in held.files
    && CoreInv(held) && LiveSet(held) == LiveSet(fs) && RootDir(held) == RootDir(fs)
    && Get(held.open, held.files[h].inode).sector == s
  }

  lemma OpenAgain(fs: Fs, i: nat, mem: bool, h: nat)
    requires CoreInv(fs) && h !in fs.files && i < |fs.open| && 2 <= fs.open[i].sector < |fs.disk|
    requires BySector(fs.open, fs.open[i].sector) == Some(i)
    ensures HeldOk(fs, Held(fs, fs.open[i].sector, mem, h), fs.open[i].sector, h)
  {
    ByIdIs(fs.open, i);
    HeldIs(fs, i, mem, h);
    HeldAgain(fs, i, h, Held(fs, fs.open[i].sector, mem, h));
  }

  lemma HeldAgain(fs: Fs, i: nat, h: nat, held: Fs)
    requires CoreInv(fs) && h !in fs.files && i < |fs.open| && 2 <= fs.open[i].sector < |fs.disk| && ById(fs.open, fs.open[i].id) == Some(i)
    requires var n := fs.open[i];
      held == fs.(open := Put(fs.open, n.(openCnt := n.openCnt + 1)), files := fs.files[h := File(n.id, 0, false)])
    ensures HeldOk(fs, held, fs.open[i].sector, h)
  {
    NotTheMap(fs, i);
    AddRefTo(fs, fs.open[i].id, h, held);
    SameIds(fs.open, held.open, fs.open[i].id);
  }

  lemma AddRefTo(fs: Fs, id: nat, h: nat, held: Fs)
    requires CoreInv(fs) && h !in fs.files && ById(fs.open, id).Some? && id != fs.files[FREE_MAP].inode
    requires var n := Get(fs.open, id);
      held == fs.(open := Put(fs.open, n.(openCnt := n.openCnt + 1)), files := fs.files[h := File(id, 0, false)])
    ensures CoreInv(held) && LiveSet(held) == LiveSet(fs) && RootDir(held) == RootDir(fs)
  {
    AddRef(fs, id, h);
  }

  lemma NotTheMap(fs: Fs, i: nat)
    requires CoreInv(fs) && i < |fs.open| && 2 <= fs.open[i].sector && ById(fs.open, fs.open[i].id) == Some(i)
    ensures FREE_MAP in fs.files && fs.open[i].id != fs.files[FREE_MAP].inode
  {
    NodeOfFile(fs, FREE_MAP);
  }

  lemma HeldIs(fs: Fs, i: nat, mem: bool, h: nat)
    requires i < |fs.open| && fs.open[i].sector < |fs.disk| && BySector(fs.open, fs.open[i].sector) == Some(i)
    requires ById(fs.open, fs.open[i].id) == Some(i)
    ensures var n := fs.open[i];
      Held(fs, n.sector, mem, h) == fs.(open := Put(fs.open, n.(openCnt := n.openCnt + 1)), files := fs.files[h := File(n.id, 0, false)])
  {
  }

  lemma OpenFirst(fs: Fs, s: nat, h: nat)
    requires CoreInv(fs) && h !in fs.files && ById(fs.open, fs.next).None? && BySector(fs.open, s).None?
    requires 2 <= s < |fs.disk| && Listed(RootDir(fs), s)
    ensures HeldOk(fs, Held(fs, s, true, h), s, h)
  {
    FirstRef(fs, s, fs.next, h);
    var held := Held(fs, s, true, h);
    var like := fs.(open := held.open, files := held.files);
    assert LiveSet(held) == LiveSet(like) && RootDir(held) == RootDir(like);
  }

  /** inode_open() on an inode with a directory entry */
  lemma OpenInodeKeeps(fs: Fs, s: nat, mem: bool, h: nat)
    requires CoreInv(fs) && h !in fs.files && ById(fs.open, fs.next).None? && s < |fs.disk| && Listed(RootDir(fs), s)
    requires OpenInode(fs, s, mem).1.Some?
    ensures HeldOk(fs, Held(fs, s, mem, h), s, h)
  {
    var e: nat :| Lists(RootDir(fs), e, s);
    assert EntryAt(RootDir(fs), |fs.disk|, e);
    var r := BySector(fs.open, s);
    if r.Some? {
      OpenAgain(fs, r.value, mem, h);
    } else {
      OpenFirst(fs, s, h);
    }
  }

  // ----- filesys_remove()

  /** Writing a record of the directory */
  lemma RecordKeeps(fs: Fs, live: set<nat>, k: nat, r: Record)
    requires 2 <= |fs.disk| && DiskInv(fs.disk, fs.used, live) && ROOT_DIR in live && k < Count(RootDir(fs))
    ensures var fs' := WithRecord(fs, k, r);
      && DiskInv(fs'.disk, fs'.used, live) && Kept(fs.disk, fs'.disk, live, ROOT_DIR)
      && RootDir(fs') == Rewritten(RootDir(fs), k, r)
  {
    var fs', b := WithRecord(fs, k, r), fs.disk[ROOT_DIR];
    StoreKeeps(fs.disk, fs.used, live, ROOT_DIR, ENTRY * k, r);
    KeptInv(fs.disk, fs'.disk, fs.used, live, ROOT_DIR);
    StoredRecord(fs.disk, Start(b), Length(b), k, r);
  }

  /** `fs'` is `fs` with entry `k` of the directory erased and inode `id` marked as removed. */
  function ErasedFs(fs: Fs, k: nat, id: nat): Fs
    requires k < Count(RootDir(fs))
  {
    var fs1 := WithRecord(fs, k, FreedRecord(RecordAt(RootDir(fs), k)));
    fs1.(open := Put(fs1.open, Get(fs1.open, id).(removed := true)))
  }

  /** What becomes of the disk and the directory */
  lemma ErasedRecord(fs: Fs, k: nat, id: nat)
    requires CoreInv(fs) && k < Count(RootDir(fs)) && InUse(RecordAt(RootDir(fs), k))
    ensures var fs', s := ErasedFs(fs, k, id), SectorOf(RecordAt(RootDir(fs), k));
      && Kept(fs.disk, fs'.disk, LiveSet(fs), ROOT_DIR) && DiskInv(fs'.disk, fs.used, LiveSet(fs))
      && DirInv(RootDir(fs'), |fs.disk|) && RootDir(fs') == Rewritten(RootDir(fs), k, FreedRecord(RecordAt(RootDir(fs), k)))
      && forall t {:trigger Listed(RootDir(fs'), t)} :: Listed(RootDir(fs'), t) == (Listed(RootDir(fs), t) && t != s)
  {
    var dir, fs' := RootDir(fs), ErasedFs(fs, k, id);
    var r := FreedRecord(RecordAt(dir, k));
    assert Live(fs, ROOT_DIR);
    RecordKeeps(fs, LiveSet(fs), k, r);
    Erased(dir, |fs.disk|, k);
    assert RootDir(fs') == Rewritten(dir, k, r);
  }

  lemma ErasedLive(fs: Fs, k: nat, id: nat)
    requires CoreInv(fs) && k < Count(RootDir(fs)) && InUse(RecordAt(RootDir(fs), k)) && ById(fs.open, id).Some?
    requires Get(fs.open, id).sector == SectorOf(RecordAt(RootDir(fs), k))
    ensures LiveSet(ErasedFs(fs, k, id)) == LiveSet(fs)
  {
    var fs' := ErasedFs(fs, k, id);
    ErasedRecord(fs, k, id);
    SameLive(fs, fs'.open);
    OpenStaysLive(fs, fs', Get(fs.open, id).sector);
  }

  /** An open inode is live without its directory entry. */
  lemma OpenStaysLive(fs: Fs, fs': Fs, s: nat)
    requires |fs'.disk| == |fs.disk| && BySector(fs.open, s).Some?
    requires forall t {:trigger BySector(fs'.open, t)} :: BySector(fs'.open, t).Some? == BySector(fs.open, t).Some?
    requires forall t {:trigger Listed(RootDir(fs'), t)} :: Listed(RootDir(fs'), t) == (Listed(RootDir(fs), t) && t != s)
    ensures LiveSet(fs') == LiveSet(fs)
  {
    forall t ensures (t in LiveSet(fs')) == (t in LiveSet(fs)) {
      assert Listed(RootDir(fs'), t) == (Listed(RootDir(fs), t) && t != s);
    }
  }

  lemma ErasedNodes(fs: Fs, k: nat, id: nat)
    requires CoreInv(fs) && k < Count(RootDir(fs)) && InUse(RecordAt(RootDir(fs), k)) && ById(fs.open, id).Some?
    requires Get(fs.open, id).sector == SectorOf(RecordAt(RootDir(fs), k))
    ensures var fs' := ErasedFs(fs, k, id); NodesInv(fs'.open, fs'.disk, RootDir(fs'))
  {
    var dir, fs', n := RootDir(fs), ErasedFs(fs, k, id), Get(fs.open, id);
    ErasedRecord(fs, k, id);
    assert EntryAt(dir, |fs.disk|, k);
    forall m | m in fs'.open ensures NodeOk(m, fs'.disk, RootDir(fs')) {
      var was := if m in fs.open then m else n;
      assert NodeOk(was, fs.disk, dir) && Live(fs, was.sector);
      assert was.sector in LiveSet(fs);
      assert m !in fs.open ==> m == n.(removed := true);
    }
  }

  lemma ErasedTable(fs: Fs, id: nat)
    requires TableInv(fs.open, fs.files) && ById(fs.open, id).Some?
    ensures TableInv(Put(fs.open, Get(fs.open, id).(removed := true)), fs.files)
  {
    var n := Get(fs.open, id);
    assert Counted(n, fs.files);
    assert Counted(n.(removed := true), fs.files) && OtherRefs(fs.files, fs.files, n.id);
    PutInv(fs.open, fs.files, fs.files, n.(removed := true));
  }

  lemma EraseKeeps(fs: Fs, k: nat, id: nat)
    requires CoreInv(fs) && k < Count(RootDir(fs)) && InUse(RecordAt(RootDir(fs), k)) && ById(fs.open, id).Some?
    requires Get(fs.open, id).sector == SectorOf(RecordAt(RootDir(fs), k))
    ensures var fs' := ErasedFs(fs, k, id); var s := Get(fs.open, id).sector;
      && CoreInv(fs') && LiveSet(fs') == LiveSet(fs) && Preserves(fs, fs', 1)
      && RootDir(fs') == Rewritten(RootDir(fs), k, FreedRecord(RecordAt(RootDir(fs), k)))
      && s < |fs.disk| == |fs'.disk| && fs'.disk[s] == fs.disk[s]
  {
    ErasedRecord(fs, k, id);
    ErasedLive(fs, k, id);
    ErasedTable(fs, id);
    ErasedNodes(fs, k, id);
    NodeIsLive(fs, id);
    RootKept(fs, ErasedFs(fs, k, id).disk, LiveSet(fs), ROOT_DIR);
  }

  lemma NodeIsLive(fs: Fs, id: nat)
    requires CoreInv(fs) && ById(fs.open, id).Some?
    ensures Get(fs.open, id).sector < |fs.disk| && Get(fs.open, id).sector in LiveSet(fs)
  {
    assert NodeOk(Get(fs.open, id), fs.disk, RootDir(fs));
    assert Live(fs, Get(fs.open, id).sector);
  }

  // ----- whole operations on names and files

  lemma CloseInodeNext(fs: Fs, id: nat, mem: nat -> bool)
    requires NextInv(fs)
    ensures NextInv(CloseInode(fs, id, mem)) && CloseInode(fs, id, mem).files == fs.files
  {
    var n, open' := Get(fs.open, id), CloseInode(fs, id, mem).open;
    forall m | m in open' ensures m.id < fs.next {
      assert m in fs.open || (ById(fs.open, id).Some? && n in fs.open && m.id == n.id);
    }
  }

  /** Giving up a reference is closing the file that stands for it. */
  lemma ReferenceClosed(fs: Fs, id: nat, h: nat, mem: nat -> bool)
    requires h !in fs.files
    ensures CloseInode(fs, id, mem) == Close(fs.(files := fs.files[h := File(id, 0, false)]), h, mem)
  {
    assert fs.files[h := File(id, 0, false)] - {h} == fs.files;
  }

  lemma NoSuchId(fs: Fs)
    requires NextInv(fs)
    ensures ById(fs.open, fs.next).None? && fs.next !in fs.files
  {
    forall i | 0 <= i < |fs.open| ensures fs.open[i].id != fs.next { assert fs.open[i] in fs.open; }
  }

  lemma CloseFileKeeps(fs: Fs, h: nat, mem: nat -> bool)
    requires Inv(fs) && h in fs.files && h != FREE_MAP
    ensures Inv(Close(fs, h, mem)) && Preserves(fs, Close(fs, h, mem), 1) && LiveSet(Close(fs, h, mem)) <= LiveSet(fs)
  {
    var fs1 := Deny(fs, h, false);
    DenyKeeps(fs, h, false);
    CloseKeeps(fs1, h, mem);
    assert Close(fs1, h, mem) == Close(fs, h, mem);
    DenyNext(fs, h, false);
    CloseInodeNext(fs1.(files := fs1.files - {h}), fs.files[h].inode, mem);
  }

  lemma DenyNext(fs: Fs, h: nat, deny: bool)
    requires NextInv(fs) && h in fs.files
    ensures NextInv(Deny(fs, h, deny))
  {
    var n, open' := Get(fs.open, fs.files[h].inode), Deny(fs, h, deny).open;
    forall m | m in open' ensures m.id < fs.next {
      assert m in fs.open || (ById(fs.open, n.id).Some? && n in fs.open && m.id == n.id);
    }
  }

  lemma OpenInodeNext(fs: Fs, s: nat, mem: bool)
    requires NextInv(fs) && s < |fs.disk|
    ensures NextInv(OpenInode(fs, s, mem).0)
  {
    var open' := OpenInode(fs, s, mem).0.open;
    var r := BySector(fs.open, s);
    if r.Some? {
      assert fs.open[r.value] in fs.open;
      forall m | m in open' ensures m.id < fs.next { assert m in fs.open || m.id == fs.open[r.value].id; }
    }
  }

  /** file_open() on a new reference, whether or not there is memory for the file */
  lemma NewFileKeeps(fs: Fs, id: nat, mem: nat -> bool)
    requires NextInv(fs) && FREE_MAP in fs.files && CoreInv(fs.(files := fs.files[fs.next := File(id, 0, false)]))
    ensures var fs' := NewFile(fs, id, mem).0; var held := fs.(files := fs.files[fs.next := File(id, 0, false)]);
      Inv(fs') && Preserves(held, fs', 1) && LiveSet(fs') <= LiveSet(held)
  {
    NoSuchId(fs);
    var h := fs.next;
    var held := fs.(files := fs.files[h := File(id, 0, false)]);
    var fs' := NewFile(fs, id, mem).0;
    if mem(0) {
      var more := held.(next := fs.next + 1);
      assert fs' == more && LiveSet(more) == LiveSet(held) && RootDir(more) == RootDir(held);
      KeptSame(fs.disk, fs.used, LiveSet(held), 1);
    } else {
      ReferenceClosed(fs, id, h, Shift(mem, 1));
      CloseKeeps(held, h, Shift(mem, 1));
      CloseInodeNext(fs, id, Shift(mem, 1));
    }
  }

  /** inode_reopen() */
  function Reopened(fs: Fs, id: nat): Fs {
    var n := Get(fs.open, id);
    fs.(open := Put(fs.open, n.(openCnt := n.openCnt + 1)))
  }

  /** The new reference, held by a file that nobody has */
  lemma ReopenHolds(fs: Fs, h: nat)
    requires Inv(fs) && h in fs.files && h != FREE_MAP
    ensures var fs1, id := Reopened(fs, fs.files[h].inode), fs.files[h].inode;
      var held := fs1.(files := fs1.files[fs.next := File(id, 0, false)]);
      && fs.next !in fs.files && fs.next != FREE_MAP && NextInv(fs1) && CoreInv(held) && LiveSet(held) == LiveSet(fs) && RootDir(fs1) == RootDir(fs)
      && Get(fs.open, id).id == id
  {
    NoSuchId(fs);
    NodeOfFile(fs, h);
    NodeOfFile(fs, FREE_MAP);
    var n, fs1 := Get(fs.open, fs.files[h].inode), Reopened(fs, fs.files[h].inode);
    AddRef(fs, n.id, fs.next);
    forall m | m in fs1.open ensures m.id < fs.next { assert m in fs.open || m.id == n.id; }
  }

  lemma ReopenIs(fs: Fs, h: nat, mem: nat -> bool)
    requires h in fs.files && Get(fs.open, fs.files[h].inode).id == fs.files[h].inode
    ensures Reopen(fs, h, mem) == NewFile(Reopened(fs, fs.files[h].inode), fs.files[h].inode, mem)
  {
  }

  lemma ReopenKeeps(fs: Fs, h: nat, mem: nat -> bool)
    requires Inv(fs) && h in fs.files && h != FREE_MAP
    ensures var fs' := Reopen(fs, h, mem).0; Inv(fs') && Preserves(fs, fs', 1)
  {
    ReopenHolds(fs, h);
    ReopenIs(fs, h, mem);
    NewFileKeeps(Reopened(fs, fs.files[h].inode), fs.files[h].inode, mem);
  }

  lemma FoundIsListed(fs: Fs, k: nat)
    requires CoreInv(fs) && k < Count(RootDir(fs)) && InUse(RecordAt(RootDir(fs), k))
    ensures var s := SectorOf(RecordAt(RootDir(fs), k)); 2 <= s < |fs.disk| && Listed(RootDir(fs), s)
  {
    assert EntryAt(RootDir(fs), |fs.disk|, k);
    assert Lists(RootDir(fs), k, SectorOf(RecordAt(RootDir(fs), k)));
  }

  /** inode_open() of a listed inode gives a reference, here held by a file `h` that nobody has. */
  lemma Reference(fs: Fs, s: nat, mem: bool) returns (fs1: Fs, id: nat, h: nat)
    requires Inv(fs) && s < |fs.disk| && Listed(RootDir(fs), s) && OpenInode(fs, s, mem).1.Some?
    ensures OpenInode(fs, s, mem) == (fs1, Some(id)) && NextInv(fs1) && h == fs1.next
    ensures fs1.files == fs.files && h !in fs.files && h != FREE_MAP
    ensures HeldOk(fs, fs1.(files := fs1.files[h := File(id, 0, false)]), s, h)
    ensures id == match BySector(fs.open, s) case None => fs.next case Some(i) => fs.open[i].id
  {
    var (f, r) := OpenInode(fs, s, mem);
    fs1, id, h := f, r.value, f.next;
    NoSuchId(fs);
    OpenInodeNext(fs, s, mem);
    NoSuchId(fs1);
    OpenInodeKeeps(fs, s, mem, h);
  }

  lemma OpenKeeps(fs: Fs, name: seq<Byte>, mem: nat -> bool, d: Outcome)
    requires Inv(fs)
    ensures var fs' := Open(fs, name, mem, d).0; Inv(fs') && Preserves(fs, fs', 1)
  {
    KeptSame(fs.disk, fs.used, LiveSet(fs), 1);
    var found := Sought(RootDir(fs), name, d.lookup);
    if mem(0) && found.Some? {
      FoundIsListed(fs, found.value);
      var s := SectorOf(RecordAt(RootDir(fs), found.value));
      if OpenInode(fs, s, mem(1)).1.Some? {
        var fs1, id, h := Reference(fs, s, mem(1));
        NewFileKeeps(fs1, id, Shift(mem, 2));
      }
    }
  }

  /** dir_remove() after it has found the entry and opened the inode: what it does is erase the entry and close `h`. */
  lemma RemoveOpened(fs1: Fs, k: nat, id: nat, h: nat, mem: nat -> bool) returns (erased: Fs)
    requires h !in fs1.files && ROOT_DIR < |fs1.disk|
    requires var held := fs1.(files := fs1.files[h := File(id, 0, false)]);
      && CoreInv(held) && k < Count(RootDir(held)) && InUse(RecordAt(RootDir(held), k))
      && Get(held.open, id).sector == SectorOf(RecordAt(RootDir(held), k))
    ensures RootDir(fs1) == RootDir(fs1.(files := fs1.files[h := File(id, 0, false)]))
    ensures erased == ErasedFs(fs1, k, id).(files := fs1.files[h := File(id, 0, false)])
    ensures var held := fs1.(files := fs1.files[h := File(id, 0, false)]);
      && CoreInv(erased) && LiveSet(erased) == LiveSet(held) && Preserves(held, erased, 1)
      && RootDir(erased) == Rewritten(RootDir(fs1), k, FreedRecord(RecordAt(RootDir(fs1), k)))
      && erased.files == held.files && erased.used == fs1.used && ById(erased.open, id) == ById(fs1.open, id)
      && Get(erased.open, id) == Get(fs1.open, id).(removed := true) && ById(fs1.open, id).Some?
      && var s := Get(fs1.open, id).sector; s < |fs1.disk| == |erased.disk| && erased.disk[s] == fs1.disk[s]
    ensures CloseInode(ErasedFs(fs1, k, id), id, mem) == Close(erased, h, mem)
  {
    var held := fs1.(files := fs1.files[h := File(id, 0, false)]);
    NodeOfFile(held, h);
    EraseKeeps(held, k, id);
    var fs2 := ErasedFs(fs1, k, id);
    erased := ErasedFs(held, k, id);
    SameIds(held.open, erased.open, id);
    assert erased == fs2.(files := fs2.files[h := File(id, 0, false)]);
    ReferenceClosed(fs2, id, h, mem);
  }

  lemma ErasedNext(fs: Fs, k: nat, id: nat)
    requires NextInv(fs) && k < Count(RootDir(fs))
    ensures NextInv(ErasedFs(fs, k, id))
  {
    var n, open' := Get(fs.open, id), ErasedFs(fs, k, id).open;
    forall m | m in open' ensures m.id < fs.next {
      assert m in fs.open || (ById(fs.open, id).Some? && n in fs.open && m.id == n.id);
    }
  }

  lemma RemoveKeeps(fs: Fs, name: seq<Byte>, mem: nat -> bool, d: Outcome)
    requires Inv(fs)
    ensures var fs' := Remove(fs, name, mem, d).0; Inv(fs') && Preserves(fs, fs', 1)
  {
    KeptSame(fs.disk, fs.used, LiveSet(fs), 1);
    var found := Sought(RootDir(fs), name, d.lookup);
    if mem(0) && found.Some? {
      var k := found.value;
      FoundIsListed(fs, k);
      var s := SectorOf(RecordAt(RootDir(fs), k));
      if OpenInode(fs, s, mem(1)).1.Some? {
        var fs1, id, h := Reference(fs, s, mem(1));
        if d.write {
          RemovedKeeps(fs, fs1, k, id, h, Shift(mem, 2));
        } else {
          GivenUpKeeps(fs, fs1, id, h, s, Shift(mem, 2));
        }
      }
    }
  }

  /** The reference to the inode is given up again, the entry not having been erased. */
  lemma GivenUpKeeps(fs: Fs, fs1: Fs, id: nat, h: nat, s: nat, mem: nat -> bool)
    requires NextInv(fs1) && h !in fs1.files && h != FREE_MAP
    requires HeldOk(fs, fs1.(files := fs1.files[h := File(id, 0, false)]), s, h)
    ensures var fs' := CloseInode(fs1, id, mem); Inv(fs') && Preserves(fs, fs', 1)
  {
    var held := fs1.(files := fs1.files[h := File(id, 0, false)]);
    ReferenceClosed(fs1, id, h, mem);
    CloseKeeps(held, h, mem);
    CloseInodeNext(fs1, id, mem);
  }

  lemma RemovedKeeps(fs: Fs, fs1: Fs, k: nat, id: nat, h: nat, mem: nat -> bool)
    requires NextInv(fs1) && h !in fs1.files && h != FREE_MAP && ROOT_DIR < |fs.disk| && k < Count(RootDir(fs)) && InUse(RecordAt(RootDir(fs), k))
    requires HeldOk(fs, fs1.(files := fs1.files[h := File(id, 0, false)]), SectorOf(RecordAt(RootDir(fs), k)), h)
    ensures k < Count(RootDir(fs1))
    ensures var fs' := CloseInode(ErasedFs(fs1, k, id), id, mem); Inv(fs') && Preserves(fs, fs', 1)
  {
    var held := fs1.(files := fs1.files[h := File(id, 0, false)]);
    assert RootDir(fs1) == RootDir(held);
    var erased := RemoveOpened(fs1, k, id, h, mem);
    var fs' := CloseInode(ErasedFs(fs1, k, id), id, mem);
    CloseKeeps(erased, h, mem);
    ErasedNext(fs1, k, id);
    CloseInodeNext(ErasedFs(fs1, k, id), id, mem);
    forall t | 2 <= t && t in LiveSet(fs) && t in LiveSet(fs') ensures KeepsFile(fs.disk, fs'.disk, t) {
      assert KeepsFile(fs.disk, erased.disk, t) && KeepsFile(erased.disk, fs'.disk, t);
    }
  }

  // ----- reading, writing and seeking

  lemma PosKeeps(fs: Fs, h: nat, pos: nat)
    requires Inv(fs) && h in fs.files
    ensures var fs' := Seek(fs, h, pos); Inv(fs') && LiveSet(fs') == LiveSet(fs) && fs'.disk == fs.disk
  {
    var files' := fs.files[h := fs.files[h].(pos := pos)];
    var fs' := fs.(files := files');
    forall id ensures Refs(files', id) == Refs(fs.files, id) && Denials(files', id) == Denials(fs.files, id) {}
    forall n | n in fs.open ensures Counted(n, files') { assert Counted(n, fs.files); }
    forall g: nat ensures FileAt(fs.open, files', g) { assert FileAt(fs.open, fs.files, g); }
    assert LiveSet(fs') == LiveSet(fs) && RootDir(fs') == RootDir(fs);
  }

  /** Data goes into one file. */
  lemma StoreFile(fs: Fs, s: nat, offset: nat, data: seq<Byte>)
    requires CoreInv(fs) && 2 <= s < |fs.disk| && s in LiveSet(fs) && (data == [] || offset + |data| <= Length(fs.disk[s]))
    ensures var fs' := fs.(disk := Stored(fs.disk, Start(fs.disk[s]), offset, data));
      CoreInv(fs') && LiveSet(fs') == LiveSet(fs) && Preserves(fs, fs', s)
  {
    var fs' := fs.(disk := Stored(fs.disk, Start(fs.disk[s]), offset, data));
    StoreKeeps(fs.disk, fs.used, LiveSet(fs), s, offset, data);
    KeptInv(fs.disk, fs'.disk, fs.used, LiveSet(fs), s);
    KeptCore(fs, fs', s);
  }

  /** file_write() stores the data and moves on. */
  lemma WriteIs(fs: Fs, h: nat, data: seq<Byte>, mem: bool)
    requires CoreInv(fs) && h in fs.files && h != FREE_MAP
    ensures var f, n := fs.files[h], Get(fs.open, fs.files[h].inode); var cnt := Written(n, |data|, f.pos, mem);
      && 2 <= n.sector < |fs.disk| && n.sector in LiveSet(fs) && (cnt == 0 || f.pos + cnt <= Length(fs.disk[n.sector]))
      && Write(fs, h, data, mem)
         == Seek(fs.(disk := Stored(fs.disk, Start(fs.disk[n.sector]), f.pos, data[..cnt])), h, f.pos + cnt)
  {
    NodeOfFile(fs, h);
  }

  lemma StoredThenMoved(fs: Fs, fs1: Fs, h: nat, pos: nat, s: nat)
    requires CoreInv(fs1) && NextInv(fs) && SameMemory(fs, fs1) && LiveSet(fs1) == LiveSet(fs) && Preserves(fs, fs1, s) && h in fs.files
    ensures var fs' := Seek(fs1, h, pos); Inv(fs') && LiveSet(fs') == LiveSet(fs) && Preserves(fs, fs', s)
  {
    PosKeeps(fs1, h, pos);
  }

  lemma WriteKeeps(fs: Fs, h: nat, data: seq<Byte>, mem: bool)
    requires Inv(fs) && h in fs.files && h != FREE_MAP
    ensures var fs' := Write(fs, h, data, mem);
      Inv(fs') && LiveSet(fs') == LiveSet(fs) && Preserves(fs, fs', Get(fs.open, fs.files[h].inode).sector)
  {
    WriteIs(fs, h, data, mem);
    var f, n := fs.files[h], Get(fs.open, fs.files[h].inode);
    WrittenKeeps(fs, h, n.sector, f.pos, data[..Written(n, |data|, f.pos, mem)], Write(fs, h, data, mem));
  }

  lemma WrittenKeeps(fs: Fs, h: nat, s: nat, pos: nat, data: seq<Byte>, fs': Fs)
    requires Inv(fs) && h in fs.files && 2 <= s < |fs.disk| && s in LiveSet(fs) && (data == [] || pos + |data| <= Length(fs.disk[s]))
    requires fs' == Seek(fs.(disk := Stored(fs.disk, Start(fs.disk[s]), pos, data)), h, pos + |data|)
    ensures Inv(fs') && LiveSet(fs') == LiveSet(fs) && Preserves(fs, fs', s)
  {
    StoreFile(fs, s, pos, data);
    StoredThenMoved(fs, fs.(disk := Stored(fs.disk, Start(fs.disk[s]), pos, data)), h, pos + |data|, s);
  }

  // ----- filesys_create()

  /** A sector that was not used belongs to nobody. */
  lemma FreeIsUnowned(disk: seq<Sector>, used: seq<bool>, live: set<nat>, s: nat)
    requires DiskInv(disk, used, live) && s < |used| && !used[s]
    ensures s !in live && Unowned(disk, live, s, 1)
  {
    forall t: nat, k: nat {:trigger Owns(disk[t], t, k)} | t in live && t < |disk| && s <= k < s + 1
      ensures !Owns(disk[t], t, k)
    {
      assert PlacedAt(disk, used, t);
    }
    forall t | t in live ensures t != s { assert PlacedAt(disk, used, t) && Owns(disk[t], t, t); }
  }

  /** What the first two steps of filesys_create() leave behind when they succeed */
  ghost predicate Halfway(fs: Fs, fs2: Fs, s: nat, size: nat) {
    && SameMemory(fs, fs2) && 2 <= s < |fs2.disk| && s !in LiveSet(fs)
    && Kept(fs.disk, fs2.disk, LiveSet(fs), FREE_MAP) && DiskInv(fs2.disk, fs2.used, LiveSet(fs) + {s})
    && Length(fs2.disk[s]) == size && Bytes(fs2.disk, fs2.disk[s]) == seq(size, _ => 0)
  }

  /** filesys_create() failing after it has taken sector `s` */
  lemma GiveBack(fs: Fs, fs2: Fs, s: nat, live': set<nat>, mem: bool)
    requires Inv(fs) && SameMemory(fs, fs2) && Kept(fs.disk, fs2.disk, LiveSet(fs), FREE_MAP)
    requires DiskInv(fs2.disk, fs2.used, live') && LiveSet(fs) <= live' && MapOk(fs2, LiveSet(fs))
    requires Unowned(fs2.disk, LiveSet(fs), s, 1)
    ensures var fs' := Release(fs2, s, 1, mem); Inv(fs') && LiveSet(fs') == LiveSet(fs) && Preserves(fs, fs', 1)
  {
    var fs' := Release(fs2, s, 1, mem);
    ReleaseKeeps(fs2, live', LiveSet(fs), s, 1, mem);
    KeptTwice(fs.disk, fs2.disk, fs'.disk, LiveSet(fs), FREE_MAP);
    KeptCore(fs, fs', FREE_MAP);
  }

  /** One more directory entry, one more live inode; the one whose entry is overwritten stays live if it is open. */
  lemma OneMoreLive(fs: Fs, fs': Fs, s: nat, k: nat)
    requires |fs'.disk| == |fs.disk| && SameMemory(fs, fs') && s < |fs.disk| && DirInv(RootDir(fs), |fs.disk|) && k < Count(RootDir(fs))
    requires forall t {:trigger Listed(RootDir(fs'), t)} ::
      Listed(RootDir(fs'), t) == (t == s || (Listed(RootDir(fs), t) && !Lists(RootDir(fs), k, t)))
    ensures LiveSet(fs') == LiveSet(fs) - Ousted(fs, k) + {s}
  {
    forall t ensures (t in LiveSet(fs')) == (t in LiveSet(fs) - Ousted(fs, k) + {s}) {
      assert Listed(RootDir(fs'), t) == (t == s || (Listed(RootDir(fs), t) && !Lists(RootDir(fs), k, t)));
      assert Lists(RootDir(fs), k, t) ==> Listed(RootDir(fs), t) && EntryAt(RootDir(fs), |fs.disk|, k);
    }
  }

  /** The inode that is not live any more when record `k` is overwritten: the one that it lists, unless it is open */
  ghost function Ousted(fs: Fs, k: nat): set<nat> {
    set t | 0 <= t < |fs.disk| && Lists(RootDir(fs), k, t) && BySector(fs.open, t).None?
  }

  /** What happens in the directory when filesys_create() succeeds */
  lemma EnterName(fs: Fs, fs2: Fs, s: nat, size: nat, name: seq<Byte>, d: Outcome)
    requires Inv(fs) && Halfway(fs, fs2, s, size) && IsName(name) && RootDir(fs2) == RootDir(fs)
    requires !AddFails(RootDir(fs2), name, d)
    ensures var (k, r) := Addition(RootDir(fs2), name, s, d).value; var fs' := WithRecord(fs2, k, r);
      && SameMemory(fs, fs') && DiskInv(fs'.disk, fs'.used, LiveSet(fs) + {s})
      && Kept(fs2.disk, fs'.disk, LiveSet(fs) + {s}, ROOT_DIR)
      && DirInv(RootDir(fs'), |fs'.disk|) && RootDir(fs') == Rewritten(RootDir(fs), k, r)
      && Matches(RootDir(fs'), k, name) && SectorOf(RecordAt(RootDir(fs'), k)) == s
      && forall t {:trigger Listed(RootDir(fs'), t)} ::
           Listed(RootDir(fs'), t) == (t == s || (Listed(RootDir(fs), t) && !Lists(RootDir(fs), k, t)))
  {
    var (k, r) := Addition(RootDir(fs2), name, s, d).value;
    assert Live(fs, ROOT_DIR);
    assert !Live(fs, s);
    RecordKeeps(fs2, LiveSet(fs) + {s}, k, r);
    Added(RootDir(fs), |fs.disk|, name, s, d);
  }

  lemma CreatedNodes(fs: Fs, fs2: Fs, fs': Fs, s: nat)
    requires CoreInv(fs) && s !in LiveSet(fs) && s < |fs.disk|
    requires Kept(fs.disk, fs2.disk, LiveSet(fs), FREE_MAP) && Kept(fs2.disk, fs'.disk, LiveSet(fs) + {s}, ROOT_DIR)
    requires forall t {:trigger Listed(RootDir(fs'), t)} :: Listed(RootDir(fs'), t) ==> t == s || Listed(RootDir(fs), t)
    ensures NodesInv(fs.open, fs'.disk, RootDir(fs')) && Preserves(fs, fs', 1)
  {
    forall n | n in fs.open ensures NodeOk(n, fs'.disk, RootDir(fs')) {
      assert NodeOk(n, fs.disk, RootDir(fs)) && Live(fs, n.sector);
      assert n.sector in LiveSet(fs) && n.sector in LiveSet(fs) + {s};
    }
    forall t | 2 <= t && t in LiveSet(fs) && t in LiveSet(fs') ensures KeepsFile(fs.disk, fs'.disk, t) {
      assert KeepsFile(fs.disk, fs2.disk, t) && KeepsFile(fs2.disk, fs'.disk, t);
    }
  }

  /** The new file is what it should be. */
  lemma EnteredFile(fs: Fs, fs2: Fs, fs': Fs, s: nat, size: nat, name: seq<Byte>, d: Outcome)
    requires Halfway(fs, fs2, s, size) && Kept(fs2.disk, fs'.disk, LiveSet(fs) + {s}, ROOT_DIR)
    requires var k := Slot(RootDir(fs), d.search);
      k < Count(RootDir(fs')) && Matches(RootDir(fs'), k, name) && SectorOf(RecordAt(RootDir(fs'), k)) == s
    ensures Created(fs, fs', name, size, d)
  {
    assert s in LiveSet(fs) + {s};
    assert KeepsFile(fs2.disk, fs'.disk, s);
    KeptBytes(fs2.disk, fs'.disk, s);
  }

  /** The invariant holds again. */
  lemma EnteredInv(fs: Fs, fs2: Fs, fs': Fs, s: nat, size: nat, k: nat)
    requires Inv(fs) && Halfway(fs, fs2, s, size) && SameMemory(fs, fs') && k < Count(RootDir(fs))
    requires DiskInv(fs'.disk, fs'.used, LiveSet(fs) + {s}) && Kept(fs2.disk, fs'.disk, LiveSet(fs) + {s}, ROOT_DIR)
    requires DirInv(RootDir(fs'), |fs'.disk|)
    requires forall t {:trigger Listed(RootDir(fs'), t)} ::
      Listed(RootDir(fs'), t) == (t == s || (Listed(RootDir(fs), t) && !Lists(RootDir(fs), k, t)))
    ensures Inv(fs') && Preserves(fs, fs', 1) && LiveSet(fs') == LiveSet(fs) - Ousted(fs, k) + {s}
  {
    OneMoreLive(fs, fs', s, k);
    MapChange(fs'.disk, fs'.used, fs'.used, LiveSet(fs) + {s}, LiveSet(fs'));
    CreatedNodes(fs, fs2, fs', s);
    assert Live(fs, ROOT_DIR);
    assert ROOT_DIR in LiveSet(fs) && ROOT_DIR in LiveSet(fs) + {s};
  }

  lemma CreateSucceeds(fs: Fs, fs2: Fs, s: nat, size: nat, name: seq<Byte>, d: Outcome)
    requires Inv(fs) && Halfway(fs, fs2, s, size) && IsName(name) && RootDir(fs2) == RootDir(fs)
    requires !AddFails(RootDir(fs2), name, d)
    ensures var (k, r) := Addition(RootDir(fs2), name, s, d).value; var fs' := WithRecord(fs2, k, r);
      && Inv(fs') && Preserves(fs, fs', 1) && Created(fs, fs', name, size, d)
  {
    var (k, r) := Addition(RootDir(fs2), name, s, d).value;
    var fs' := WithRecord(fs2, k, r);
    EnterName(fs, fs2, s, size, name, d);
    EnteredFile(fs, fs2, fs', s, size, name, d);
    EnteredInv(fs, fs2, fs', s, size, k);
  }

  /** The result of filesys_create(): under the name there is a file of zeros, which was not live before. */
  ghost predicate Created(fs: Fs, fs': Fs, name: seq<Byte>, size: nat, d: Outcome) {
    var k := Slot(RootDir(fs), d.search);
    && k < Count(RootDir(fs')) && Matches(RootDir(fs'), k, name)
    && var s := SectorOf(RecordAt(RootDir(fs'), k));
    && s !in LiveSet(fs) && s < |fs'.disk| && Bytes(fs'.disk, fs'.disk[s]) == seq(size, _ => 0)
  }

  /** free_map_allocate() for the inode of a new file */
  ghost predicate SectorTaken(fs: Fs, fs1: Fs, s: nat) {
    && SameMemory(fs, fs1) && Kept(fs.disk, fs1.disk, LiveSet(fs), FREE_MAP) && 2 <= s < |fs.disk| == |fs.used|
    && DiskInv(fs1.disk, fs1.used, LiveSet(fs)) && MapOk(fs1, LiveSet(fs)) && Unowned(fs1.disk, LiveSet(fs), s, 1)
    && fs1.used == B.WithRange(fs.used, s, 1, true) && !fs.used[s] && s !in LiveSet(fs)
  }

  lemma TakeSector(fs: Fs, mem: bool, s: nat) returns (fs1: Fs)
    requires Inv(fs) && Allocate(fs, 1, mem).1 == Some(s)
    ensures Allocate(fs, 1, mem) == (fs1, Some(s)) && SectorTaken(fs, fs1, s)
  {
    fs1 := Allocate(fs, 1, mem).0;
    MapIsOk(fs);
    AllocateKeeps(fs, LiveSet(fs), 1, mem);
    assert B.AllAre(fs.used, s, 1, false);
    TakenSector(fs, s);
    assert Unowned(fs1.disk, LiveSet(fs), s, 1);
  }

  /** No sector is to be had. */
  lemma NoSector(fs: Fs, mem: bool)
    requires Inv(fs) && Allocate(fs, 1, mem).1.None?
    ensures var fs1 := Allocate(fs, 1, mem).0;
      && Inv(fs1) && LiveSet(fs1) == LiveSet(fs) && Preserves(fs, fs1, 1) && RootDir(fs1) == RootDir(fs)
      && Kept(fs.disk, fs1.disk, LiveSet(fs), FREE_MAP) && fs1.used == fs.used && SameMemory(fs, fs1)
  {
    MapIsOk(fs);
    AllocateKeeps(fs, LiveSet(fs), 1, mem);
    KeptCore(fs, Allocate(fs, 1, mem).0, FREE_MAP);
  }

  /** What there is after inode_create(), which has `made` an inode in sector `s` or not */
  ghost predicate InodeTried(fs: Fs, fs2: Fs, s: nat, size: nat, made: bool) {
    && SameMemory(fs, fs2) && Kept(fs.disk, fs2.disk, LiveSet(fs), FREE_MAP) && RootDir(fs2) == RootDir(fs)
    && MapOk(fs2, LiveSet(fs)) && Unowned(fs2.disk, LiveSet(fs), s, 1)
    && DiskInv(fs2.disk, fs2.used, if made then LiveSet(fs) + {s} else LiveSet(fs))
    && (made ==> Halfway(fs, fs2, s, size))
  }

  lemma TryInode(fs: Fs, fs1: Fs, s: nat, size: nat, mem: nat -> bool) returns (fs2: Fs, made: bool)
    requires Inv(fs) && size < MAX_LENGTH && SectorTaken(fs, fs1, s)
    ensures (fs2, made) == CreateInode(fs1, s, size, mem) && InodeTried(fs, fs2, s, size, made)
  {
    var live := LiveSet(fs);
    CreateInodeKeeps(fs1, live, s, size, mem);
    var (f, m) := CreateInode(fs1, s, size, mem);
    fs2, made := f, m;
    KeptTwice(fs.disk, fs1.disk, fs2.disk, live, FREE_MAP);
    SameRoot(fs, fs2);
    assert Unowned(fs2.disk, live, s, 1);
  }

  /** What filesys_create() makes of that */
  function Finish(fs2: Fs, s: nat, made: bool, name: seq<Byte>, mem: bool, d: Outcome): (Fs, bool) {
    if !made || AddFails(RootDir(fs2), name, d) then (Release(fs2, s, 1, mem), false)
    else var (k, r) := Addition(RootDir(fs2), name, s, d).value; (WithRecord(fs2, k, r), true)
  }

  lemma CreateIs(fs: Fs, fs1: Fs, s: nat, fs2: Fs, made: bool, name: seq<Byte>, size: nat, mem: nat -> bool, d: Outcome)
    requires mem(0) && Allocate(fs, 1, mem(1)) == (fs1, Some(s)) && CreateInode(fs1, s, size, Shift(mem, 2)) == (fs2, made)
    ensures Create(fs, name, size, mem, d) == Finish(fs2, s, made, name, mem(4), d)
  {
  }

  lemma FinishKeeps(fs: Fs, fs2: Fs, s: nat, size: nat, made: bool, name: seq<Byte>, mem: bool, d: Outcome)
    requires Inv(fs) && IsName(name) && InodeTried(fs, fs2, s, size, made)
    ensures var (fs', ok) := Finish(fs2, s, made, name, mem, d);
      Inv(fs') && Preserves(fs, fs', 1) && (ok ==> Created(fs, fs', name, size, d))
  {
    if !made {
      GiveBack(fs, fs2, s, LiveSet(fs), mem);
    } else if AddFails(RootDir(fs2), name, d) {
      GiveBack(fs, fs2, s, LiveSet(fs) + {s}, mem);
    } else {
      CreateSucceeds(fs, fs2, s, size, name, d);
    }
  }

  lemma CreateKeeps(fs: Fs, name: seq<Byte>, size: nat, mem: nat -> bool, d: Outcome)
    requires Inv(fs) && IsName(name) && size < MAX_LENGTH
    ensures var (fs', ok) := Create(fs, name, size, mem, d);
      Inv(fs') && Preserves(fs, fs', 1) && (ok ==> Created(fs, fs', name, size, d))
  {
    KeptSame(fs.disk, fs.used, LiveSet(fs), 1);
    if mem(0) {
      match Allocate(fs, 1, mem(1)).1
      case None => NoSector(fs, mem(1));
      case Some(s) =>
        var fs1 := TakeSector(fs, mem(1), s);
        var fs2, made := TryInode(fs, fs1, s, size, Shift(mem, 2));
        CreateIs(fs, fs1, s, fs2, made, name, size, mem, d);
        FinishKeeps(fs, fs2, s, size, made, name, mem(4), d);
    }
  }

  lemma SameRoot(fs: Fs, fs': Fs)
    requires 2 <= |fs.disk| && Kept(fs.disk, fs'.disk, LiveSet(fs), FREE_MAP)
    ensures RootDir(fs') == RootDir(fs)
  {
    assert Live(fs, ROOT_DIR);
    assert KeepsFile(fs.disk, fs'.disk, ROOT_DIR);
    KeptBytes(fs.disk, fs'.disk, ROOT_DIR);
  }

  lemma TakenSector(fs: Fs, s: nat)
    requires CoreInv(fs) && s < |fs.disk| && !fs.used[s]
    ensures 2 <= s && s !in LiveSet(fs) && Unowned(fs.disk, LiveSet(fs), s, 1)
  {
    FreeIsUnowned(fs.disk, fs.used, LiveSet(fs), s);
    assert Live(fs, ROOT_DIR) && Live(fs, FREE_MAP);
  }
}
