/** What every operation of the file system keeps. */
module FileSysSafety {
  import opened Common
  import opened InodeIO
  import opened Directory
  import opened FileSys
  import opened FileSysDisk
  import opened FileSysTables
  import B = Bitmap

  /** The inode in sector `s` is one of the system's, or has a directory entry, or is open. */
  ghost predicate Live(fs: Fs, s: nat) {
    s == FREE_MAP || s == ROOT_DIR || Listed(RootDir(fs), s) || BySector(fs.open, s).Some?
  }

  ghost function LiveSet(fs: Fs): set<nat> {
    set s | 0 <= s < |fs.disk| && Live(fs, s)
  }

  /** An inode in memory agrees with the disk, and once removed has no directory entry. */
  ghost predicate NodeOk(n: Inode, disk: seq<Sector>, dir: seq<Byte>) {
    && n.sector < |disk| && n.sector != ROOT_DIR
    && n.start == Start(disk[n.sector]) && n.length == Length(disk[n.sector])
    && (n.removed ==> 2 <= n.sector && !Listed(dir, n.sector))
  }

  ghost predicate NodesInv(open: seq<Inode>, disk: seq<Sector>, dir: seq<Byte>) {
    forall n {:trigger NodeOk(n, disk, dir)} :: n in open ==> NodeOk(n, disk, dir)
  }

  ghost predicate CoreInv(fs: Fs) {
    && 2 <= |fs.disk| && Length(fs.disk[ROOT_DIR]) % ENTRY == 0
    && DiskInv(fs.disk, fs.used, LiveSet(fs))
    && DirInv(RootDir(fs), |fs.disk|)
    && TableInv(fs.open, fs.files)
    && NodesInv(fs.open, fs.disk, RootDir(fs))
  }

  /** Fresh memory is fresh. */
  ghost predicate NextInv(fs: Fs) {
    && (forall n {:trigger n in fs.open} :: n in fs.open ==> n.id < fs.next)
    && (forall h {:trigger h in fs.files} :: h in fs.files ==> h < fs.next)
  }

  ghost predicate Inv(fs: Fs) { CoreInv(fs) && NextInv(fs) }

  /** Files that stay alive keep what they hold, except the system's and perhaps one. */
  ghost predicate Preserves(fs: Fs, fs': Fs, but: nat) {
    forall t {:trigger KeepsFile(fs.disk, fs'.disk, t)} ::
      2 <= t && t in LiveSet(fs) && t in LiveSet(fs') && t != but ==> KeepsFile(fs.disk, fs'.disk, t)
  }

  // ----- parts

  lemma NodeOfFile(fs: Fs, h: nat)
    requires CoreInv(fs) && h in fs.files
    ensures var n := Get(fs.open, fs.files[h].inode);
      && n in fs.open && n.id == fs.files[h].inode && ById(fs.open, n.id).Some?
      && NodeOk(n, fs.disk, RootDir(fs)) && Counted(n, fs.files) && n.sector in LiveSet(fs)
      && (n.sector == FREE_MAP <==> h == FREE_MAP)
  {
    assert FileAt(fs.open, fs.files, h) && FileAt(fs.open, fs.files, FREE_MAP);
    var n, m := Get(fs.open, fs.files[h].inode), Get(fs.open, fs.files[FREE_MAP].inode);
    var i, j := ById(fs.open, n.id).value, ById(fs.open, m.id).value;
    assert NodePair(fs.open, i, j) && NodePair(fs.open, j, i);
    assert Counted(n, fs.files) && NodeOk(n, fs.disk, RootDir(fs));
    assert Live(fs, n.sector);
  }

  lemma MapIsOk(fs: Fs)
    requires CoreInv(fs)
    ensures MapOk(fs, LiveSet(fs))
  {
    NodeOfFile(fs, FREE_MAP);
  }

  lemma RootKept(fs: Fs, disk': seq<Sector>, live: set<nat>, but: nat)
    requires 2 <= |fs.disk| && Kept(fs.disk, disk', live, but) && LiveSet(fs) <= live
    ensures |disk'| == |fs.disk| && disk'[ROOT_DIR] == fs.disk[ROOT_DIR]
  {
    assert Live(fs, ROOT_DIR);
    assert ROOT_DIR in LiveSet(fs);
  }

  /** Only the disk and the map change, and no live file but the free map's. */
  lemma KeptCore(fs: Fs, fs': Fs, but: nat)
    requires CoreInv(fs) && SameMemory(fs, fs') && Kept(fs.disk, fs'.disk, LiveSet(fs), but) && but != ROOT_DIR
    requires DiskInv(fs'.disk, fs'.used, LiveSet(fs))
    ensures CoreInv(fs') && RootDir(fs') == RootDir(fs) && LiveSet(fs') == LiveSet(fs) && Preserves(fs, fs', if but == 0 then 1 else but)
  {
    assert Live(fs, ROOT_DIR) && KeepsFile(fs.disk, fs'.disk, ROOT_DIR);
    KeptBytes(fs.disk, fs'.disk, ROOT_DIR);
    forall n | n in fs.open ensures NodeOk(n, fs'.disk, RootDir(fs')) {
      assert NodeOk(n, fs.disk, RootDir(fs)) && Live(fs, n.sector);
      assert n.sector in LiveSet(fs);
    }
  }

  // ----- file_deny_write(), file_allow_write(), file_read(), file_seek()

  lemma SameLive(fs: Fs, open': seq<Inode>)
    requires |open'| == |fs.open| && forall i :: 0 <= i < |open'| ==> open'[i].sector == fs.open[i].sector
    ensures forall s {:trigger BySector(open', s)} :: BySector(open', s).Some? == BySector(fs.open, s).Some?
  {
    forall s ensures BySector(open', s).Some? == BySector(fs.open, s).Some? {
      if BySector(open', s).Some? {
        assert fs.open[BySector(open', s).value].sector == s;
      }
      if BySector(fs.open, s).Some? {
        assert open'[BySector(fs.open, s).value].sector == s;
      }
    }
  }

  /** An inode in memory is updated, and with it the files. */
  lemma PutKeeps(fs: Fs, n: Inode, files': map<nat, File>)
    requires CoreInv(fs) && ById(fs.open, n.id).Some? && TableInv(Put(fs.open, n), files')
    requires n.sector == Get(fs.open, n.id).sector && NodeOk(n, fs.disk, RootDir(fs))
    ensures var fs' := fs.(open := Put(fs.open, n), files := files');
      CoreInv(fs') && LiveSet(fs') == LiveSet(fs) && RootDir(fs') == RootDir(fs)
  {
    var fs' := fs.(open := Put(fs.open, n), files := files');
    SameLive(fs, fs'.open);
    assert LiveSet(fs') == LiveSet(fs);
    forall m | m in fs'.open ensures NodeOk(m, fs.disk, RootDir(fs')) {
      assert m != n ==> NodeOk(m, fs.disk, RootDir(fs));
    }
  }

  /** A file denies writing, or allows it again. */
  lemma DenyCounts(files: map<nat, File>, files': map<nat, File>, h: nat, deny: bool)
    requires h in files && files[h].deny != deny && files' == files[h := files[h].(deny := deny)]
    ensures var id := files[h].inode;
      && Refs(files', id) == Refs(files, id) && OtherRefs(files, files', id)
      && (h in Denials(files, id)) == !deny
      && Denials(files', id) == if deny then Denials(files, id) + {h} else Denials(files, id) - {h}
  {
    var id := files[h].inode;
    if deny {
      assert Denials(files', id) == Denials(files, id) + {h};
    } else {
      assert Denials(files', id) == Denials(files, id) - {h};
    }
    forall other | other != id
      ensures Refs(files', other) == Refs(files, other) && Denials(files', other) == Denials(files, other) {}
  }

  lemma DenyKeeps(fs: Fs, h: nat, deny: bool)
    requires CoreInv(fs) && h in fs.files && h != FREE_MAP
    ensures var fs' := Deny(fs, h, deny);
      CoreInv(fs') && LiveSet(fs') == LiveSet(fs) && fs'.disk == fs.disk && fs'.files[h] == fs.files[h].(deny := deny)
  {
    var f := fs.files[h];
    if f.deny != deny {
      NodeOfFile(fs, h);
      var n := Get(fs.open, f.inode);
      var files' := fs.files[h := f.(deny := deny)];
      var n' := n.(denyCnt := n.denyCnt + if deny then 1 else -1);
      DenyCounts(fs.files, files', h, deny);
      PutInv(fs.open, fs.files, files', n');
      PutKeeps(fs, n', files');
    }
  }

  // ----- file_close()

  /** A file that does not deny writes goes, and the inode with it if it was the last one. */
  function Dropped(fs: Fs, h: nat): Fs
    requires h in fs.files
  {
    var n := Get(fs.open, fs.files[h].inode);
    fs.(files := fs.files - {h},
        open := if n.openCnt != 1 then Put(fs.open, n.(openCnt := n.openCnt - 1)) else Without(fs.open, n.id))
  }

  lemma OthersCount(fs: Fs, h: nat)
    requires h in fs.files
    ensures OtherRefs(fs.files, fs.files - {h}, fs.files[h].inode)
  {
    var files', id := fs.files - {h}, fs.files[h].inode;
    forall other | other != id
      ensures Refs(files', other) == Refs(fs.files, other) && Denials(files', other) == Denials(fs.files, other) {}
  }

  lemma DroppedTable(fs: Fs, h: nat)
    requires CoreInv(fs) && h in fs.files && h != FREE_MAP && !fs.files[h].deny
    ensures TableInv(Dropped(fs, h).open, fs.files - {h})
  {
    NodeOfFile(fs, h);
    OthersCount(fs, h);
    var n, files' := Get(fs.open, fs.files[h].inode), fs.files - {h};
    assert Refs(files', n.id) == Refs(fs.files, n.id) - {h} && Denials(files', n.id) == Denials(fs.files, n.id);
    if n.openCnt != 1 {
      PutInv(fs.open, fs.files, files', n.(openCnt := n.openCnt - 1));
    } else {
      assert Refs(files', n.id) == {};
      forall g | g in files' ensures fs.files[g].inode != n.id { assert g !in Refs(files', n.id); }
      DropInv(fs.open, fs.files, files', n.id);
    }
  }

  lemma DroppedNodes(fs: Fs, h: nat)
    requires CoreInv(fs) && h in fs.files
    ensures var open' := Dropped(fs, h).open; NodesInv(open', fs.disk, RootDir(fs))
    ensures var open' := Dropped(fs, h).open; forall m {:trigger m in open'} ::
      m in open' ==> exists i :: 0 <= i < |fs.open| && fs.open[i].sector == m.sector && fs.open[i].id == m.id
  {
    NodeOfFile(fs, h);
    var n, open' := Get(fs.open, fs.files[h].inode), Dropped(fs, h).open;
    var i := ById(fs.open, n.id).value;
    forall m | m in open' ensures NodeOk(m, fs.disk, RootDir(fs))
      && exists i :: 0 <= i < |fs.open| && fs.open[i].sector == m.sector && fs.open[i].id == m.id
    {
      if m in fs.open {
        assert NodeOk(m, fs.disk, RootDir(fs));
      } else {
        assert m == n.(openCnt := n.openCnt - 1);
      }
    }
  }

  lemma DroppedCore(fs: Fs, h: nat)
    requires CoreInv(fs) && h in fs.files && h != FREE_MAP && !fs.files[h].deny
    ensures CoreInv(Dropped(fs, h)) && LiveSet(Dropped(fs, h)) <= LiveSet(fs)
  {
    var fs' := Dropped(fs, h);
    DroppedTable(fs, h);
    DroppedNodes(fs, h);
    assert RootDir(fs') == RootDir(fs);
    forall s | s in LiveSet(fs') ensures s in LiveSet(fs) {
      var r := BySector(fs'.open, s);
      if r.Some? {
        assert fs'.open[r.value] in fs'.open;
        var i :| 0 <= i < |fs.open| && fs.open[i].sector == s;
        assert Live(fs, s);
      }
    }
    MapChange(fs.disk, fs.used, fs.used, LiveSet(fs), LiveSet(fs'));
  }

  /** A removed inode whose last file is closed is not live any more. */
  lemma GoneForGood(fs: Fs, h: nat)
    requires CoreInv(fs) && h in fs.files && h != FREE_MAP && !fs.files[h].deny
    requires Get(fs.open, fs.files[h].inode).openCnt == 1 && Get(fs.open, fs.files[h].inode).removed
    ensures Get(fs.open, fs.files[h].inode).sector !in LiveSet(Dropped(fs, h))
  {
    NodeOfFile(fs, h);
    var n, open' := Get(fs.open, fs.files[h].inode), Dropped(fs, h).open;
    var i := ById(fs.open, n.id).value;
    forall j | 0 <= j < |open'| ensures open'[j].sector != n.sector {
      var k := if j < i then j else j + 1;
      assert open'[j] == fs.open[k] && NodePair(fs.open, i, k) && NodePair(fs.open, k, i);
    }
  }

  /** The sectors of a file belong to no other. */
  lemma OwnedByOne(disk: seq<Sector>, used: seq<bool>, live: set<nat>, live': set<nat>, s: nat)
    requires DiskInv(disk, used, live) && live' <= live && s in live && s !in live' && s < |disk|
    ensures Unowned(disk, live', s, 1) && Unowned(disk, live', Start(disk[s]), BytesToSectors(Length(disk[s])))
  {
    var b := disk[s];
    forall t: nat, k: nat {:trigger Owns(disk[t], t, k)} | t in live' && t < |disk| && s <= k < s + 1
      ensures !Owns(disk[t], t, k)
    {
      assert ApartAt(disk, t, s) && Owns(b, s, k);
    }
    forall t: nat, k: nat {:trigger Owns(disk[t], t, k)}
      | t in live' && t < |disk| && Start(b) <= k < Start(b) + BytesToSectors(Length(b))
      ensures !Owns(disk[t], t, k)
    {
      assert ApartAt(disk, t, s) && Owns(b, s, k);
    }
  }

  lemma CloseInodeIs(fs: Fs, h: nat, mem: nat -> bool)
    requires CoreInv(fs) && h in fs.files && h != FREE_MAP && !fs.files[h].deny
    ensures var n := Get(fs.open, fs.files[h].inode); var fs' := Dropped(fs, h);
      Close(fs, h, mem) == if n.openCnt == 1 && n.removed
        then Release(Release(fs', n.sector, 1, mem(0)), n.start, BytesToSectors(n.length), mem(1)) else fs'
  {
    NodeOfFile(fs, h);
  }

  /** Giving up the sectors of a file that is not live */
  lemma ReleaseFile(fs: Fs, s: nat, start: nat, cnt: nat, mem: nat -> bool)
    requires CoreInv(fs) && Unowned(fs.disk, LiveSet(fs), s, 1) && Unowned(fs.disk, LiveSet(fs), start, cnt)
    ensures var fs' := Release(Release(fs, s, 1, mem(0)), start, cnt, mem(1));
      && CoreInv(fs') && LiveSet(fs') == LiveSet(fs) && Preserves(fs, fs', 1) && SameMemory(fs, fs')
      && RootDir(fs') == RootDir(fs)
      && fs'.used == B.WithRange(B.WithRange(fs.used, s, 1, false), start, cnt, false)
  {
    var live := LiveSet(fs);
    MapIsOk(fs);
    var fs1 := Release(fs, s, 1, mem(0));
    ReleaseKeeps(fs, live, live, s, 1, mem(0));
    KeptCore(fs, fs1, 0);
    var fs2 := Release(fs1, start, cnt, mem(1));
    assert Unowned(fs1.disk, live, start, cnt);
    ReleaseKeeps(fs1, live, live, start, cnt, mem(1));
    KeptTwice(fs.disk, fs1.disk, fs2.disk, live, 0);
    KeptCore(fs, fs2, 0);
  }

  lemma CloseKeeps(fs: Fs, h: nat, mem: nat -> bool)
    requires CoreInv(fs) && h in fs.files && h != FREE_MAP && !fs.files[h].deny
    ensures var fs' := Close(fs, h, mem);
      && CoreInv(fs') && LiveSet(fs') == LiveSet(Dropped(fs, h)) && LiveSet(fs') <= LiveSet(fs) && Preserves(fs, fs', 1)
      && RootDir(fs') == RootDir(fs) && fs'.open == Dropped(fs, h).open
  {
    DroppedCore(fs, h);
    CloseInodeIs(fs, h, mem);
    NodeOfFile(fs, h);
    var n, fs1 := Get(fs.open, fs.files[h].inode), Dropped(fs, h);
    KeptSame(fs1.disk, fs1.used, LiveSet(fs1), 1);
    if n.openCnt == 1 && n.removed {
      GoneForGood(fs, h);
      OwnedByOne(fs.disk, fs.used, LiveSet(fs), LiveSet(fs1), n.sector);
      ReleaseFile(fs1, n.sector, n.start, BytesToSectors(n.length), mem);
    }
  }
}
