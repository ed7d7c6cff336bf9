/** Who owns which sector, and what the operations on the disk and the free map do to that. */
module FileSysDisk {
  import opened Common
  import opened InodeIO
  import opened FileSys
  import B = Bitmap

  /** The file with inode `b` in sector `s` lies on the device, and its sectors are marked as used. */
  ghost predicate Placed(b: Sector, s: nat, used: seq<bool>) {
    && s < |used| && Start(b) + BytesToSectors(Length(b)) <= |used| && Length(b) < MAX_LENGTH && !InExtent(b, s)
    && forall k: nat {:trigger Owns(b, s, k)} :: Owns(b, s, k) ==> used[k]
  }

  /** Two files have no sector in common. */
  ghost predicate Apart(a: Sector, s: nat, b: Sector, t: nat) {
    forall k: nat {:trigger Owns(a, s, k)} {:trigger Owns(b, t, k)} :: !(Owns(a, s, k) && Owns(b, t, k))
  }

  ghost predicate PlacedAt(disk: seq<Sector>, used: seq<bool>, s: nat) {
    s < |disk| && Placed(disk[s], s, used)
  }

  ghost predicate ApartAt(disk: seq<Sector>, s: nat, t: nat) {
    s < |disk| && t < |disk| && Apart(disk[s], s, disk[t], t)
  }

  ghost predicate DiskInv(disk: seq<Sector>, used: seq<bool>, live: set<nat>) {
    && |used| == |disk| <= WORD
    && (forall s {:trigger PlacedAt(disk, used, s)} :: s in live ==> PlacedAt(disk, used, s))
    && (forall s, t {:trigger ApartAt(disk, s, t)} :: s in live && t in live && s != t ==> ApartAt(disk, s, t))
  }

  /** Nothing of the file in sector `t` is different on `disk'`. */
  ghost predicate KeepsFile(disk: seq<Sector>, disk': seq<Sector>, t: nat) {
    && t < |disk| == |disk'| && disk'[t] == disk[t]
    && forall k: nat {:trigger Owns(disk[t], t, k)} :: k < |disk| && Owns(disk[t], t, k) ==> disk'[k] == disk[k]
  }

  lemma KeptBytes(disk: seq<Sector>, disk': seq<Sector>, t: nat)
    requires KeepsFile(disk, disk', t)
    ensures Bytes(disk', disk'[t]) == Bytes(disk, disk[t])
  {
    var b := disk[t];
    if OnDevice(disk, Start(b), Length(b)) {
      forall p | 0 <= p < Length(b)
        ensures disk'[Start(b) + p / SECTOR] == disk[Start(b) + p / SECTOR]
      {
        assert Owns(b, t, Start(b) + p / SECTOR);
      }
    }
  }

  /** The inodes stay, and with them who owns what. */
  ghost predicate Kept(disk: seq<Sector>, disk': seq<Sector>, live: set<nat>, but: nat) {
    && |disk'| == |disk|
    && (forall t {:trigger t in live} :: t in live && t < |disk| ==> disk'[t] == disk[t])
    && (forall t {:trigger KeepsFile(disk, disk', t)} :: t in live && t != but ==> KeepsFile(disk, disk', t))
  }

  lemma KeptInv(disk: seq<Sector>, disk': seq<Sector>, used: seq<bool>, live: set<nat>, but: nat)
    requires DiskInv(disk, used, live) && Kept(disk, disk', live, but)
    ensures DiskInv(disk', used, live)
  {
    forall s | s in live ensures PlacedAt(disk', used, s) { assert PlacedAt(disk, used, s); }
    forall s, t | s in live && t in live && s != t ensures ApartAt(disk', s, t) {
      assert PlacedAt(disk, used, s) && PlacedAt(disk, used, t) && ApartAt(disk, s, t);
    }
  }

  lemma KeptTwice(disk: seq<Sector>, disk': seq<Sector>, disk'': seq<Sector>, live: set<nat>, but: nat)
    requires Kept(disk, disk', live, but) && Kept(disk', disk'', live, but)
    ensures Kept(disk, disk'', live, but)
  {
    forall t | t in live && t != but ensures KeepsFile(disk, disk'', t) {
      assert KeepsFile(disk, disk', t) && KeepsFile(disk', disk'', t);
    }
  }

  lemma KeptSame(disk: seq<Sector>, used: seq<bool>, live: set<nat>, but: nat)
    requires DiskInv(disk, used, live)
    ensures Kept(disk, disk, live, but)
  {
    forall t | t in live ensures KeepsFile(disk, disk, t) { assert PlacedAt(disk, used, t); }
  }

  /** Writing within one file */
  lemma StoreKeeps(disk: seq<Sector>, used: seq<bool>, live: set<nat>, s: nat, offset: nat, data: seq<Byte>)
    requires DiskInv(disk, used, live) && s in live && s < |disk|
    requires data == [] || offset + |data| <= Length(disk[s])
    ensures Kept(disk, Stored(disk, Start(disk[s]), offset, data), live, s)
  {
    var b, disk' := disk[s], Stored(disk, Start(disk[s]), offset, data);
    forall k | 0 <= k < |disk| && !InExtent(b, k) ensures disk'[k] == disk[k] {
      WriteStaysInside(disk, Start(b), Length(b), offset, data, k);
    }
    assert PlacedAt(disk, used, s);
    assert disk'[s] == disk[s];
    forall t | t in live && t != s ensures KeepsFile(disk, disk', t) {
      assert PlacedAt(disk, used, t) && ApartAt(disk, t, s);
      assert Owns(disk[t], t, t);
    }
    forall t | t in live && t < |disk| ensures disk'[t] == disk[t] {
      assert t != s ==> KeepsFile(disk, disk', t);
    }
  }

  /** Marking more sectors as used, or fewer that no live file has */
  lemma MapChange(disk: seq<Sector>, used: seq<bool>, used': seq<bool>, live: set<nat>, live': set<nat>)
    requires DiskInv(disk, used, live) && |used'| == |used| && live' <= live
    requires forall s: nat, k: nat {:trigger Owns(disk[s], s, k)} ::
      s in live' && s < |disk| && k < |used| && Owns(disk[s], s, k) && used[k] ==> used'[k]
    ensures DiskInv(disk, used', live')
  {
    forall s | s in live' ensures PlacedAt(disk, used', s) {
      assert PlacedAt(disk, used, s);
      forall k: nat | Owns(disk[s], s, k) ensures k < |used'| && used'[k] {}
    }
    forall s, t | s in live' && t in live' && s != t ensures ApartAt(disk, s, t) { assert ApartAt(disk, s, t); }
  }

  // ----- the free map

  /** The free map's inode in memory is the one on disk. */
  ghost predicate MapOk(fs: Fs, live: set<nat>) {
    FREE_MAP in fs.files ==>
      FREE_MAP in live && |fs.disk| > 0
      && MapInode(fs).start == Start(fs.disk[FREE_MAP]) && MapInode(fs).length == Length(fs.disk[FREE_MAP])
  }

  /** Only the disk and the map are different. */
  predicate SameMemory(fs: Fs, fs': Fs) {
    fs'.open == fs.open && fs'.files == fs.files && fs'.next == fs.next
  }

  lemma MapWrittenKeeps(fs: Fs, live: set<nat>, mem: bool)
    requires DiskInv(fs.disk, fs.used, live) && MapOk(fs, live) && FREE_MAP in fs.files
    ensures var fs' := MapWritten(fs, mem).0;
      SameMemory(fs, fs') && fs'.used == fs.used && DiskInv(fs'.disk, fs.used, live) && MapOk(fs', live)
      && Kept(fs.disk, fs'.disk, live, FREE_MAP)
  {
    var n, data, fs' := MapInode(fs), MapBytes(fs.used), MapWritten(fs, mem).0;
    StoreKeeps(fs.disk, fs.used, live, FREE_MAP, 0, data[..Written(n, |data|, 0, mem)]);
    KeptInv(fs.disk, fs'.disk, fs.used, live, FREE_MAP);
  }

  lemma AllocateKeeps(fs: Fs, live: set<nat>, cnt: nat, mem: bool)
    requires DiskInv(fs.disk, fs.used, live) && MapOk(fs, live)
    ensures var (fs', r) := Allocate(fs, cnt, mem);
      && SameMemory(fs, fs') && DiskInv(fs'.disk, fs'.used, live) && MapOk(fs', live)
      && Kept(fs.disk, fs'.disk, live, FREE_MAP)
      && r == (if r.Some? then B.FirstFit(fs.used, 0, cnt, false) else None)
      && fs'.used == (if r.Some? then B.WithRange(fs.used, r.value, cnt, true) else fs.used)
  {
    KeptSame(fs.disk, fs.used, live, FREE_MAP);
    var fit := B.FirstFit(fs.used, 0, cnt, false);
    if fit.Some? {
      var s := fit.value;
      var marked := fs.(used := B.WithRange(fs.used, s, cnt, true));
      MapChange(fs.disk, fs.used, marked.used, live, live);
      if FREE_MAP in fs.files {
        MapWrittenKeeps(marked, live, mem);
        var fs' := MapWritten(marked, mem).0;
        B.RolledBack(fs.used, s, cnt, false);
        KeptInv(fs.disk, fs'.disk, fs.used, live, FREE_MAP);
      }
    }
  }

  /** No live file has any of the sectors. */
  ghost predicate Unowned(disk: seq<Sector>, live: set<nat>, start: nat, cnt: nat) {
    forall t: nat, k: nat {:trigger Owns(disk[t], t, k)} ::
      t in live && t < |disk| && start <= k < start + cnt ==> !Owns(disk[t], t, k)
  }

  lemma ReleaseKeeps(fs: Fs, live: set<nat>, live': set<nat>, s: nat, cnt: nat, mem: bool)
    requires DiskInv(fs.disk, fs.used, live) && live' <= live && MapOk(fs, live') && FREE_MAP in fs.files
    requires Unowned(fs.disk, live', s, cnt)
    ensures var fs' := Release(fs, s, cnt, mem);
      && SameMemory(fs, fs') && DiskInv(fs'.disk, fs'.used, live') && MapOk(fs', live')
      && Kept(fs.disk, fs'.disk, live', FREE_MAP)
      && fs'.used == B.WithRange(fs.used, s, cnt, false)
  {
    var freed := fs.(used := B.WithRange(fs.used, s, cnt, false));
    MapChange(fs.disk, fs.used, freed.used, live, live');
    MapWrittenKeeps(freed, live', mem);
  }

  // ----- making a file

  lemma ZeroBytes(disk: seq<Sector>, start: nat, length: nat)
    requires OnDevice(disk, start, length)
    requires forall k :: start <= k < start + BytesToSectors(length) ==> disk[k] == ZEROS
    ensures Content(disk, start, length) == seq(length, _ => 0)
  {
    forall p | 0 <= p < length ensures Content(disk, start, length)[p] == 0 {
      assert disk[start + p / SECTOR] == ZEROS;
    }
  }

  /** `disk'` has inode `b` in sector `s`, and differs from `disk` only there and in the data of that file. */
  ghost predicate Made(disk: seq<Sector>, disk': seq<Sector>, s: nat, b: Sector) {
    && s < |disk| == |disk'| && disk'[s] == b
    && forall k {:trigger disk'[k]} :: 0 <= k < |disk| && !Owns(b, s, k) ==> disk'[k] == disk[k]
  }

  /** The sectors of the new file were free, except that `s` had already been taken for it. */
  ghost predicate Fresh(used: seq<bool>, used': seq<bool>, s: nat, b: Sector) {
    && |used'| == |used| && Placed(b, s, used')
    && (forall k {:trigger InExtent(b, k)} :: 0 <= k < |used| && InExtent(b, k) ==> !used[k])
    && (forall k {:trigger used'[k]} :: 0 <= k < |used| && used[k] ==> used'[k])
  }

  lemma BesideNew(disk: seq<Sector>, disk': seq<Sector>, used: seq<bool>, used': seq<bool>, s: nat, b: Sector, t: nat)
    requires |used| == |disk| && Made(disk, disk', s, b) && Fresh(used, used', s, b)
    requires PlacedAt(disk, used, t) && !Owns(disk[t], t, s)
    ensures KeepsFile(disk, disk', t) && PlacedAt(disk', used', t) && ApartAt(disk', s, t) && ApartAt(disk', t, s)
  {
    var c := disk[t];
    forall k: nat | Owns(c, t, k) ensures k < |used| && used[k] && !Owns(b, s, k) {}
    assert Owns(c, t, t);
    assert disk'[t] == c;
  }

  lemma NewInodeInv(disk: seq<Sector>, disk': seq<Sector>, used: seq<bool>, used': seq<bool>, live: set<nat>, s: nat, b: Sector)
    requires DiskInv(disk, used, live) && Made(disk, disk', s, b) && Fresh(used, used', s, b)
    requires Unowned(disk, live, s, 1)
    ensures DiskInv(disk', used', live + {s})
    ensures Kept(disk, disk', live, FREE_MAP)
    ensures forall t {:trigger KeepsFile(disk, disk', t)} :: t in live ==> KeepsFile(disk, disk', t)
  {
    forall t | t in live ensures KeepsFile(disk, disk', t) && PlacedAt(disk', used', t) && ApartAt(disk', s, t) && ApartAt(disk', t, s) {
      assert PlacedAt(disk, used, t) && !Owns(disk[t], t, s);
      BesideNew(disk, disk', used, used', s, b, t);
    }
    forall t, u | t in live && u in live && t != u ensures ApartAt(disk', t, u) {
      assert ApartAt(disk, t, u) && KeepsFile(disk, disk', t) && KeepsFile(disk, disk', u);
    }
    forall t | t in live && t < |disk| ensures disk'[t] == disk[t] { assert KeepsFile(disk, disk', t); }
    assert PlacedAt(disk', used', s);
  }

  /** What inode_create() writes */
  lemma NewInodeMade(disk: seq<Sector>, used: seq<bool>, used': seq<bool>, s: nat, start: nat, length: nat)
    requires |used| == |disk| && s < |disk| && used[s] && start < WORD && length < MAX_LENGTH
    requires B.InRange(used, start, BytesToSectors(length)) && B.AllAre(used, start, BytesToSectors(length), false)
    requires used' == B.WithRange(used, start, BytesToSectors(length), true)
    ensures var disk', b := NewInode(disk, s, start, length), Header(start, length);
      Length(b) == length && Made(disk, disk', s, b) && Fresh(used, used', s, b) && Bytes(disk', b) == seq(length, _ => 0)
  {
    var disk', b := NewInode(disk, s, start, length), Header(start, length);
    HeaderReads(start, length);
    ZeroBytes(disk', start, length);
  }

  /** inode_create() after it has got the data sectors */
  lemma CreateInodeMakes(fs: Fs, fs1: Fs, live: set<nat>, s: nat, start: nat, length: nat)
    requires DiskInv(fs.disk, fs.used, live) && length < MAX_LENGTH
    requires s < |fs.disk| && fs.used[s] && Unowned(fs.disk, live, s, 1)
    requires Kept(fs.disk, fs1.disk, live, FREE_MAP) && fs1.used == B.WithRange(fs.used, start, BytesToSectors(length), true)
    requires B.InRange(fs.used, start, BytesToSectors(length)) && B.AllAre(fs.used, start, BytesToSectors(length), false)
    requires start < WORD
    ensures var disk', b := NewInode(fs1.disk, s, start, length), Header(start, length);
      && DiskInv(disk', fs1.used, live + {s}) && Kept(fs.disk, disk', live, FREE_MAP) && disk'[s] == b && fs1.used[s]
      && Length(b) == length && Bytes(disk', b) == seq(length, _ => 0)
      && (forall k {:trigger InExtent(b, k)} :: 0 <= k < |fs.used| && InExtent(b, k) ==> !fs.used[k])
      && (forall t {:trigger KeepsFile(fs1.disk, disk', t)} :: t in live ==> KeepsFile(fs1.disk, disk', t))
  {
    var disk', b := NewInode(fs1.disk, s, start, length), Header(start, length);
    NewInodeMade(fs1.disk, fs.used, fs1.used, s, start, length);
    KeptInv(fs.disk, fs1.disk, fs.used, live, FREE_MAP);
    assert Unowned(fs1.disk, live, s, 1);
    NewInodeInv(fs1.disk, disk', fs.used, fs1.used, live, s, b);
    KeptTwice(fs.disk, fs1.disk, disk', live, FREE_MAP);
  }

  lemma CreateInodeKeeps(fs: Fs, live: set<nat>, s: nat, length: nat, mem: nat -> bool)
    requires DiskInv(fs.disk, fs.used, live) && MapOk(fs, live) && length < MAX_LENGTH
    requires s < |fs.disk| && fs.used[s] && Unowned(fs.disk, live, s, 1)
    ensures var (fs', ok) := CreateInode(fs, s, length, mem);
      && SameMemory(fs, fs') && MapOk(fs', live)
      && DiskInv(fs'.disk, fs'.used, if ok then live + {s} else live)
      && Kept(fs.disk, fs'.disk, live, FREE_MAP) && fs'.used[s]
      && (ok ==> Length(fs'.disk[s]) == length && Bytes(fs'.disk, fs'.disk[s]) == seq(length, _ => 0))
      && (ok ==> forall k {:trigger InExtent(fs'.disk[s], k)} ::
            0 <= k < |fs.used| && InExtent(fs'.disk[s], k) ==> !fs.used[k])
  {
    KeptSame(fs.disk, fs.used, live, FREE_MAP);
    if mem(0) {
      AllocateKeeps(fs, live, BytesToSectors(length), mem(1));
      var (fs1, r) := Allocate(fs, BytesToSectors(length), mem(1));
      if r.Some? {
        CreateInodeMakes(fs, fs1, live, s, r.value, length);
      }
    }
  }
}
