/** Formatting a device, and the free map on it being the one in memory. */
module FileSysMount {
  import opened Common
  import opened InodeIO
  import opened Directory
  import opened FileSys
  import opened FileSysDisk
  import opened FileSysTables
  import opened FileSysSafety
  import B = Bitmap

  // ----- the free map as bytes and back

  function Bit(x: nat, j: nat): nat { if j == 0 then x % 2 else Bit(x / 2, j - 1) }

  /** What bitmap_read() makes of the bytes of a file */
  function MapRead(b: seq<Byte>, n: nat): seq<bool>
    requires |b| == MapSize(n)
  {
    seq(n, i requires 0 <= i < n => Bit(b[i / 8], i % 8) == 1)
  }

  lemma {:induction false} BitOfBits(used: seq<bool>, i: nat, n: nat, j: nat)
    requires j < n
    ensures Bit(BitsFrom(used, i, n), j) == One(used, i + j)
    decreases n
  {
    var x, rest := BitsFrom(used, i, n), BitsFrom(used, i + 1, n - 1);
    assert x == One(used, i) + 2 * rest;
    if j > 0 {
      assert x / 2 == rest;
      BitOfBits(used, i + 1, n - 1, j - 1);
    }
  }

  /** bitmap_read() gets back what bitmap_write() wrote. */
  lemma MapRoundTrip(used: seq<bool>)
    ensures MapRead(MapBytes(used), |used|) == used
  {
    forall i | 0 <= i < |used| ensures MapRead(MapBytes(used), |used|)[i] == used[i] {
      BitOfBits(used, 8 * (i / 8), 8, i % 8);
      assert 8 * (i / 8) + i % 8 == i;
    }
  }

  // ----- what map its file holds

  ghost predicate MapFits(fs: Fs) {
    && |fs.used| == |fs.disk| > 0 && Length(fs.disk[FREE_MAP]) == MapSize(|fs.used|)
    && OnDevice(fs.disk, Start(fs.disk[FREE_MAP]), Length(fs.disk[FREE_MAP]))
  }

  /** The map on the disk is `d`. */
  ghost predicate Shows(fs: Fs, d: seq<bool>) {
    MapFits(fs) && |d| == |fs.used| && Bytes(fs.disk, fs.disk[FREE_MAP]) == MapBytes(d)
  }

  /** It is the one in memory. */
  ghost predicate Synced(fs: Fs) { Shows(fs, fs.used) }

  /** What a mount would read */
  function DiskMap(fs: Fs): seq<bool> {
    if |fs.disk| == 0 || |Bytes(fs.disk, fs.disk[FREE_MAP])| != MapSize(|fs.disk|) then []
    else MapRead(Bytes(fs.disk, fs.disk[FREE_MAP]), |fs.disk|)
  }

  lemma ShownReads(fs: Fs, d: seq<bool>)
    requires Shows(fs, d)
    ensures DiskMap(fs) == d && MapRead(Bytes(fs.disk, fs.disk[FREE_MAP]), |fs.disk|) == d
  {
    MapRoundTrip(d);
  }

  /** free_map_file can be written. */
  ghost predicate MapReady(fs: Fs, live: set<nat>) {
    && DiskInv(fs.disk, fs.used, live) && MapOk(fs, live) && FREE_MAP in fs.files
    && MapInode(fs).denyCnt == 0 && MapFits(fs)
  }

  /** How many bytes of the map bitmap_write() writes */
  function Reach(bits: nat, mem: bool): nat { Transferred(MapSize(bits), MapSize(bits), 0, mem) }

  /** All of them, unless there is no memory and the last sector is written in part only, which it then is not. */
  lemma ReachIs(bits: nat, mem: bool)
    ensures Reach(bits, mem) == if mem then MapSize(bits) else MapSize(bits) / SECTOR * SECTOR
    ensures Reach(bits, mem) == MapSize(bits) ==> forall i :: 0 <= i < bits ==> i / 8 < Reach(bits, mem)
  {
  }

  /** `d` overwritten by `u` as far as `n` bytes go */
  function Mixed(u: seq<bool>, d: seq<bool>, n: nat): (r: seq<bool>)
    requires |u| == |d|
    ensures |r| == |d|
  {
    seq(|u|, i requires 0 <= i < |u| => if i / 8 < n then u[i] else d[i])
  }

  lemma {:induction false} SameBits(u: seq<bool>, v: seq<bool>, i: nat, n: nat)
    requires forall j :: i <= j < i + n ==> One(u, j) == One(v, j)
    ensures BitsFrom(u, i, n) == BitsFrom(v, i, n)
    decreases n
  {
    if n > 0 { SameBits(u, v, i + 1, n - 1); }
  }

  lemma MixedBytes(u: seq<bool>, d: seq<bool>, n: nat)
    requires |u| == |d| && n <= MapSize(|u|)
    ensures MapBytes(Mixed(u, d, n)) == MapBytes(u)[..n] + MapBytes(d)[n..]
  {
    var m := Mixed(u, d, n);
    forall k | 0 <= k < MapSize(|u|) ensures MapBytes(m)[k] == if k < n then MapBytes(u)[k] else MapBytes(d)[k] {
      forall j | 8 * k <= j < 8 * k + 8 ensures One(m, j) == if k < n then One(u, j) else One(d, j) { assert j / 8 == k; }
      if k < n { SameBits(m, u, 8 * k, 8); } else { SameBits(m, d, 8 * k, 8); }
    }
  }

  /** The beginning of a file is overwritten. */
  lemma Overwritten(disk: seq<Sector>, start: nat, length: nat, data: seq<Byte>)
    requires OnDevice(disk, start, length) && |data| <= length
    ensures OnDevice(Stored(disk, start, 0, data), start, length)
    ensures Content(Stored(disk, start, 0, data), start, length) == data + Content(disk, start, length)[|data|..]
  {
    WriteReplacesSlice(disk, start, length, 0, data);
    var c := Content(disk, start, length);
    assert c[..0] + data + c[|data|..] == data + c[|data|..];
  }

  /** bitmap_write(), for all outcomes */
  lemma MapWrittenShows(fs: Fs, live: set<nat>, mem: bool, d: seq<bool>)
    requires MapReady(fs, live) && Shows(fs, d)
    ensures var (fs', ok) := MapWritten(fs, mem); var n := Reach(|fs.used|, mem);
      && ok == (n == MapSize(|fs.used|)) && MapReady(fs', live) && Shows(fs', Mixed(fs.used, d, n))
  {
    var data, n := MapBytes(fs.used), Reach(|fs.used|, mem);
    MapWrittenKeeps(fs, live, mem);
    Overwritten(fs.disk, Start(fs.disk[FREE_MAP]), |data|, data[..n]);
    MixedBytes(fs.used, d, n);
  }

  /** The file of the map may hold anything before it is written for the first time. */
  lemma MapWrittenSyncs(fs: Fs, live: set<nat>)
    requires MapReady(fs, live)
    ensures MapWritten(fs, true).1 && Synced(MapWritten(fs, true).0) && MapReady(MapWritten(fs, true).0, live)
  {
    var data := MapBytes(fs.used);
    MapWrittenKeeps(fs, live, true);
    assert data[..|data|] == data;
    Overwritten(fs.disk, Start(fs.disk[FREE_MAP]), |data|, data);
  }

  // ----- allocating and releasing

  /** The map on the disk after free_map_allocate(), which writes the new one or as much as it can */
  function AllocatedMap(used: seq<bool>, cnt: nat, mem: bool, d: seq<bool>): (r: seq<bool>)
    requires |used| == |d|
    ensures |r| == |d|
  {
    match B.FirstFit(used, 0, cnt, false)
    case None => d
    case Some(s) => Mixed(B.WithRange(used, s, cnt, true), d, Reach(|used|, mem))
  }

  /** And after free_map_release() */
  function ReleasedMap(used: seq<bool>, s: nat, cnt: nat, mem: bool, d: seq<bool>): (r: seq<bool>)
    requires |used| == |d|
    ensures |r| == |d|
  {
    Mixed(B.WithRange(used, s, cnt, false), d, Reach(|used|, mem))
  }

  lemma AllocateShows(fs: Fs, live: set<nat>, cnt: nat, mem: bool, d: seq<bool>)
    requires MapReady(fs, live) && Shows(fs, d)
    ensures var (fs', r) := Allocate(fs, cnt, mem);
      && MapReady(fs', live) && Shows(fs', AllocatedMap(fs.used, cnt, mem, d))
      && r == (if Reach(|fs.used|, mem) == MapSize(|fs.used|) then B.FirstFit(fs.used, 0, cnt, false) else None)
  {
    AllocateKeeps(fs, live, cnt, mem);
    var fit := B.FirstFit(fs.used, 0, cnt, false);
    if fit.Some? {
      var marked := fs.(used := B.WithRange(fs.used, fit.value, cnt, true));
      MapChange(fs.disk, fs.used, marked.used, live, live);
      MapWrittenShows(marked, live, mem, d);
    }
  }

  lemma ReleaseShows(fs: Fs, live: set<nat>, live': set<nat>, s: nat, cnt: nat, mem: bool, d: seq<bool>)
    requires MapReady(fs, live) && Shows(fs, d) && live' <= live && FREE_MAP in live' && Unowned(fs.disk, live', s, cnt)
    ensures var fs' := Release(fs, s, cnt, mem); MapReady(fs', live') && Shows(fs', ReleasedMap(fs.used, s, cnt, mem, d))
  {
    var freed := fs.(used := B.WithRange(fs.used, s, cnt, false));
    MapChange(fs.disk, fs.used, freed.used, live, live');
    MapWrittenShows(freed, live', mem, d);
  }

  lemma KeptShows(fs: Fs, fs': Fs, d: seq<bool>)
    requires Shows(fs, d) && KeepsFile(fs.disk, fs'.disk, FREE_MAP) && |fs'.used| == |fs.used|
    ensures Shows(fs', d)
  {
    KeptBytes(fs.disk, fs'.disk, FREE_MAP);
  }

  /** inode_create() */
  lemma CreateInodeShows(fs: Fs, live: set<nat>, s: nat, length: nat, mem: nat -> bool, d: seq<bool>)
    requires MapReady(fs, live) && Shows(fs, d) && length < MAX_LENGTH
    requires s < |fs.disk| && fs.used[s] && Unowned(fs.disk, live, s, 1)
    ensures Shows(CreateInode(fs, s, length, mem).0, if mem(0) then AllocatedMap(fs.used, BytesToSectors(length), mem(1), d) else d)
  {
    if mem(0) {
      var cnt := BytesToSectors(length);
      AllocateKeeps(fs, live, cnt, mem(1));
      AllocateShows(fs, live, cnt, mem(1), d);
      var (fs1, r) := Allocate(fs, cnt, mem(1));
      if r.Some? {
        var fs2 := fs1.(disk := NewInode(fs1.disk, s, r.value, length));
        CreateInodeMakes(fs, fs1, live, s, r.value, length);
        assert KeepsFile(fs1.disk, fs2.disk, FREE_MAP);
        KeptShows(fs1, fs2, AllocatedMap(fs.used, cnt, mem(1), d));
      }
    }
  }

  // ----- formatting

  const YES: nat -> bool := _ => true

  /** free_map_open() on this disk with this map */
  function Mounted(disk: seq<Sector>, used: seq<bool>): Fs
    requires |disk| > 0
  {
    var n := Inode(1, FREE_MAP, 1, 0, false, Start(disk[FREE_MAP]), Length(disk[FREE_MAP]));
    Fs(disk, used, [n], map[FREE_MAP := File(1, 0, false)], 2)
  }

  /** filesys_init() with FORMAT, which panics if anything fails. While free_map_create() makes the map's own
      inode there is no file to write the map to. */
  function Format(disk: seq<Sector>): Option<Fs>
    requires 2 <= |disk|
  {
    var used := seq(|disk|, k => k < 2);
    match CreateInode(Fs(disk, used, [], map[], 1), FREE_MAP, MapSize(|disk|), YES)
    case (_, false) => None
    case (fs1, true) =>
      if |fs1.disk| < 2 then None else
      match MapWritten(Mounted(fs1.disk, fs1.used), true)
      case (_, false) => None
      case (fs2, true) =>
        match CreateInode(fs2, ROOT_DIR, ROOT_ENTRIES * ENTRY, YES)
        case (_, false) => None
        case (fs3, true) =>
          if |fs3.disk| < 2 then None else
          var map' := Bytes(fs3.disk, fs3.disk[FREE_MAP]);
          if |map'| != MapSize(|fs3.disk|) then None else
          Some(Mounted(fs3.disk, MapRead(map', |fs3.disk|)))
  }

  /** After free_map_create() */
  function MapMade(disk: seq<Sector>): Fs
    requires 2 <= |disk|
  {
    var fs1 := CreateInode(Fs(disk, seq(|disk|, k => k < 2), [], map[], 1), FREE_MAP, MapSize(|disk|), YES).0;
    if |fs1.disk| < 2 then fs1 else MapWritten(Mounted(fs1.disk, fs1.used), true).0
  }

  lemma MapInodeMade(disk: seq<Sector>) returns (fs1: Fs)
    requires 2 <= |disk| <= WORD
    ensures var (fs', ok) := CreateInode(Fs(disk, seq(|disk|, k => k < 2), [], map[], 1), FREE_MAP, MapSize(|disk|), YES);
      fs1 == fs' && |fs1.disk| == |disk| && (ok ==>
        var m := Mounted(fs1.disk, fs1.used);
        MapReady(m, {FREE_MAP}) && fs1.used[ROOT_DIR] && Unowned(fs1.disk, {FREE_MAP}, ROOT_DIR, 1))
  {
    var fs0 := Fs(disk, seq(|disk|, k => k < 2), [], map[], 1);
    CreateInodeKeeps(fs0, {}, FREE_MAP, MapSize(|disk|), YES);
    var (fs', ok) := CreateInode(fs0, FREE_MAP, MapSize(|disk|), YES);
    fs1 := fs';
    assert {} + {FREE_MAP} == {FREE_MAP};
    if ok { assert PlacedAt(fs1.disk, fs1.used, FREE_MAP); }
  }

  lemma FormattedMap(disk: seq<Sector>) returns (fs2: Fs)
    requires 2 <= |disk| <= WORD && Format(disk).Some?
    ensures fs2 == MapMade(disk)
    ensures |fs2.disk| == |disk| && MapReady(fs2, {FREE_MAP}) && Synced(fs2)
    ensures fs2.used[ROOT_DIR] && Unowned(fs2.disk, {FREE_MAP}, ROOT_DIR, 1)
    ensures fs2.open == Mounted(fs2.disk, fs2.used).open && fs2.files == map[FREE_MAP := File(1, 0, false)]
    ensures var (fs3, ok) := CreateInode(fs2, ROOT_DIR, ROOT_ENTRIES * ENTRY, YES);
      ok && |fs3.disk| == |disk| && |Bytes(fs3.disk, fs3.disk[FREE_MAP])| == MapSize(|disk|)
      && Format(disk) == Some(Mounted(fs3.disk, MapRead(Bytes(fs3.disk, fs3.disk[FREE_MAP]), |disk|)))
  {
    var fs1 := MapInodeMade(disk);
    var mounted := Mounted(fs1.disk, fs1.used);
    MapWrittenSyncs(mounted, {FREE_MAP});
    MapWrittenKeeps(mounted, {FREE_MAP}, true);
    fs2 := MapWritten(mounted, true).0;
    CreateInodeKeeps(fs2, {FREE_MAP}, ROOT_DIR, ROOT_ENTRIES * ENTRY, YES);
  }

  lemma EmptyDirectory(dir: seq<Byte>, n: nat)
    requires forall i :: 0 <= i < |dir| ==> dir[i] == 0
    ensures DirInv(dir, n) && forall s {:trigger Listed(dir, s)} :: !Listed(dir, s)
  {
    forall i: nat | i < Count(dir) ensures !InUse(RecordAt(dir, i)) {
      assert RecordAt(dir, i)[19] == dir[ENTRY * i + 19];
    }
    forall i: nat ensures EntryAt(dir, n, i) {}
    forall i: nat, j: nat ensures EntryPair(dir, i, j) {}
  }

  /** Mounting a device whose inodes are apart and marked in its map */
  lemma MountedInv(disk: seq<Sector>, used: seq<bool>)
    requires 2 <= |disk| && Length(disk[ROOT_DIR]) % ENTRY == 0
    requires var fs := Mounted(disk, used); DiskInv(disk, used, LiveSet(fs)) && DirInv(RootDir(fs), |disk|)
    ensures Inv(Mounted(disk, used))
  {
    var fs := Mounted(disk, used);
    var n := fs.open[0];
    assert Refs(fs.files, 1) == {FREE_MAP} && Denials(fs.files, 1) == {};
    assert Counted(n, fs.files) && NodeOk(n, disk, RootDir(fs));
    forall i: nat, j: nat ensures NodePair(fs.open, i, j) {}
    forall h: nat ensures FileAt(fs.open, fs.files, h) {}
  }

  /** Live are then the system's inodes and those in the directory. */
  lemma MountedLive(disk: seq<Sector>, used: seq<bool>, s: nat)
    requires 2 <= |disk|
    ensures Live(Mounted(disk, used), s) <==> s == FREE_MAP || s == ROOT_DIR || Listed(RootDir(Mounted(disk, used)), s)
  {
  }

  lemma FirstMount(disk: seq<Sector>, used: seq<bool>)
    requires 2 <= |disk| && DiskInv(disk, used, {FREE_MAP, ROOT_DIR}) && Length(disk[ROOT_DIR]) % ENTRY == 0
    requires forall i :: 0 <= i < |Bytes(disk, disk[ROOT_DIR])| ==> Bytes(disk, disk[ROOT_DIR])[i] == 0
    ensures Inv(Mounted(disk, used))
  {
    var fs := Mounted(disk, used);
    EmptyDirectory(RootDir(fs), |disk|);
    assert LiveSet(fs) == {FREE_MAP, ROOT_DIR};
    MountedInv(disk, used);
  }

  lemma SyncedBy(fs: Fs, cnt: nat)
    requires B.FirstFit(fs.used, 0, cnt, false).Some?
    ensures AllocatedMap(fs.used, cnt, true, fs.used) == B.WithRange(fs.used, B.FirstFit(fs.used, 0, cnt, false).value, cnt, true)
  {
    ReachIs(|fs.used|, true);
  }

  lemma FormattedRoot(fs2: Fs) returns (fs3: Fs)
    requires 2 <= |fs2.disk| && MapReady(fs2, {FREE_MAP}) && Synced(fs2)
    requires fs2.used[ROOT_DIR] && Unowned(fs2.disk, {FREE_MAP}, ROOT_DIR, 1)
    requires CreateInode(fs2, ROOT_DIR, ROOT_ENTRIES * ENTRY, YES).1
    ensures fs3 == CreateInode(fs2, ROOT_DIR, ROOT_ENTRIES * ENTRY, YES).0 && Synced(fs3) && |fs3.disk| == |fs2.disk|
    ensures DiskInv(fs3.disk, fs3.used, {FREE_MAP, ROOT_DIR})
    ensures Bytes(fs3.disk, fs3.disk[ROOT_DIR]) == seq(ROOT_ENTRIES * ENTRY, _ => 0)
    ensures Length(fs3.disk[ROOT_DIR]) == ROOT_ENTRIES * ENTRY
  {
    var size := ROOT_ENTRIES * ENTRY;
    CreateInodeKeeps(fs2, {FREE_MAP}, ROOT_DIR, size, YES);
    fs3 := CreateInode(fs2, ROOT_DIR, size, YES).0;
    RootSyncs(fs2, {FREE_MAP}, size);
    assert {FREE_MAP} + {ROOT_DIR} == {FREE_MAP, ROOT_DIR};
  }

  lemma RootSyncs(fs2: Fs, live: set<nat>, size: nat)
    requires 2 <= |fs2.disk| && MapReady(fs2, live) && Synced(fs2) && size < MAX_LENGTH
    requires fs2.used[ROOT_DIR] && Unowned(fs2.disk, live, ROOT_DIR, 1) && CreateInode(fs2, ROOT_DIR, size, YES).1
    ensures Synced(CreateInode(fs2, ROOT_DIR, size, YES).0)
  {
    CreateInodeShows(fs2, live, ROOT_DIR, size, YES, fs2.used);
    AllocateKeeps(fs2, live, BytesToSectors(size), true);
    SyncedBy(fs2, BytesToSectors(size));
  }

  /** A formatted device is one on which everything is in order. */
  lemma FormatInv(disk: seq<Sector>)
    requires 2 <= |disk| <= WORD && Format(disk).Some?
    ensures Inv(Format(disk).value) && Synced(Format(disk).value) && |Format(disk).value.disk| == |disk|
  {
    var fs2 := FormattedMap(disk);
    var fs3 := FormattedRoot(fs2);
    ShownReads(fs3, fs3.used);
    FirstMount(fs3.disk, fs3.used);
  }
}
