/** Files, inodes, the root directory and the free map on one device; filesys.c, inode.c, free-map.c, file.c. */
module FileSys {
  import opened Common
  import opened InodeIO
  import opened Directory
  import B = Bitmap

  const FREE_MAP: nat := 0
  const ROOT_DIR: nat := 1
  const ROOT_ENTRIES: nat := 16
  const MAGIC: nat := 0x494e_4f44
  const MAX_LENGTH: nat := 0x8000_0000

  // ----- inodes on disk

  const ZEROS: Sector := seq(SECTOR, _ => 0)

  function Header(start: nat, length: nat): Sector {
    Le32(start) + Le32(length) + Le32(MAGIC) + seq(500, _ => 0)
  }

  function Start(b: Sector): nat { Word(b, 0) }

  function Length(b: Sector): nat { Word(b, 4) }

  lemma HeaderReads(start: nat, length: nat)
    requires start < WORD && length < WORD
    ensures Start(Header(start, length)) == start && Length(Header(start, length)) == length
  {
    var b, rest := Header(start, length), Le32(MAGIC) + seq(500, _ => 0);
    WordRoundTrip(start, [], Le32(length) + rest);
    assert b == [] + Le32(start) + (Le32(length) + rest);
    WordRoundTrip(length, Le32(start), rest);
    assert b == Le32(start) + Le32(length) + rest;
  }

  /** Sector `k` has data of the file with inode `b`. */
  predicate InExtent(b: Sector, k: nat) {
    Start(b) <= k < Start(b) + BytesToSectors(Length(b))
  }

  /** Sector `k` belongs to the file with inode `b` in sector `s`. */
  predicate Owns(b: Sector, s: nat, k: nat) { k == s || InExtent(b, k) }

  /** The bytes of a file */
  function Bytes(disk: seq<Sector>, b: Sector): seq<Byte> {
    if OnDevice(disk, Start(b), Length(b)) then Content(disk, Start(b), Length(b)) else []
  }

  function Zeroed(disk: seq<Sector>, start: nat, cnt: nat): (d: seq<Sector>)
    ensures |d| == |disk|
  {
    seq(|disk|, k requires 0 <= k < |disk| => if start <= k < start + cnt then ZEROS else disk[k])
  }

  /** The block_write() calls of inode_create() */
  function NewInode(disk: seq<Sector>, s: nat, start: nat, length: nat): (d: seq<Sector>)
    ensures |d| == |disk|
  {
    Zeroed(if s < |disk| then disk[s := Header(start, length)] else disk, start, BytesToSectors(length))
  }

  // ----- inodes and files in memory

  datatype Inode = Inode(id: nat, sector: nat, openCnt: int, denyCnt: int, removed: bool, start: nat, length: nat)

  datatype File = File(inode: nat, pos: nat, deny: bool)

  /** `open` is the list open_inodes; `files` has the struct files, the one at FREE_MAP being free_map_file;
      `next` stands for fresh memory. */
  datatype Fs = Fs(disk: seq<Sector>, used: seq<bool>, open: seq<Inode>, files: map<nat, File>, next: nat)

  /** Where in open_inodes an inode is */
  function BySector(open: seq<Inode>, sector: nat): (r: Option<nat>)
    ensures r.Some? ==> r.value < |open| && open[r.value].sector == sector
    ensures r.None? ==> forall i :: 0 <= i < |open| ==> open[i].sector != sector
  {
    if open == [] then None
    else if open[0].sector == sector then Some(0)
    else match BySector(open[1..], sector)
    case None => None
    case Some(i) => Some(i + 1)
  }

  function ById(open: seq<Inode>, id: nat): (r: Option<nat>)
    ensures r.Some? ==> r.value < |open| && open[r.value].id == id
    ensures r.None? ==> forall i :: 0 <= i < |open| ==> open[i].id != id
  {
    if open == [] then None
    else if open[0].id == id then Some(0)
    else match ById(open[1..], id)
    case None => None
    case Some(i) => Some(i + 1)
  }

  /** The inode that `id` points to */
  function Get(open: seq<Inode>, id: nat): Inode {
    match ById(open, id)
    case None => Inode(id, 0, 0, 0, false, 0, 0)
    case Some(i) => open[i]
  }

  function Put(open: seq<Inode>, n: Inode): (r: seq<Inode>) {
    match ById(open, n.id)
    case None => open
    case Some(i) => open[i := n]
  }

  function Without(open: seq<Inode>, id: nat): (r: seq<Inode>) {
    match ById(open, id)
    case None => open
    case Some(i) => open[..i] + open[i + 1..]
  }

  // ----- the free map

  function One(used: seq<bool>, i: nat): (x: nat)
    ensures x <= 1
  {
    if i < |used| && used[i] then 1 else 0
  }

  function TwoTo(n: nat): nat { if n == 0 then 1 else 2 * TwoTo(n - 1) }

  /** `n` bits from `i` on, the first the least significant */
  function BitsFrom(used: seq<bool>, i: nat, n: nat): (x: nat)
    ensures x < TwoTo(n)
    decreases n
  {
    if n == 0 then 0 else One(used, i) + 2 * BitsFrom(used, i + 1, n - 1)
  }

  function MapByte(used: seq<bool>, i: nat): Byte {
    assert TwoTo(8) == 256;
    BitsFrom(used, i, 8)
  }

  /** bitmap_file_size() */
  function MapSize(bits: nat): nat { 4 * ((bits + 31) / 32) }

  /** The words of the bitmap as bytes of the file */
  function MapBytes(used: seq<bool>): (b: seq<Byte>)
    ensures |b| == MapSize(|used|)
  {
    seq(MapSize(|used|), k requires 0 <= k < MapSize(|used|) => MapByte(used, 8 * k))
  }

  /** inode_write_at() for an inode in memory */
  function Written(n: Inode, size: int, offset: nat, mem: bool): nat {
    if n.denyCnt != 0 then 0 else Transferred(n.length, size, offset, mem)
  }

  function StoreIn(disk: seq<Sector>, n: Inode, offset: nat, data: seq<Byte>, mem: bool): seq<Sector> {
    Stored(disk, n.start, offset, data[..Written(n, |data|, offset, mem)])
  }

  function MapInode(fs: Fs): Inode {
    if FREE_MAP in fs.files then Get(fs.open, fs.files[FREE_MAP].inode) else Get([], 0)
  }

  /** bitmap_write() to the free map's file; how much of it is written depends on the bounce buffer. */
  function MapWritten(fs: Fs, mem: bool): (Fs, bool) {
    var n, data := MapInode(fs), MapBytes(fs.used);
    (fs.(disk := StoreIn(fs.disk, n, 0, data, mem)), Written(n, |data|, 0, mem) == |data|)
  }

  /** free_map_allocate(); there is no map file yet while formatting. */
  function Allocate(fs: Fs, cnt: nat, mem: bool): (Fs, Option<nat>) {
    match B.FirstFit(fs.used, 0, cnt, false)
    case None => (fs, None)
    case Some(s) =>
      var marked := fs.(used := B.WithRange(fs.used, s, cnt, true));
      if FREE_MAP !in fs.files then (marked, Some(s)) else
      var (fs', ok) := MapWritten(marked, mem);
      if ok then (fs', Some(s)) else (fs'.(used := B.WithRange(fs'.used, s, cnt, false)), None)
  }

  /** free_map_release() */
  function Release(fs: Fs, s: nat, cnt: nat, mem: bool): Fs {
    MapWritten(fs.(used := B.WithRange(fs.used, s, cnt, false)), mem).0
  }

  /** The assertion of free_map_release() */
  predicate ReleaseAsserts(fs: Fs, s: nat, cnt: nat) {
    B.InRange(fs.used, s, cnt) && B.AllAre(fs.used, s, cnt, true)
  }

  // ----- inode.c; `mem` says of each memory allocation in turn whether it succeeds

  function CreateInode(fs: Fs, s: nat, length: nat, mem: nat -> bool): (Fs, bool) {
    if !mem(0) then (fs, false) else
    match Allocate(fs, BytesToSectors(length), mem(1))
    case (fs', None) => (fs', false)
    case (fs', Some(start)) => (fs'.(disk := NewInode(fs'.disk, s, start, length)), true)
  }

  function OpenInode(fs: Fs, s: nat, mem: bool): (Fs, Option<nat>)
    requires s < |fs.disk|
  {
    match BySector(fs.open, s)
    case Some(i) =>
      (fs.(open := fs.open[i := fs.open[i].(openCnt := fs.open[i].openCnt + 1)]), Some(fs.open[i].id))
    case None =>
      if !mem then (fs, None) else
      var n := Inode(fs.next, s, 1, 0, false, Start(fs.disk[s]), Length(fs.disk[s]));
      (fs.(open := [n] + fs.open, next := fs.next + 1), Some(fs.next))
  }

  function CloseInode(fs: Fs, id: nat, mem: nat -> bool): Fs {
    var n := Get(fs.open, id);
    if n.openCnt != 1 then fs.(open := Put(fs.open, n.(openCnt := n.openCnt - 1))) else
    var fs' := fs.(open := Without(fs.open, id));
    if n.removed then Release(Release(fs', n.sector, 1, mem(0)), n.start, BytesToSectors(n.length), mem(1)) else fs'
  }

  // ----- filesys.c and file.c

  function Shift(mem: nat -> bool, k: nat): nat -> bool { (i: nat) => mem(i + k) }

  function RootDir(fs: Fs): seq<Byte> {
    if ROOT_DIR < |fs.disk| then Bytes(fs.disk, fs.disk[ROOT_DIR]) else []
  }

  /** Writing record `k` of the root directory */
  function WithRecord(fs: Fs, k: nat, r: Record): Fs {
    if ROOT_DIR < |fs.disk| then fs.(disk := Stored(fs.disk, Start(fs.disk[ROOT_DIR]), ENTRY * k, r)) else fs
  }

  /** filesys_create(); `d` says how far memory goes in the directory. */
  function Create(fs: Fs, name: seq<Byte>, size: nat, mem: nat -> bool, d: Outcome): (Fs, bool) {
    if !mem(0) then (fs, false) else
    match Allocate(fs, 1, mem(1))
    case (fs1, None) => (fs1, false)
    case (fs1, Some(s)) =>
      var (fs2, made) := CreateInode(fs1, s, size, Shift(mem, 2));
      if !made then (Release(fs2, s, 1, mem(4)), false) else
      match Addition(RootDir(fs2), name, s, d)
      case None => (Release(fs2, s, 1, mem(4)), false)
      case Some((k, r)) => (WithRecord(fs2, k, r), true)
  }

  /** file_open() on a reference to inode `id` */
  function NewFile(fs: Fs, id: nat, mem: nat -> bool): (Fs, Option<nat>) {
    if mem(0) then (fs.(files := fs.files[fs.next := File(id, 0, false)], next := fs.next + 1), Some(fs.next))
    else (CloseInode(fs, id, Shift(mem, 1)), None)
  }

  /** filesys_open() */
  function Open(fs: Fs, name: seq<Byte>, mem: nat -> bool, d: Outcome): (Fs, Option<nat>) {
    if !mem(0) then (fs, None) else
    match Sought(RootDir(fs), name, d.lookup)
    case None => (fs, None)
    case Some(k) =>
      var s := SectorOf(RecordAt(RootDir(fs), k));
      if s >= |fs.disk| then (fs, None) else
      match OpenInode(fs, s, mem(1))
      case (fs', None) => (fs', None)
      case (fs', Some(id)) => NewFile(fs', id, Shift(mem, 2))
  }

  /** filesys_remove() */
  function Remove(fs: Fs, name: seq<Byte>, mem: nat -> bool, d: Outcome): (Fs, bool) {
    if !mem(0) then (fs, false) else
    match Sought(RootDir(fs), name, d.lookup)
    case None => (fs, false)
    case Some(k) =>
      var r := RecordAt(RootDir(fs), k);
      if SectorOf(r) >= |fs.disk| then (fs, false) else
      match OpenInode(fs, SectorOf(r), mem(1))
      case (fs1, None) => (fs1, false)
      case (fs1, Some(id)) =>
        if !d.write then (CloseInode(fs1, id, Shift(mem, 2)), false) else
        var fs2 := WithRecord(fs1, k, FreedRecord(r));
        (CloseInode(fs2.(open := Put(fs2.open, Get(fs2.open, id).(removed := true))), id, Shift(mem, 2)), true)
  }

  /** file_reopen() */
  function Reopen(fs: Fs, h: nat, mem: nat -> bool): (Fs, Option<nat>)
    requires h in fs.files
  {
    var n := Get(fs.open, fs.files[h].inode);
    NewFile(fs.(open := Put(fs.open, n.(openCnt := n.openCnt + 1))), n.id, mem)
  }

  /** file_deny_write() and file_allow_write() */
  function Deny(fs: Fs, h: nat, deny: bool): Fs
    requires h in fs.files
  {
    var f, n := fs.files[h], Get(fs.open, fs.files[h].inode);
    if f.deny == deny then fs else
    fs.(files := fs.files[h := f.(deny := deny)],
        open := Put(fs.open, n.(denyCnt := n.denyCnt + if deny then 1 else -1)))
  }

  /** file_close() */
  function Close(fs: Fs, h: nat, mem: nat -> bool): Fs
    requires h in fs.files
  {
    var fs' := Deny(fs, h, false);
    CloseInode(fs'.(files := fs'.files - {h}), fs.files[h].inode, mem)
  }

  /** file_write() */
  function Write(fs: Fs, h: nat, data: seq<Byte>, mem: bool): Fs
    requires h in fs.files
  {
    var f, n := fs.files[h], Get(fs.open, fs.files[h].inode);
    fs.(disk := StoreIn(fs.disk, n, f.pos, data, mem),
        files := fs.files[h := f.(pos := f.pos + Written(n, |data|, f.pos, mem))])
  }

  /** file_read() leaves its result in the caller's buffer and moves on. */
  function Read(fs: Fs, h: nat, size: int, mem: bool): Fs
    requires h in fs.files
  {
    var f, n := fs.files[h], Get(fs.open, fs.files[h].inode);
    fs.(files := fs.files[h := f.(pos := f.pos + Transferred(n.length, size, f.pos, mem))])
  }

  /** file_seek() */
  function Seek(fs: Fs, h: nat, pos: nat): Fs
    requires h in fs.files
  {
    fs.(files := fs.files[h := fs.files[h].(pos := pos)])
  }
}
