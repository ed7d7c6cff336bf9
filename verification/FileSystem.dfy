/** The operations of the file system as they work on the device and the free map in place. */
module FileSystem {
  import opened Common
  import opened InodeIO
  import opened Directory
  import FS = FileSys
  import opened FileSysDisk
  import opened FileSysTables
  import opened FileSysSafety
  import opened FileSysOps
  import opened FileSysTheorems
  import B = Bitmap

  /** The free map's file can be written. */
  ghost predicate MapUsable(fs: FS.Fs) {
    var n := FS.MapInode(fs);
    FS.FREE_MAP in fs.files && n.denyCnt >= 0 && OnDevice(fs.disk, n.start, n.length)
  }

  lemma {:induction false} FirstBySector(open: seq<FS.Inode>, s: nat, i: nat)
    requires i < |open| && open[i].sector == s && forall j :: 0 <= j < i ==> open[j].sector != s
    ensures FS.BySector(open, s) == Some(i)
  {
    if i > 0 { FirstBySector(open[1..], s, i - 1); }
  }

  lemma PutGet(open: seq<FS.Inode>, n: FS.Inode, id: nat)
    requires FS.ById(open, n.id).Some?
    ensures FS.Get(FS.Put(open, n), id) == if id == n.id then n else FS.Get(open, id)
  {
    SameIds(open, FS.Put(open, n), id);
  }

  /** The state in which inode_close() may be called for `id` */
  ghost predicate CloseReady(fs: FS.Fs, id: nat) {
    && FS.ById(fs.open, id).Some?
    && var n := FS.Get(fs.open, id);
    && (n.openCnt == 1 ==> MapUsable(fs.(open := FS.Without(fs.open, id))))
    && (n.openCnt == 1 && n.removed ==> B.InRange(fs.used, n.sector, 1) && B.InRange(fs.used, n.start, BytesToSectors(n.length)))
  }

  lemma MapIsUsable(fs: FS.Fs)
    requires CoreInv(fs)
    ensures MapUsable(fs)
  {
    NodeOfFile(fs, FS.FREE_MAP);
    assert PlacedAt(fs.disk, fs.used, FS.FREE_MAP);
  }

  /** A file that is open may be closed; its entry in the table of files does not matter for that. */
  lemma CloseIsReady(fs: FS.Fs, h: nat, files': map<nat, FS.File>)
    requires CoreInv(fs) && h in fs.files && h != FS.FREE_MAP
    requires FS.FREE_MAP in files' && files'[FS.FREE_MAP] == fs.files[FS.FREE_MAP]
    ensures CloseReady(fs.(files := files'), fs.files[h].inode)
  {
    NodeOfFile(fs, h);
    NodeOfFile(fs, FS.FREE_MAP);
    MapIsUsable(fs);
    var id, map0 := fs.files[h].inode, fs.files[FS.FREE_MAP].inode;
    DropIds(fs.open, FS.ById(fs.open, id).value, map0);
    var mem: nat -> bool := _ => true;
    CloseAssertsHold(fs, h, mem);
  }

  /** The inode of an open file lies on the device. */
  ghost predicate FileUsable(fs: FS.Fs, h: nat)
    requires h in fs.files
  {
    var n := FS.Get(fs.open, fs.files[h].inode);
    n.denyCnt >= 0 && OnDevice(fs.disk, n.start, n.length)
  }

  lemma FileIsUsable(fs: FS.Fs, h: nat)
    requires CoreInv(fs) && h in fs.files
    ensures FileUsable(fs, h)
  {
    NodeOfFile(fs, h);
    assert PlacedAt(fs.disk, fs.used, FS.Get(fs.open, fs.files[h].inode).sector);
  }

  lemma ReadKeeps(fs: FS.Fs, h: nat, size: int, mem: bool)
    requires Inv(fs) && h in fs.files
    ensures Inv(FS.Read(fs, h, size, mem)) && MapUsable(FS.Read(fs, h, size, mem))
  {
    var f, n := fs.files[h], FS.Get(fs.open, fs.files[h].inode);
    PosKeeps(fs, h, f.pos + Transferred(n.length, size, f.pos, mem));
    MapIsUsable(FS.Read(fs, h, size, mem));
  }

  class FileSystem {
    const dev: Device
    const freeMap: B.Bitmap
    var open: seq<FS.Inode>
    var files: map<nat, FS.File>
    var next: nat

    constructor (d: Device, m: B.Bitmap, o: seq<FS.Inode>, f: map<nat, FS.File>, n: nat)
      ensures dev == d && freeMap == m && open == o && files == f && next == n
    {
      dev, freeMap, open, files, next := d, m, o, f, n;
    }

    ghost function State(): FS.Fs
      requires freeMap.Valid()
      reads this, dev, freeMap.words
    {
      FS.Fs(dev.sectors, freeMap.Bits(), open, files, next)
    }

    ghost predicate Ready()
      reads this, dev, freeMap.words
    {
      freeMap.Valid() && freeMap.bitCnt == |dev.sectors| && MapUsable(State())
    }

    ghost predicate Valid()
      reads this, dev, freeMap.words
    {
      Ready() && Inv(State())
    }

    // ----- free-map.c

    /** The words of the bitmap, in memory, are its bits in order. */
    method Snapshot() returns (bits: seq<bool>)
      requires freeMap.Valid()
      ensures bits == freeMap.Bits()
    {
      bits := [];
      for i := 0 to freeMap.bitCnt
        invariant bits == freeMap.Bits()[..i]
      {
        bits := bits + [freeMap.Bit(i)];
      }
    }

    /** bitmap_write() to free_map_file */
    method WriteMap(mem: bool) returns (ok: bool)
      requires Ready()
      modifies dev
      ensures Ready() && (State(), ok) == FS.MapWritten(old(State()), mem)
    {
      var bits := Snapshot();
      var data := FS.MapBytes(bits);
      var n := FS.Get(open, files[FS.FREE_MAP].inode);
      var cnt := WriteAt(dev, n.start, n.length, n.denyCnt, data, |data|, 0, mem);
      return cnt == |data|;
    }

    /** free_map_allocate() */
    method Allocate(cnt: nat, mem: bool) returns (r: Option<nat>)
      requires Ready()
      modifies dev, freeMap.words
      ensures Ready() && (State(), r) == FS.Allocate(old(State()), cnt, mem)
    {
      ghost var bits := freeMap.Bits();
      r := freeMap.ScanAndFlip(0, cnt, false);
      B.FirstFitIsUnique(bits, 0, cnt, false, r, B.FirstFit(bits, 0, cnt, false));
      if r.None? {
        return;
      }
      var ok := WriteMap(mem);
      if !ok {
        freeMap.SetMultiple(r.value, cnt, false);
        r := None;
      }
    }

    /** free_map_release() */
    method Release(s: nat, cnt: nat, mem: bool)
      requires Ready() && s + cnt <= freeMap.bitCnt
      modifies dev, freeMap.words
      ensures Ready() && State() == FS.Release(old(State()), s, cnt, mem)
    {
      freeMap.SetMultiple(s, cnt, false);
      var _ := WriteMap(mem);
    }

    // ----- inode.c

    /** inode_create() */
    method CreateInode(s: nat, length: nat, mem: nat -> bool) returns (ok: bool)
      requires Ready() && s < |dev.sectors|
      modifies dev, freeMap.words
      ensures Ready() && (State(), ok) == FS.CreateInode(old(State()), s, length, mem)
    {
      if !mem(0) {
        return false;
      }
      var cnt := BytesToSectors(length);
      var start := Allocate(cnt, mem(1));
      if start.None? {
        return false;
      }
      dev.sectors := dev.sectors[s := FS.Header(start.value, length)];
      ZeroSectors(start.value, cnt);
      return true;
    }

    /** The loop of inode_create() */
    method ZeroSectors(start: nat, cnt: nat)
      requires start + cnt <= |dev.sectors|
      modifies dev
      ensures dev.sectors == FS.Zeroed(old(dev.sectors), start, cnt)
    {
      for i := 0 to cnt
        invariant dev.sectors == FS.Zeroed(old(dev.sectors), start, i)
      {
        dev.sectors := dev.sectors[start + i := FS.ZEROS];
      }
    }

    /** inode_open() */
    method OpenInode(s: nat, mem: bool) returns (r: Option<nat>)
      requires freeMap.Valid() && s < |dev.sectors|
      modifies this
      ensures (State(), r) == FS.OpenInode(old(State()), s, mem)
    {
      for i := 0 to |open|
        invariant open == old(open) && files == old(files) && next == old(next)
        invariant forall j :: 0 <= j < i ==> open[j].sector != s
      {
        if open[i].sector == s {
          FirstBySector(open, s, i);
          open := open[i := open[i].(openCnt := open[i].openCnt + 1)];
          return Some(open[i].id);
        }
      }
      if !mem {
        return None;
      }
      var data := dev.sectors[s];
      open := [FS.Inode(next, s, 1, 0, false, FS.Start(data), FS.Length(data))] + open;
      next := next + 1;
      return Some(next - 1);
    }

    /** inode_close() */
    method CloseInode(id: nat, mem: nat -> bool)
      requires Ready() && CloseReady(State(), id)
      modifies this, dev, freeMap.words
      ensures Ready() && State() == FS.CloseInode(old(State()), id, mem)
    {
      var n := FS.Get(open, id);
      if n.openCnt - 1 == 0 {
        open := FS.Without(open, id);
        if n.removed {
          Release(n.sector, 1, mem(0));
          Release(n.start, BytesToSectors(n.length), mem(1));
        }
      } else {
        PutGet(open, n.(openCnt := n.openCnt - 1), files[FS.FREE_MAP].inode);
        open := FS.Put(open, n.(openCnt := n.openCnt - 1));
      }
    }

    // ----- file.c

    /** file_deny_write() and file_allow_write() */
    method Deny(h: nat, deny: bool)
      requires freeMap.Valid() && h in files
      modifies this
      ensures State() == FS.Deny(old(State()), h, deny)
    {
      if files[h].deny != deny {
        var n := FS.Get(open, files[h].inode);
        files := files[h := files[h].(deny := deny)];
        open := FS.Put(open, n.(denyCnt := n.denyCnt + if deny then 1 else -1));
      }
    }

    /** file_close() */
    method Close(h: nat, mem: nat -> bool)
      requires Valid() && h in files && h != FS.FREE_MAP
      modifies this, dev, freeMap.words
      ensures Valid() && State() == FS.Close(old(State()), h, mem)
    {
      ghost var fs := State();
      CloseFileKeeps(fs, h, mem);
      DenyKeeps(fs, h, false);
      var id := files[h].inode;
      Deny(h, false);
      CloseIsReady(State(), h, files - {h});
      MapIsUsable(State());
      files := files - {h};
      CloseInode(id, mem);
    }

    /** file_write() on a file whose inode is as it should be */
    method WriteFile(h: nat, data: seq<Byte>, mem: bool) returns (cnt: nat)
      requires freeMap.Valid() && h in files && FileUsable(State(), h)
      modifies this, dev
      ensures State() == FS.Write(old(State()), h, data, mem) && |dev.sectors| == |old(dev.sectors)|
      ensures files[h].pos == old(files[h].pos) + cnt
    {
      var f := files[h];
      var n := FS.Get(open, f.inode);
      cnt := WriteAt(dev, n.start, n.length, n.denyCnt, data, |data|, f.pos, mem);
      files := files[h := f.(pos := f.pos + cnt)];
    }

    /** file_write() */
    method Write(h: nat, data: seq<Byte>, mem: bool) returns (cnt: nat)
      requires Valid() && h in files && h != FS.FREE_MAP
      modifies this, dev
      ensures Valid() && State() == FS.Write(old(State()), h, data, mem) && files[h].pos == old(files[h].pos) + cnt
    {
      FileIsUsable(State(), h);
      WriteKeeps(State(), h, data, mem);
      MapIsUsable(FS.Write(State(), h, data, mem));
      cnt := WriteFile(h, data, mem);
    }

    /** file_read() on a file whose inode is as it should be */
    method ReadFile(h: nat, buffer: array<Byte>, size: int, mem: bool) returns (cnt: nat)
      requires freeMap.Valid() && h in files && FileUsable(State(), h) && size <= buffer.Length
      requires (buffer as object) != (freeMap.words as object)
      modifies this, buffer
      ensures State() == FS.Read(old(State()), h, size, mem) && files[h].pos == old(files[h].pos) + cnt
      ensures var n, pos := FS.Get(old(open), old(files[h]).inode), old(files[h]).pos;
        && (cnt == 0 || pos + cnt <= n.length)
        && buffer[..] == Filled(old(buffer[..]), Content(dev.sectors, n.start, n.length), pos, cnt)
    {
      var f := files[h];
      var n := FS.Get(open, f.inode);
      cnt := ReadAt(dev, n.start, n.length, buffer, size, f.pos, mem);
      files := files[h := f.(pos := f.pos + cnt)];
    }

    /** file_read() */
    method Read(h: nat, buffer: array<Byte>, size: int, mem: bool) returns (cnt: nat)
      requires Valid() && h in files && h != FS.FREE_MAP && size <= buffer.Length
      requires (buffer as object) != (freeMap.words as object)
      modifies this, buffer
      ensures Valid() && State() == FS.Read(old(State()), h, size, mem) && files[h].pos == old(files[h].pos) + cnt
      ensures var n, pos := FS.Get(old(open), old(files[h]).inode), old(files[h]).pos;
        && OnDevice(dev.sectors, n.start, n.length) && (cnt == 0 || pos + cnt <= n.length)
        && buffer[..] == Filled(old(buffer[..]), Content(dev.sectors, n.start, n.length), pos, cnt)
    {
      FileIsUsable(State(), h);
      ReadKeeps(State(), h, size, mem);
      cnt := ReadFile(h, buffer, size, mem);
    }

    /** file_seek() */
    method Seek(h: nat, pos: nat)
      requires Valid() && h in files && h != FS.FREE_MAP
      modifies this
      ensures Valid() && State() == FS.Seek(old(State()), h, pos)
    {
      PosKeeps(State(), h, pos);
      MapIsUsable(FS.Seek(State(), h, pos));
      files := files[h := files[h].(pos := pos)];
    }

    /** file_open() on a new reference to inode `id` */
    method NewFile(id: nat, mem: nat -> bool) returns (r: Option<nat>)
      requires Ready() && CloseReady(State(), id) && next != FS.FREE_MAP
      modifies this, dev, freeMap.words
      ensures Ready() && (State(), r) == FS.NewFile(old(State()), id, mem)
    {
      if mem(0) {
        files := files[next := FS.File(id, 0, false)];
        next := next + 1;
        return Some(next - 1);
      }
      CloseInode(id, FS.Shift(mem, 1));
      return None;
    }

    // ----- filesys.c

    /** lookup() in the root directory */
    method FindName(name: seq<Byte>, cut: nat) returns (r: Option<(nat, Record)>)
      requires Valid()
      ensures var dir := FS.RootDir(State());
        match Sought(dir, name, cut)
        case None => r == None
        case Some(k) => r == Some((k, RecordAt(dir, k)))
    {
      RootOnDevice(State());
      var root := dev.sectors[FS.ROOT_DIR];
      r := Lookup(dev, FS.Start(root), FS.Length(root), name, cut);
    }

    /** filesys_open() */
    method Open(name: seq<Byte>, mem: nat -> bool, d: Outcome) returns (r: Option<nat>)
      requires Valid()
      modifies this, dev, freeMap.words
      ensures Valid() && (State(), r) == FS.Open(old(State()), name, mem, d)
    {
      ghost var fs := State();
      OpenKeeps(fs, name, mem, d);
      if !mem(0) {
        return None;
      }
      var found := FindName(name, d.lookup);
      if found.None? {
        return None;
      }
      FoundIsListed(fs, found.value.0);
      var s := SectorOf(found.value.1);
      var id := OpenInode(s, mem(1));
      if id.None? {
        return None;
      }
      ReferenceReady(fs, s, mem(1));
      r := NewFile(id.value, FS.Shift(mem, 2));
    }

    /** file_reopen() */
    method Reopen(h: nat, mem: nat -> bool) returns (r: Option<nat>)
      requires Valid() && h in files && h != FS.FREE_MAP
      modifies this, dev, freeMap.words
      ensures Valid() && (State(), r) == FS.Reopen(old(State()), h, mem)
    {
      ghost var fs, fs1 := State(), Reopened(State(), files[h].inode);
      ReopenReady(fs, h, mem);
      var id := ReopenInode(Some(files[h].inode));
      assert State() == fs1;
      r := NewFile(id.value, mem);
    }

    /** inode_reopen(), of an inode that may be a null pointer */
    method ReopenInode(id: Option<nat>) returns (r: Option<nat>)
      requires freeMap.Valid()
      modifies this
      ensures id.None? ==> r.None? && State() == old(State())
      ensures id.Some? ==> r == Some(FS.Get(old(open), id.value).id) && State() == Reopened(old(State()), id.value)
    {
      if id.None? {
        return None;
      }
      var n := FS.Get(open, id.value);
      open := FS.Put(open, n.(openCnt := n.openCnt + 1));
      return Some(n.id);
    }

    /** file_deny_write() or file_allow_write() by a client */
    method SetDeny(h: nat, deny: bool)
      requires Valid() && h in files && h != FS.FREE_MAP
      modifies this
      ensures Valid() && State() == FS.Deny(old(State()), h, deny)
    {
      DenyKeeps(State(), h, deny);
      DenyNext(State(), h, deny);
      MapIsUsable(FS.Deny(State(), h, deny));
      Deny(h, deny);
    }

    /** The part of dir_remove() after it has opened the inode */
    method EraseEntry(k: nat, e: Record, id: nat, mem: nat -> bool, bounce: bool) returns (ok: bool)
      requires freeMap.Valid() && freeMap.bitCnt == |dev.sectors| && EraseReady(State(), k, e, id)
      modifies this, dev, freeMap.words
      ensures Ready() && ok == bounce
      ensures State() == FS.CloseInode(if ok then ErasedFs(old(State()), k, id) else old(State()), id, mem)
    {
      var root := dev.sectors[FS.ROOT_DIR];
      ok := Erase(dev, FS.Start(root), FS.Length(root), k, e, bounce);
      if ok {
        open := FS.Put(open, FS.Get(open, id).(removed := true));
      }
      CloseInode(id, mem);
    }

    /** filesys_remove() */
    method Remove(name: seq<Byte>, mem: nat -> bool, d: Outcome) returns (ok: bool)
      requires Valid()
      modifies this, dev, freeMap.words
      ensures Valid() && (State(), ok) == FS.Remove(old(State()), name, mem, d)
    {
      ghost var fs := State();
      RemoveKeeps(fs, name, mem, d);
      if !mem(0) {
        return false;
      }
      var found := FindName(name, d.lookup);
      if found.None? {
        return false;
      }
      var (k, e) := found.value;
      FoundIsListed(fs, k);
      var id := OpenInode(SectorOf(e), mem(1));
      if id.None? {
        return false;
      }
      RemoveReady(fs, k, mem(1));
      ok := EraseEntry(k, e, id.value, FS.Shift(mem, 2), d.write);
    }

    /** dir_add() to the root directory */
    method AddName(name: seq<Byte>, s: nat, d: Outcome) returns (ok: bool)
      requires Ready() && RootReady(State())
      modifies dev
      ensures Ready()
      ensures match Addition(FS.RootDir(old(State())), name, s, d)
        case None => !ok && State() == old(State())
        case Some((k, r)) => ok && State() == FS.WithRecord(old(State()), k, r)
    {
      var root := dev.sectors[FS.ROOT_DIR];
      ok := Add(dev, FS.Start(root), FS.Length(root), name, s, d);
    }

    /** filesys_create() */
    method Create(name: seq<Byte>, size: nat, mem: nat -> bool, d: Outcome) returns (ok: bool)
      requires Valid() && IsName(name) && size < FS.MAX_LENGTH
      modifies this, dev, freeMap.words
      ensures Valid() && (State(), ok) == FS.Create(old(State()), name, size, mem, d)
    {
      ghost var fs := State();
      CreateKeeps(fs, name, size, mem, d);
      if !mem(0) {
        return false;
      }
      var s := Allocate(1, mem(1));
      if s.None? {
        return false;
      }
      CreateReady(fs, size, mem);
      ok := CreateInode(s.value, size, FS.Shift(mem, 2));
      if ok {
        ok := AddName(name, s.value, d);
      }
      if !ok {
        Release(s.value, 1, mem(4));
      }
    }
  }

  /** The root directory can be written. */
  ghost predicate RootReady(fs: FS.Fs) {
    && FS.ROOT_DIR < |fs.disk|
    && var root := fs.disk[FS.ROOT_DIR];
    && OnDevice(fs.disk, FS.Start(root), FS.Length(root)) && FS.Length(root) % ENTRY == 0
    && FS.RootDir(fs) == Content(fs.disk, FS.Start(root), FS.Length(root))
  }

  lemma CreateReady(fs: FS.Fs, size: nat, mem: nat -> bool)
    requires Inv(fs) && size < FS.MAX_LENGTH && FS.Allocate(fs, 1, mem(1)).1.Some?
    ensures var (fs1, s) := FS.Allocate(fs, 1, mem(1));
      && s.value < |fs1.disk| == |fs.disk|
      && var fs2 := FS.CreateInode(fs1, s.value, size, FS.Shift(mem, 2)).0; RootReady(fs2) && |fs2.disk| == |fs.disk|
  {
    var s := FS.Allocate(fs, 1, mem(1)).1.value;
    var fs1 := TakeSector(fs, mem(1), s);
    var fs2, made := TryInode(fs, fs1, s, size, FS.Shift(mem, 2));
    RootKept(fs, fs2.disk, LiveSet(fs), FS.FREE_MAP);
    RootOnDevice(fs);
  }

  /** The state in which EraseEntry() may be called */
  ghost predicate EraseReady(fs: FS.Fs, k: nat, e: Record, id: nat) {
    && FS.ROOT_DIR < |fs.disk| && k < Count(FS.RootDir(fs)) && e == RecordAt(FS.RootDir(fs), k)
    && var root := fs.disk[FS.ROOT_DIR];
    && OnDevice(fs.disk, FS.Start(root), FS.Length(root)) && FS.RootDir(fs) == Content(fs.disk, FS.Start(root), FS.Length(root))
    && FS.Length(root) % ENTRY == 0 && MapUsable(fs) && CloseReady(fs, id)
    && MapUsable(ErasedFs(fs, k, id)) && CloseReady(ErasedFs(fs, k, id), id)
  }

  lemma ReopenReady(fs: FS.Fs, h: nat, mem: nat -> bool)
    requires Inv(fs) && h in fs.files && h != FS.FREE_MAP
    ensures var fs1, id := Reopened(fs, fs.files[h].inode), FS.Get(fs.open, fs.files[h].inode).id;
      && MapUsable(fs1) && CloseReady(fs1, id) && fs1.next != FS.FREE_MAP
      && FS.Reopen(fs, h, mem) == FS.NewFile(fs1, id, mem) && Inv(FS.NewFile(fs1, id, mem).0)
  {
    ReopenKeeps(fs, h, mem);
    ReopenHolds(fs, h);
    ReopenIs(fs, h, mem);
    var id := fs.files[h].inode;
    var held := Reopened(fs, id).(files := fs.files[fs.next := FS.File(id, 0, false)]);
    CloseIsReady(held, fs.next, fs.files);
    MapIsUsable(held);
  }

  lemma RemoveReady(fs: FS.Fs, k: nat, mem: bool)
    requires Inv(fs) && k < Count(FS.RootDir(fs)) && InUse(RecordAt(FS.RootDir(fs), k)) && SectorOf(RecordAt(FS.RootDir(fs), k)) < |fs.disk|
    requires FS.OpenInode(fs, SectorOf(RecordAt(FS.RootDir(fs), k)), mem).1.Some?
    ensures var e := RecordAt(FS.RootDir(fs), k); var (fs1, id) := FS.OpenInode(fs, SectorOf(e), mem);
      EraseReady(fs1, k, e, id.value)
  {
    var e := RecordAt(FS.RootDir(fs), k);
    FoundIsListed(fs, k);
    var fs1, id, h := Reference(fs, SectorOf(e), mem);
    ReferenceReady(fs, SectorOf(e), mem);
    var yes: nat -> bool := _ => true;
    var erased := RemoveOpened(fs1, k, id, h, yes);
    RootOnDevice(fs);
    CloseIsReady(erased, h, fs1.files);
    MapIsUsable(erased);
  }

  lemma RootOnDevice(fs: FS.Fs)
    requires CoreInv(fs)
    ensures FS.ROOT_DIR < |fs.disk|
    ensures var root := fs.disk[FS.ROOT_DIR];
      && OnDevice(fs.disk, FS.Start(root), FS.Length(root)) && FS.Length(root) % ENTRY == 0
      && FS.RootDir(fs) == Content(fs.disk, FS.Start(root), FS.Length(root))
  {
    assert Live(fs, FS.ROOT_DIR);
    assert PlacedAt(fs.disk, fs.used, FS.ROOT_DIR);
  }

  /** After inode_open() the reference may be given up again. */
  lemma ReferenceReady(fs: FS.Fs, s: nat, mem: bool)
    requires Inv(fs) && s < |fs.disk| && Listed(FS.RootDir(fs), s) && FS.OpenInode(fs, s, mem).1.Some?
    ensures var (fs1, id) := FS.OpenInode(fs, s, mem); MapUsable(fs1) && CloseReady(fs1, id.value) && fs1.next != FS.FREE_MAP
  {
    var fs1, id, h := Reference(fs, s, mem);
    var held := fs1.(files := fs1.files[h := FS.File(id, 0, false)]);
    CloseIsReady(held, h, fs1.files);
    MapIsUsable(held);
  }
}
