/** Byte-wise reading and writing of a file that occupies consecutive sectors; inode.c. */
module InodeIO {
  import opened Common

  const SECTOR: int := 512

  type Sector = s: seq<Byte> | |s| == SECTOR witness seq(SECTOR, _ => 0)

  /** bytes_to_sectors() */
  function BytesToSectors(size: nat): (k: nat)
    ensures SECTOR * k >= size > SECTOR * (k - 1)
  {
    (size + SECTOR - 1) / SECTOR
  }

  /** The data sectors of the file are on the device. */
  predicate OnDevice(disk: seq<Sector>, start: nat, length: nat) {
    start + BytesToSectors(length) <= |disk|
  }

  /** The bytes of a file, as one flat array. */
  function Content(disk: seq<Sector>, start: nat, length: nat): (c: seq<Byte>)
    requires OnDevice(disk, start, length)
  {
    seq(length, p requires 0 <= p < length => disk[start + p / SECTOR][p % SECTOR])
  }

  /** `disk` with `data` at position `offset` of the file whose first sector is `start`. */
  function Stored(disk: seq<Sector>, start: nat, offset: nat, data: seq<Byte>): seq<Sector> {
    seq(|disk|, k requires 0 <= k < |disk| =>
      if k < start then disk[k] else
      seq(SECTOR, j requires 0 <= j < SECTOR =>
        var p := (k - start) * SECTOR + j;
        if offset <= p < offset + |data| then data[p - offset] else disk[k][j]))
  }


  /** How many bytes one turn of the loops transfers. */
  function Chunk(length: nat, size: int, offset: nat): int {
    Min(size, Min(length - offset, SECTOR - offset % SECTOR))
  }

  /** Whether a turn goes directly between the buffer and the disk. */
  predicate WholeSector(offset: nat, chunk: int) { offset % SECTOR == 0 && chunk == SECTOR }

  /** The bytes transferred by inode_read_at() and inode_write_at(): all up to the end of the file, or
      whole sectors only if the bounce buffer cannot be allocated. */
  function Transferred(length: nat, size: int, offset: nat, bounce: bool): (n: nat)
    ensures n <= (if size < 0 then 0 else size) && (n == 0 || offset + n <= length)
  {
    var m := Min(size, length - offset);
    if m <= 0 then 0
    else if bounce then m
    else if offset % SECTOR == 0 then m / SECTOR * SECTOR
    else 0
  }

  /** Where the loops stand after `n` bytes, and where they stop. */
  predicate Underway(length: nat, size: int, offset: nat, bounce: bool, n: nat) {
    n <= Transferred(length, size, offset, bounce) && (!bounce && n > 0 ==> offset % SECTOR == 0 && n % SECTOR == 0)
  }

  lemma TurnGoesOn(length: nat, size: int, offset: nat, bounce: bool, n: nat)
    requires Underway(length, size, offset, bounce, n) && n < size
    ensures var c := Chunk(length, size - n, offset + n);
      if c > 0 && (WholeSector(offset + n, c) || bounce) then Underway(length, size, offset, bounce, n + c)
      else n == Transferred(length, size, offset, bounce)
  {
  }

  // ----- what a write does to the flat view

  lemma StoredNothing(disk: seq<Sector>, start: nat, offset: nat)
    ensures Stored(disk, start, offset, []) == disk
  {
    forall k | 0 <= k < |disk| ensures Stored(disk, start, offset, [])[k] == disk[k] {}
  }

  lemma StoredInTwo(disk: seq<Sector>, start: nat, offset: nat, a: seq<Byte>, b: seq<Byte>)
    ensures Stored(Stored(disk, start, offset, a), start, offset + |a|, b) == Stored(disk, start, offset, a + b)
  {
    var x, y := Stored(Stored(disk, start, offset, a), start, offset + |a|, b), Stored(disk, start, offset, a + b);
    forall k | 0 <= k < |disk| ensures x[k] == y[k] {}
  }

  lemma PositionOf(p: nat)
    ensures p / SECTOR * SECTOR + p % SECTOR == p && p % SECTOR < SECTOR
  {
  }

  /** A write replaces exactly the slice it is aimed at. */
  lemma WriteReplacesSlice(disk: seq<Sector>, start: nat, length: nat, offset: nat, data: seq<Byte>)
    requires OnDevice(disk, start, length) && offset + |data| <= length
    ensures OnDevice(Stored(disk, start, offset, data), start, length)
    ensures var c := Content(disk, start, length);
      Content(Stored(disk, start, offset, data), start, length) == c[..offset] + data + c[offset + |data|..]
  {
    forall p | 0 <= p < length { PositionOf(p); }
  }

  /** It leaves alone every sector outside the file. */
  lemma WriteStaysInside(disk: seq<Sector>, start: nat, length: nat, offset: nat, data: seq<Byte>, k: nat)
    requires k < |disk| && (data == [] || offset + |data| <= length)
    requires k < start || start + BytesToSectors(length) <= k
    ensures Stored(disk, start, offset, data)[k] == disk[k]
  {
  }

  // ----- the loops

  class Device {
    var sectors: seq<Sector>
    constructor (s: seq<Sector>)
      ensures sectors == s
    {
      sectors := s;
    }
  }

  /** The bytes of one chunk lie together in one sector. */
  lemma ChunkInSector(disk: seq<Sector>, start: nat, length: nat, offset: nat, chunk: nat)
    requires OnDevice(disk, start, length) && 0 < chunk && offset + chunk <= length && offset % SECTOR + chunk <= SECTOR
    ensures start + offset / SECTOR < |disk|
    ensures Content(disk, start, length)[offset..offset + chunk]
         == disk[start + offset / SECTOR][offset % SECTOR..offset % SECTOR + chunk]
  {
    var c, s := Content(disk, start, length)[offset..offset + chunk], disk[start + offset / SECTOR];
    forall i | 0 <= i < chunk ensures c[i] == s[offset % SECTOR + i] {
      assert (offset + i) / SECTOR == offset / SECTOR && (offset + i) % SECTOR == offset % SECTOR + i;
    }
  }

  /** memcpy() into the buffer at `n` */
  method CopyOut(buffer: array<Byte>, n: nat, data: seq<Byte>)
    requires n + |data| <= buffer.Length
    modifies buffer
    ensures buffer[..] == old(buffer[..])[..n] + data + old(buffer[..])[n + |data|..]
  {
    forall i | n <= i < n + |data| { buffer[i] := data[i - n]; }
  }

  /** A buffer that held `b`, after `n` bytes of `c` from position `from` have come into it. */
  function Filled(b: seq<Byte>, c: seq<Byte>, from: nat, n: nat): seq<Byte>
    requires n <= |b| && (n == 0 || from + n <= |c|)
  {
    if n == 0 then b else c[from..from + n] + b[n..]
  }

  lemma FilledMore(b: seq<Byte>, c: seq<Byte>, from: nat, n: nat, offset: nat, chunk: nat, before: seq<Byte>, after: seq<Byte>)
    requires offset == from + n && n + chunk <= |b| && offset + chunk <= |c| && 0 < chunk
    requires before == Filled(b, c, from, n)
    requires after == before[..n] + c[offset..offset + chunk] + before[n + chunk..]
    ensures after == Filled(b, c, from, n + chunk)
  {
  }

  /** One turn of the loop of inode_read_at(): straight into the buffer, or through the bounce buffer. */
  method ReadChunk(dev: Device, start: nat, length: nat, buffer: array<Byte>, n: nat, offset: nat, chunk: nat, mem: bool)
    returns (ok: bool)
    requires OnDevice(dev.sectors, start, length) && n + chunk <= buffer.Length
    requires 0 < chunk && offset + chunk <= length && offset % SECTOR + chunk <= SECTOR
    modifies buffer
    ensures ok == (WholeSector(offset, chunk) || mem)
    ensures !ok ==> buffer[..] == old(buffer[..])
    ensures ok ==> buffer[..] == old(buffer[..])[..n] + Content(dev.sectors, start, length)[offset..offset + chunk]
                                 + old(buffer[..])[n + chunk..]
  {
    ChunkInSector(dev.sectors, start, length, offset, chunk);
    var sector := dev.sectors[start + offset / SECTOR];
    if offset % SECTOR == 0 && chunk == SECTOR {
      assert sector == sector[0..SECTOR];
      CopyOut(buffer, n, sector);
    } else {
      if !mem {
        return false;
      }
      var bounce := sector;
      CopyOut(buffer, n, bounce[offset % SECTOR..offset % SECTOR + chunk]);
    }
    ok := true;
  }

  /** inode_read_at(): the bytes of the flat array from `offset0` on arrive in the buffer. */
  method ReadAt(dev: Device, start: nat, length: nat, buffer: array<Byte>, size0: int, offset0: nat, mem: bool)
    returns (n: nat)
    requires OnDevice(dev.sectors, start, length) && size0 <= buffer.Length
    modifies buffer
    ensures n == Transferred(length, size0, offset0, mem)
    ensures buffer[..] == Filled(old(buffer[..]), Content(dev.sectors, start, length), offset0, n)
  {
    var size, offset := size0, offset0;
    ghost var c, b := Content(dev.sectors, start, length), buffer[..];
    n := 0;
    while size > 0
      invariant offset == offset0 + n && size == size0 - n && 0 <= n <= buffer.Length && (n == 0 || offset <= length)
      invariant Underway(length, size0, offset0, mem, n)
      invariant buffer[..] == Filled(b, c, offset0, n)
      decreases size
    {
      var chunk := Chunk(length, size, offset);
      TurnGoesOn(length, size0, offset0, mem, n);
      if chunk <= 0 {
        break;
      }
      ghost var before := buffer[..];
      var ok := ReadChunk(dev, start, length, buffer, n, offset, chunk, mem);
      if !ok {
        break;
      }
      FilledMore(b, c, offset0, n, offset, chunk, before, buffer[..]);
      size, offset, n := size - chunk, offset + chunk, n + chunk;
    }
  }

  /** Storing one chunk is rewriting one sector. */
  lemma StoredChunk(disk: seq<Sector>, start: nat, offset: nat, data: seq<Byte>, s: Sector)
    requires start + offset / SECTOR < |disk| && offset % SECTOR + |data| <= SECTOR
    requires var o, was := offset % SECTOR, disk[start + offset / SECTOR];
      s == was[..o] + data + was[o + |data|..]
    ensures disk[start + offset / SECTOR := s] == Stored(disk, start, offset, data)
  {
    var k0, t := start + offset / SECTOR, Stored(disk, start, offset, data);
    forall k | 0 <= k < |disk| ensures t[k] == disk[k0 := s][k] {
      if k == k0 { assert t[k] == s; } else { assert t[k] == disk[k]; }
    }
  }

  /** The disk when the first `n` bytes are written */
  ghost function WrittenUpTo(disk: seq<Sector>, start: nat, from: nat, buffer: seq<Byte>, n: nat): seq<Sector>
    requires n <= |buffer|
  {
    Stored(disk, start, from, buffer[..n])
  }

  lemma StoredMore(disk: seq<Sector>, start: nat, from: nat, buffer: seq<Byte>, n: nat, offset: nat, chunk: nat,
                   before: seq<Sector>, after: seq<Sector>)
    requires n + chunk <= |buffer| && offset == from + n
    requires before == WrittenUpTo(disk, start, from, buffer, n)
    requires after == Stored(before, start, offset, buffer[n..n + chunk])
    ensures after == WrittenUpTo(disk, start, from, buffer, n + chunk)
  {
    StoredInTwo(disk, start, from, buffer[..n], buffer[n..n + chunk]);
    assert buffer[..n] + buffer[n..n + chunk] == buffer[..n + chunk];
  }

  /** One turn of the loop of inode_write_at(): straight to the disk, or by way of the bounce buffer. */
  method WriteChunk(dev: Device, start: nat, length: nat, data: seq<Byte>, offset: nat, mem: bool)
    returns (ok: bool)
    requires OnDevice(dev.sectors, start, length)
    requires data != [] && offset + |data| <= length && offset % SECTOR + |data| <= SECTOR
    modifies dev
    ensures ok == (WholeSector(offset, |data|) || mem)
    ensures dev.sectors == if ok then Stored(old(dev.sectors), start, offset, data) else old(dev.sectors)
  {
    ChunkInSector(dev.sectors, start, length, offset, |data|);
    var idx, ofs := start + offset / SECTOR, offset % SECTOR;
    ghost var disk := dev.sectors;
    if ofs == 0 && |data| == SECTOR {
      dev.sectors := dev.sectors[idx := data];
    } else {
      if !mem {
        return false;
      }
      // A chunk on this path never covers the whole sector, so the sector is always read first.
      var bounce := dev.sectors[idx];
      bounce := bounce[..ofs] + data + bounce[ofs + |data|..];
      dev.sectors := dev.sectors[idx := bounce];
    }
    StoredChunk(disk, start, offset, data, dev.sectors[idx]);
    ok := true;
  }

  /** One turn of the loop of inode_write_at(), from which it may break */
  method WriteTurn(dev: Device, start: nat, length: nat, buffer: seq<Byte>, size0: int, offset0: nat, n: nat, mem: bool,
                   ghost disk: seq<Sector>) returns (goesOn: bool, chunk: int)
    requires OnDevice(dev.sectors, start, length) && n < size0 <= |buffer| && Underway(length, size0, offset0, mem, n)
    requires dev.sectors == WrittenUpTo(disk, start, offset0, buffer, n)
    modifies dev
    ensures goesOn ==> 0 < chunk <= size0 - n && Underway(length, size0, offset0, mem, n + chunk)
    ensures !goesOn ==> n == Transferred(length, size0, offset0, mem)
    ensures dev.sectors == WrittenUpTo(disk, start, offset0, buffer, if goesOn then n + chunk else n)
  {
    var offset := offset0 + n;
    chunk := Chunk(length, size0 - n, offset);
    TurnGoesOn(length, size0, offset0, mem, n);
    if chunk <= 0 {
      return false, chunk;
    }
    ghost var before := dev.sectors;
    goesOn := WriteChunk(dev, start, length, buffer[n..n + chunk], offset, mem);
    if goesOn {
      StoredMore(disk, start, offset0, buffer, n, offset, chunk, before, dev.sectors);
    }
  }

  /** inode_write_at(): the slice from `offset0` on is replaced, as far as the file goes, unless writes
      are denied. */
  method WriteAt(dev: Device, start: nat, length: nat, denyCnt: nat, buffer: seq<Byte>, size0: int, offset0: nat, mem: bool)
    returns (n: nat)
    requires OnDevice(dev.sectors, start, length) && size0 <= |buffer|
    modifies dev
    ensures n == if denyCnt > 0 then 0 else Transferred(length, size0, offset0, mem)
    ensures dev.sectors == Stored(old(dev.sectors), start, offset0, buffer[..n])
  {
    n := 0;
    StoredNothing(dev.sectors, start, offset0);
    assert buffer[..0] == [];
    if denyCnt > 0 {
      return;
    }
    var size := size0;
    ghost var disk := dev.sectors;
    while size > 0
      invariant size == size0 - n && Underway(length, size0, offset0, mem, n) && (n == 0 || n <= size0)
      invariant dev.sectors == WrittenUpTo(disk, start, offset0, buffer, n)
      decreases size
    {
      var goesOn, chunk := WriteTurn(dev, start, length, buffer, size0, offset0, n, mem, disk);
      if !goesOn {
        break;
      }
      size, n := size - chunk, n + chunk;
    }
  }
}
