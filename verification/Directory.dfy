/** The root directory as 20-byte records in the bytes of its file; directory.c. */
module Directory {
  import opened Common
  import opened InodeIO

  const ENTRY: nat := 20
  const NAME_MAX: nat := 14

  // ----- records

  type Record = b: seq<Byte> | |b| == ENTRY witness seq(ENTRY, _ => 0)

  function SectorOf(b: Record): nat { Word(b, 0) }

  function NameOf(b: Record): seq<Byte> { CString(b[4..19]) }

  predicate InUse(b: Record) { b[19] != 0 }

  /** The record that dir_add() writes over `b`: strlcpy() leaves the bytes after the name. */
  function NewRecord(b: Record, name: seq<Byte>, sector: nat): Record
    requires |name| <= NAME_MAX
  {
    Le32(sector) + name + [0] + b[5 + |name|..19] + [1]
  }

  lemma NewRecordReads(b: Record, name: seq<Byte>, sector: nat)
    requires |name| <= NAME_MAX && sector < WORD && IsName(name)
    ensures var r := NewRecord(b, name, sector); SectorOf(r) == sector && NameOf(r) == name && InUse(r)
  {
    var r, rest := NewRecord(b, name, sector), b[5 + |name|..19];
    assert r == [] + Le32(sector) + (name + [0] + rest + [1]);
    WordRoundTrip(sector, [], name + [0] + rest + [1]);
    assert r[4..19] == name + [0] + rest;
    CStringOf(name, rest);
  }

  /** The record that dir_remove() writes back */
  function FreedRecord(b: Record): Record { b[..19] + [0] }

  // ----- the directory as a sequence of records

  function Count(dir: seq<Byte>): nat { |dir| / ENTRY }

  function RecordAt(dir: seq<Byte>, i: nat): Record
    requires i < Count(dir)
  {
    dir[ENTRY * i..ENTRY * i + ENTRY]
  }

  /** `dir` with one record overwritten in place */
  function Rewritten(dir: seq<Byte>, k: nat, r: Record): (d: seq<Byte>)
    requires k < Count(dir)
    ensures |d| == |dir|
  {
    dir[..ENTRY * k] + r + dir[ENTRY * k + ENTRY..]
  }

  lemma RewrittenAt(dir: seq<Byte>, k: nat, r: Record, i: nat)
    requires k < Count(dir) && i < Count(dir)
    ensures RecordAt(Rewritten(dir, k, r), i) == if i == k then r else RecordAt(dir, i)
  {
    var d := Rewritten(dir, k, r);
    if i < k {
      assert ENTRY * i + ENTRY <= ENTRY * k;
    } else if i > k {
      assert ENTRY * k + ENTRY <= ENTRY * i;
    }
  }

  predicate Matches(dir: seq<Byte>, i: nat, name: seq<Byte>)
    requires i < Count(dir)
  {
    InUse(RecordAt(dir, i)) && NameOf(RecordAt(dir, i)) == name
  }

  /** The first record in use under `name`, from `from` up to `end` */
  function Find(dir: seq<Byte>, name: seq<Byte>, from: nat, end: nat): (r: Option<nat>)
    requires from <= end <= Count(dir)
    ensures r.Some? ==> from <= r.value < end && Matches(dir, r.value, name)
    ensures r.Some? ==> forall i :: from <= i < r.value ==> !Matches(dir, i, name)
    ensures r.None? ==> forall i :: from <= i < end ==> !Matches(dir, i, name)
    decreases end - from
  {
    if from == end then None
    else if Matches(dir, from, name) then Some(from)
    else Find(dir, name, from + 1, end)
  }

  /** The first record in use under `name` of all */
  function EntryOf(dir: seq<Byte>, name: seq<Byte>): Option<nat> { Find(dir, name, 0, Count(dir)) }

  /** The first record not in use, from `from` up to `end` */
  function FreeSlot(dir: seq<Byte>, from: nat, end: nat): (r: Option<nat>)
    requires from <= end <= Count(dir)
    ensures r.Some? ==> from <= r.value < end && !InUse(RecordAt(dir, r.value))
    ensures r.Some? ==> forall i :: from <= i < r.value ==> InUse(RecordAt(dir, i))
    ensures r.None? ==> forall i :: from <= i < end ==> InUse(RecordAt(dir, i))
    decreases end - from
  {
    if from == end then None
    else if !InUse(RecordAt(dir, from)) then Some(from)
    else FreeSlot(dir, from + 1, end)
  }

  // ----- what becomes of the directory when memory runs out

  /** Reading or writing a record needs a bounce buffer. The loops of lookup() and of dir_add() come to an end where a
      read does not get one, which are read number `lookup` and read number `search`; `write` says whether the
      write gets one, and `junk` is what the record on the stack of dir_add() holds before it is read. */
  datatype Outcome = Outcome(lookup: nat, search: nat, write: bool, junk: Record)

  /** How many records a loop sees */
  function Seen(dir: seq<Byte>, cut: nat): (n: nat)
    ensures n <= Count(dir)
  {
    if cut < Count(dir) then cut else Count(dir)
  }

  /** lookup() */
  function Sought(dir: seq<Byte>, name: seq<Byte>, cut: nat): (r: Option<nat>) {
    Find(dir, name, 0, Seen(dir, cut))
  }

  /** Where the loop of dir_add() ends: at the first record not in use, or where it cannot read */
  function Slot(dir: seq<Byte>, cut: nat): (k: nat)
    ensures k <= Seen(dir, cut)
    ensures forall i :: 0 <= i < k ==> InUse(RecordAt(dir, i))
    ensures k < Seen(dir, cut) ==> !InUse(RecordAt(dir, k))
  {
    match FreeSlot(dir, 0, Seen(dir, cut))
    case None => Seen(dir, cut)
    case Some(k) => k
  }

  /** The record it has read last */
  function LastRead(dir: seq<Byte>, cut: nat, junk: Record): Record {
    var k := Slot(dir, cut);
    if k < Seen(dir, cut) then RecordAt(dir, k) else if k == 0 then junk else RecordAt(dir, k - 1)
  }

  /** dir_add() fails: the name is empty or too long or found, or the loop is at the end of the file, or the record
      cannot be written. */
  predicate AddFails(dir: seq<Byte>, name: seq<Byte>, d: Outcome) {
    || name == [] || |name| > NAME_MAX || Sought(dir, name, d.lookup).Some?
    || Slot(dir, d.search) == Count(dir) || !d.write
  }

  /** What dir_add() writes and where, unless it fails */
  function Addition(dir: seq<Byte>, name: seq<Byte>, sector: nat, d: Outcome): (r: Option<(nat, Record)>)
    ensures r.None? == AddFails(dir, name, d)
    ensures r.Some? ==> r.value.0 == Slot(dir, d.search) < Count(dir)
  {
    if AddFails(dir, name, d) then None
    else Some((Slot(dir, d.search), NewRecord(LastRead(dir, d.search, d.junk), name, sector)))
  }

  // ----- the loops over the records

  ghost function DirOf(dev: Device, start: nat, length: nat): seq<Byte>
    requires OnDevice(dev.sectors, start, length)
    reads dev
  {
    Content(dev.sectors, start, length)
  }

  /** One record, unless the file ends before it or there is no memory */
  method ReadRecord(dev: Device, start: nat, length: nat, i: nat, mem: bool) returns (r: Option<Record>)
    requires OnDevice(dev.sectors, start, length)
    ensures var dir := DirOf(dev, start, length); r == if mem && i < Count(dir) then Some(RecordAt(dir, i)) else None
  {
    var e := new Byte[ENTRY](_ => 0);
    var n := ReadAt(dev, start, length, e, ENTRY, ENTRY * i, mem);
    if n != ENTRY {
      return None;
    }
    assert e[..] == DirOf(dev, start, length)[ENTRY * i..ENTRY * i + ENTRY];
    return Some(e[..]);
  }

  /** lookup() */
  method Lookup(dev: Device, start: nat, length: nat, name: seq<Byte>, cut: nat) returns (r: Option<(nat, Record)>)
    requires OnDevice(dev.sectors, start, length)
    ensures var dir := DirOf(dev, start, length);
      match Sought(dir, name, cut)
      case None => r == None
      case Some(i) => r == Some((i, RecordAt(dir, i)))
  {
    ghost var dir := DirOf(dev, start, length);
    ghost var end := Seen(dir, cut);
    var i := 0;
    while true
      invariant 0 <= i <= end && Find(dir, name, 0, end) == Find(dir, name, i, end)
      decreases end - i
    {
      var e := ReadRecord(dev, start, length, i, i != cut);
      if e.None? {
        return None;
      }
      if InUse(e.value) && NameOf(e.value) == name {
        return Some((i, e.value));
      }
      i := i + 1;
    }
  }

  /** The search of dir_add() for a record to use */
  method FindFree(dev: Device, start: nat, length: nat, cut: nat, junk: Record) returns (i: nat, e: Record)
    requires OnDevice(dev.sectors, start, length)
    ensures var dir := DirOf(dev, start, length); i == Slot(dir, cut) && e == LastRead(dir, cut, junk)
  {
    ghost var dir := DirOf(dev, start, length);
    ghost var end := Seen(dir, cut);
    i, e := 0, junk;
    while true
      invariant 0 <= i <= end && FreeSlot(dir, 0, end) == FreeSlot(dir, i, end)
      invariant e == if i == 0 then junk else RecordAt(dir, i - 1)
      decreases end - i
    {
      var r := ReadRecord(dev, start, length, i, i != cut);
      if r.None? {
        return;
      }
      e := r.value;
      if !InUse(e) {
        return;
      }
      i := i + 1;
    }
  }

  /** inode_write_at() for a record; without memory, or at the end of the file, nothing is written. */
  method WriteRecord(dev: Device, start: nat, length: nat, i: nat, r: Record, mem: bool) returns (success: bool)
    requires OnDevice(dev.sectors, start, length) && length % ENTRY == 0 && i <= Count(DirOf(dev, start, length))
    modifies dev
    ensures success == (mem && i < old(Count(DirOf(dev, start, length))))
    ensures dev.sectors == if success then Stored(old(dev.sectors), start, ENTRY * i, r) else old(dev.sectors)
  {
    RecordReach(length, i, mem);
    var n := WriteAt(dev, start, length, 0, r, ENTRY, ENTRY * i, mem);
    assert r[..ENTRY] == r && r[..0] == [];
    StoredNothing(old(dev.sectors), start, ENTRY * i);
    return n == ENTRY;
  }

  /** A record is written whole or not at all. */
  lemma RecordReach(length: nat, i: nat, mem: bool)
    requires length % ENTRY == 0 && i <= length / ENTRY
    ensures Transferred(length, ENTRY, ENTRY * i, mem) == if mem && i < length / ENTRY then ENTRY else 0
  {
  }

  /** dir_add(), on a directory of whole records as dir_create() makes them */
  method Add(dev: Device, start: nat, length: nat, name: seq<Byte>, sector: nat, d: Outcome) returns (success: bool)
    requires OnDevice(dev.sectors, start, length) && length % ENTRY == 0
    modifies dev
    ensures match Addition(old(DirOf(dev, start, length)), name, sector, d)
      case None => !success && dev.sectors == old(dev.sectors)
      case Some((k, r)) => success && dev.sectors == Stored(old(dev.sectors), start, ENTRY * k, r)
  {
    if name == [] || |name| > NAME_MAX {
      return false;
    }
    var taken := Lookup(dev, start, length, name, d.lookup);
    if taken.Some? {
      return false;
    }
    var i, e := FindFree(dev, start, length, d.search, d.junk);
    success := WriteRecord(dev, start, length, i, NewRecord(e, name, sector), d.write);
  }

  /** The part of dir_remove() that erases the entry it has found */
  method Erase(dev: Device, start: nat, length: nat, i: nat, e: Record, mem: bool) returns (success: bool)
    requires OnDevice(dev.sectors, start, length) && length % ENTRY == 0 && i < Count(DirOf(dev, start, length))
    modifies dev
    ensures success == mem
    ensures dev.sectors == if mem then Stored(old(dev.sectors), start, ENTRY * i, FreedRecord(e)) else old(dev.sectors)
  {
    success := WriteRecord(dev, start, length, i, FreedRecord(e), mem);
  }

  /** Storing a record in the file rewrites it in the directory. */
  lemma StoredRecord(disk: seq<Sector>, start: nat, length: nat, k: nat, r: Record)
    requires OnDevice(disk, start, length) && k < Count(Content(disk, start, length))
    ensures OnDevice(Stored(disk, start, ENTRY * k, r), start, length)
    ensures Content(Stored(disk, start, ENTRY * k, r), start, length) == Rewritten(Content(disk, start, length), k, r)
  {
    WriteReplacesSlice(disk, start, length, ENTRY * k, r);
  }
}
