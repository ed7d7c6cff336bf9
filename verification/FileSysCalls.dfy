/** The calls of a client, each of which keeps the invariant. */
module FileSysCalls {
  import opened Common
  import opened InodeIO
  import opened Directory
  import opened FileSys
  import opened FileSysDisk
  import opened FileSysSafety
  import opened FileSysOps

  /** The calls a client makes. `h` is a file it has open; `mem` says which memory allocations succeed,
      and `d` the same of those for the directory. */
  datatype Action =
    | DoCreate(name: seq<Byte>, size: nat, mem: nat -> bool, d: Outcome)
    | DoOpen(name: seq<Byte>, mem: nat -> bool, d: Outcome)
    | DoRemove(name: seq<Byte>, mem: nat -> bool, d: Outcome)
    | DoReopen(h: nat, mem: nat -> bool)
    | DoClose(h: nat, mem: nat -> bool)
    | DoRead(h: nat, count: int, bounce: bool)
    | DoWrite(h: nat, data: seq<Byte>, bounce: bool)
    | DoSeek(h: nat, pos: nat)
    | DoDeny(h: nat, deny: bool)

  /** Names are C strings, sizes are not negative, and the free map's file is not the client's. */
  predicate Enabled(fs: Fs, a: Action) {
    match a
    case DoCreate(name, size, _, _) => IsName(name) && size < MAX_LENGTH
    case DoOpen(name, _, _) => IsName(name)
    case DoRemove(name, _, _) => IsName(name)
    case _ => a.h in fs.files && a.h != FREE_MAP
  }

  function Step(fs: Fs, a: Action): Fs
    requires Enabled(fs, a)
  {
    match a
    case DoCreate(name, size, mem, d) => Create(fs, name, size, mem, d).0
    case DoOpen(name, mem, d) => Open(fs, name, mem, d).0
    case DoRemove(name, mem, d) => Remove(fs, name, mem, d).0
    case DoReopen(h, mem) => Reopen(fs, h, mem).0
    case DoClose(h, mem) => Close(fs, h, mem)
    case DoRead(h, size, bounce) => Read(fs, h, size, bounce)
    case DoWrite(h, data, bounce) => Write(fs, h, data, bounce)
    case DoSeek(h, pos) => Seek(fs, h, pos)
    case DoDeny(h, deny) => Deny(fs, h, deny)
  }

  /** The file that an action writes to, if any; sector 1 stands for none. */
  function Target(fs: Fs, a: Action): nat
    requires Enabled(fs, a)
  {
    match a
    case DoWrite(h, _, _) => Get(fs.open, fs.files[h].inode).sector
    case _ => ROOT_DIR
  }

  lemma StepKeepsInv(fs: Fs, a: Action)
    requires Inv(fs) && Enabled(fs, a)
    ensures Inv(Step(fs, a)) && Preserves(fs, Step(fs, a), Target(fs, a))
  {
    match a
    case DoCreate(name, size, mem, d) => CreateKeeps(fs, name, size, mem, d);
    case DoOpen(name, mem, d) => OpenKeeps(fs, name, mem, d);
    case DoRemove(name, mem, d) => RemoveKeeps(fs, name, mem, d);
    case DoReopen(h, mem) => ReopenKeeps(fs, h, mem);
    case DoClose(h, mem) => CloseFileKeeps(fs, h, mem);
    case DoRead(h, size, bounce) =>
      var f, n := fs.files[h], Get(fs.open, fs.files[h].inode);
      SeekKeeps(fs, h, f.pos + Transferred(n.length, size, f.pos, bounce));
    case DoWrite(h, data, bounce) => WriteKeeps(fs, h, data, bounce);
    case DoSeek(h, pos) => SeekKeeps(fs, h, pos);
    case DoDeny(h, deny) => SetDenyKeeps(fs, h, deny);
  }

  lemma SeekKeeps(fs: Fs, h: nat, pos: nat)
    requires Inv(fs) && h in fs.files
    ensures Inv(Seek(fs, h, pos)) && Preserves(fs, Seek(fs, h, pos), 1)
  {
    PosKeeps(fs, h, pos);
    KeptSame(fs.disk, fs.used, LiveSet(fs), 1);
  }

  lemma SetDenyKeeps(fs: Fs, h: nat, deny: bool)
    requires Inv(fs) && h in fs.files && h != FREE_MAP
    ensures Inv(Deny(fs, h, deny)) && Preserves(fs, Deny(fs, h, deny), 1)
  {
    DenyKeeps(fs, h, deny);
    DenyNext(fs, h, deny);
    KeptSame(fs.disk, fs.used, LiveSet(fs), 1);
  }
}
