/** The free map over runs in which the device is mounted again: what the next mount finds. */
module FileSysRemount {
  import opened InodeIO
  import opened Directory
  import opened FileSys
  import opened FileSysDisk
  import opened FileSysSafety
  import opened FileSysOps
  import opened FileSysMount
  import opened FileSysCalls
  import opened FileSysMap
  import opened FileSysTheorems

  /** Whenever the system is shut down, and whatever memory there was: the next mount finds every sector marked that was
      marked, so that no sector of a live file is free, and finds the same map exactly if the two maps are the same. */
  lemma MapSurvivesRemount(e: Execution)
    requires Legal(e)
    ensures var fs := Last(e); var found := Last(Remounted(e)).used;
      && Covers(fs.used, found) && DiskInv(fs.disk, found, LiveSet(fs)) && (found == fs.used <==> Synced(fs))
  {
    EveryRunKeepsInv(e);
    var fs := Last(e);
    RemountCovers(fs);
    LiveOnDisk(fs, DiskMap(fs));
    SyncedExactly(fs, DiskMap(fs));
  }

  ghost predicate AlwaysSynced(e: Execution)
    requires Legal(e)
  {
    Synced(Last(e)) && (!e.Formatted? ==> AlwaysSynced(e.before))
  }

  predicate NeverSpoils(e: Execution)
    requires Legal(e)
  {
    match e
    case Formatted(_) => true
    case Then(before, act) => NeverSpoils(before) && !Spoils(Last(before), act)
    case Remounted(before) => NeverSpoils(before)
  }

  /** Over every run the two maps are the same all the time if and only if no call has a write of the map cut short that
      had a mark to write, or one to take back. */
  lemma {:induction false} MapsAreTheSame(e: Execution)
    requires Legal(e)
    ensures AlwaysSynced(e) <==> NeverSpoils(e)
  {
    match e
    case Formatted(disk) => FormatInv(disk);
    case Then(before, act) =>
      MapsAreTheSame(before);
      EveryRunKeepsInv(before);
      if AlwaysSynced(before) { StepSyncs(Last(before), act); }
    case Remounted(before) =>
      MapsAreTheSame(before);
      EveryRunKeepsInv(before);
      RemountSyncs(Last(before));
  }

  /** A mount makes the maps the same in any case. */
  lemma RemountSyncs(fs: Fs)
    requires Inv(fs) && Covered(fs)
    ensures Synced(Remount(fs))
  {
    RemountCovers(fs);
  }

  /** There is memory for every write of the map. */
  ghost predicate HasMemory(a: Action) {
    a.DoCreate? || a.DoRemove? || a.DoClose? ==> forall i {:trigger a.mem(i)} :: a.mem(i)
  }

  /** Then the call does not spoil the maps. */
  lemma MemoryIsEnough(fs: Fs, a: Action)
    requires Inv(fs) && Covered(fs) && Enabled(fs, a) && HasMemory(a)
    ensures !Spoils(fs, a)
  {
    ReachIs(|fs.used|, true);
    match a
    case DoCreate(name, size, mem, o) =>
      MapIsReady(fs);
      AllocateKeeps(fs, LiveSet(fs), 1, mem(1));
    case DoRemove(name, mem, o) =>
      if Releases(fs, name, mem, o) {
        FoundIsListed(fs, Sought(RootDir(fs), name, o.lookup).value);
        ReachesAll(fs, SectorOf(RecordAt(RootDir(fs), Sought(RootDir(fs), name, o.lookup).value)), Shift(mem, 2));
      }
    case DoClose(h, mem) =>
      NodeOfFile(fs, h);
      ReachesAll(fs, Get(fs.open, fs.files[h].inode).sector, mem);
    case _ =>
  }

  lemma ReachesAll(fs: Fs, s: nat, mem: nat -> bool)
    requires CoreInv(fs) && s in LiveSet(fs) && mem(0) && mem(1)
    ensures s < |fs.disk| && !FreeSpoils(|fs.used|, s, Start(fs.disk[s]), BytesToSectors(Length(fs.disk[s])), mem)
  {
    assert PlacedAt(fs.disk, fs.used, s);
    ReachIs(|fs.used|, true);
  }
}
