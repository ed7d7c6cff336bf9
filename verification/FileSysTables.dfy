/** The root directory and the table of open inodes, and what the operations do to them. */
module FileSysTables {
  import opened Common
  import opened Directory
  import opened FileSys

  // ----- the directory

  ghost predicate EntryAt(dir: seq<Byte>, n: nat, i: nat) {
    i < Count(dir) && InUse(RecordAt(dir, i)) ==> 2 <= SectorOf(RecordAt(dir, i)) < n
  }

  ghost predicate EntryPair(dir: seq<Byte>, i: nat, j: nat) {
    i < j < Count(dir) && InUse(RecordAt(dir, i)) && InUse(RecordAt(dir, j)) ==>
      SectorOf(RecordAt(dir, i)) != SectorOf(RecordAt(dir, j))
  }

  /** Entries lead to different inodes, none of them the root's or the free map's. */
  ghost predicate DirInv(dir: seq<Byte>, n: nat) {
    && (forall i: nat {:trigger EntryAt(dir, n, i)} :: EntryAt(dir, n, i))
    && (forall i: nat, j: nat {:trigger EntryPair(dir, i, j)} :: EntryPair(dir, i, j))
  }

  ghost predicate Lists(dir: seq<Byte>, i: nat, s: nat) {
    i < Count(dir) && InUse(RecordAt(dir, i)) && SectorOf(RecordAt(dir, i)) == s
  }

  ghost predicate Listed(dir: seq<Byte>, s: nat) { exists i: nat :: Lists(dir, i, s) }

  lemma OneEntryPerInode(dir: seq<Byte>, n: nat, i: nat, j: nat, s: nat)
    requires DirInv(dir, n) && Lists(dir, i, s) && Lists(dir, j, s)
    ensures i == j
  {
    assert EntryPair(dir, i, j) && EntryPair(dir, j, i);
  }

  lemma RewrittenInv(dir: seq<Byte>, n: nat, k: nat, r: Record)
    requires DirInv(dir, n) && k < Count(dir)
    requires InUse(r) ==> 2 <= SectorOf(r) < n && !Listed(dir, SectorOf(r))
    ensures DirInv(Rewritten(dir, k, r), n)
  {
    var d := Rewritten(dir, k, r);
    forall i: nat ensures EntryAt(d, n, i) {
      assert EntryAt(dir, n, i);
      if i < Count(dir) { RewrittenAt(dir, k, r, i); }
    }
    forall i: nat, j: nat ensures EntryPair(d, i, j) {
      assert EntryPair(dir, i, j);
      if i < j < Count(dir) {
        RewrittenAt(dir, k, r, i);
        RewrittenAt(dir, k, r, j);
        assert i != k && InUse(r) && InUse(RecordAt(dir, i)) ==> !Lists(dir, i, SectorOf(r));
        assert j != k && InUse(r) && InUse(RecordAt(dir, j)) ==> !Lists(dir, j, SectorOf(r));
      }
    }
  }

  lemma RewrittenLists(dir: seq<Byte>, k: nat, r: Record, i: nat, s: nat)
    requires k < Count(dir)
    ensures Lists(Rewritten(dir, k, r), i, s) == if i == k then InUse(r) && SectorOf(r) == s else Lists(dir, i, s)
  {
    if i < Count(dir) { RewrittenAt(dir, k, r, i); }
  }

  /** What is listed when record `k` is overwritten */
  lemma RewrittenListed(dir: seq<Byte>, n: nat, k: nat, r: Record, s: nat)
    requires DirInv(dir, n) && k < Count(dir)
    ensures Listed(Rewritten(dir, k, r), s) == ((InUse(r) && SectorOf(r) == s) || (Listed(dir, s) && !Lists(dir, k, s)))
  {
    var d := Rewritten(dir, k, r);
    forall i: nat ensures Lists(d, i, s) == if i == k then InUse(r) && SectorOf(r) == s else Lists(dir, i, s) {
      RewrittenLists(dir, k, r, i, s);
    }
    if Listed(dir, s) && !Lists(dir, k, s) {
      var i: nat :| Lists(dir, i, s);
      assert Lists(d, i, s);
    }
    if InUse(r) && SectorOf(r) == s { assert Lists(d, k, s); }
    if Listed(d, s) {
      var i: nat :| Lists(d, i, s);
      if i != k && Lists(dir, k, s) { OneEntryPerInode(dir, n, i, k, s); }
    }
  }

  /** dir_remove() takes away one inode, and no more. */
  lemma Erased(dir: seq<Byte>, n: nat, k: nat)
    requires DirInv(dir, n) && k < Count(dir) && InUse(RecordAt(dir, k))
    ensures var r := RecordAt(dir, k); var d := Rewritten(dir, k, FreedRecord(r));
      && DirInv(d, n) && Listed(dir, SectorOf(r))
      && forall s {:trigger Listed(d, s)} :: Listed(d, s) == (Listed(dir, s) && s != SectorOf(r))
  {
    var r := RecordAt(dir, k);
    var d := Rewritten(dir, k, FreedRecord(r));
    RewrittenInv(dir, n, k, FreedRecord(r));
    assert Lists(dir, k, SectorOf(r));
    forall s ensures Listed(d, s) == (Listed(dir, s) && s != SectorOf(r)) { RewrittenListed(dir, n, k, FreedRecord(r), s); }
  }

  /** dir_add() adds one inode, in the place of the one whose record it overwrites, if any. */
  lemma Added(dir: seq<Byte>, n: nat, name: seq<Byte>, s: nat, o: Outcome)
    requires DirInv(dir, n) && IsName(name) && 2 <= s < n <= WORD && !Listed(dir, s) && !AddFails(dir, name, o)
    ensures var (k, r) := Addition(dir, name, s, o).value; var d := Rewritten(dir, k, r);
      && DirInv(d, n) && Matches(d, k, name) && SectorOf(RecordAt(d, k)) == s
      && forall t {:trigger Listed(d, t)} :: Listed(d, t) == (t == s || (Listed(dir, t) && !Lists(dir, k, t)))
  {
    var (k, r) := Addition(dir, name, s, o).value;
    var d := Rewritten(dir, k, r);
    NewRecordReads(LastRead(dir, o.search, o.junk), name, s);
    RewrittenInv(dir, n, k, r);
    RewrittenAt(dir, k, r, k);
    forall t ensures Listed(d, t) == (t == s || (Listed(dir, t) && !Lists(dir, k, t))) { RewrittenListed(dir, n, k, r, t); }
  }

  // ----- names

  ghost predicate NamePair(dir: seq<Byte>, i: nat, j: nat) {
    i < j < Count(dir) && InUse(RecordAt(dir, i)) && InUse(RecordAt(dir, j)) ==> NameOf(RecordAt(dir, i)) != NameOf(RecordAt(dir, j))
  }

  ghost predicate DistinctNames(dir: seq<Byte>) {
    forall i: nat, j: nat {:trigger NamePair(dir, i, j)} :: NamePair(dir, i, j)
  }

  /** dir_remove() makes no names equal. */
  lemma ErasedNames(dir: seq<Byte>, k: nat)
    requires DistinctNames(dir) && k < Count(dir)
    ensures DistinctNames(Rewritten(dir, k, FreedRecord(RecordAt(dir, k))))
  {
    var r := FreedRecord(RecordAt(dir, k));
    var d := Rewritten(dir, k, r);
    forall i: nat, j: nat ensures NamePair(d, i, j) {
      assert NamePair(dir, i, j);
      if i < j < Count(dir) {
        RewrittenAt(dir, k, r, i);
        RewrittenAt(dir, k, r, j);
      }
    }
  }

  /** The name is gone unless another record has it. */
  lemma ErasedName(dir: seq<Byte>, name: seq<Byte>, k: nat)
    requires k < Count(dir) && Matches(dir, k, name)
    ensures var d := Rewritten(dir, k, FreedRecord(RecordAt(dir, k)));
      EntryOf(d, name) == None <==> forall i :: 0 <= i < Count(dir) && i != k ==> !Matches(dir, i, name)
  {
    var r := FreedRecord(RecordAt(dir, k));
    var d := Rewritten(dir, k, r);
    forall i | 0 <= i < Count(dir) ensures Matches(d, i, name) == (i != k && Matches(dir, i, name)) {
      RewrittenAt(dir, k, r, i);
    }
    if EntryOf(d, name).Some? { assert Matches(d, EntryOf(d, name).value, name); }
  }

  lemma DistinctMatches(dir: seq<Byte>, name: seq<Byte>, i: nat, j: nat)
    requires DistinctNames(dir) && i < Count(dir) && j < Count(dir) && Matches(dir, i, name) && Matches(dir, j, name)
    ensures i == j
  {
    assert NamePair(dir, i, j) && NamePair(dir, j, i);
  }

  /** dir_add() writes a name that another record has; lookup() did not get that far. */
  predicate Repeats(dir: seq<Byte>, name: seq<Byte>, o: Outcome) {
    !AddFails(dir, name, o) && EntryOf(dir, name).Some? && EntryOf(dir, name).value != Slot(dir, o.search)
  }

  /** Names stay distinct exactly if it does not. */
  lemma AddedNames(dir: seq<Byte>, name: seq<Byte>, s: nat, o: Outcome)
    requires DistinctNames(dir) && IsName(name) && s < WORD && !AddFails(dir, name, o)
    ensures var (k, r) := Addition(dir, name, s, o).value; DistinctNames(Rewritten(dir, k, r)) <==> !Repeats(dir, name, o)
  {
    var (k, r) := Addition(dir, name, s, o).value;
    var d := Rewritten(dir, k, r);
    NewRecordReads(LastRead(dir, o.search, o.junk), name, s);
    RewrittenAt(dir, k, r, k);
    if Repeats(dir, name, o) {
      var i := EntryOf(dir, name).value;
      RewrittenAt(dir, k, r, i);
      assert !NamePair(d, i, k) || !NamePair(d, k, i);
    } else {
      forall i: nat, j: nat ensures NamePair(d, i, j) {
        assert NamePair(dir, i, j);
        if i < j < Count(dir) {
          RewrittenAt(dir, k, r, i);
          RewrittenAt(dir, k, r, j);
          OnlyThere(dir, name, k, i);
          OnlyThere(dir, name, k, j);
        }
      }
    }
  }

  lemma OnlyThere(dir: seq<Byte>, name: seq<Byte>, k: nat, i: nat)
    requires DistinctNames(dir) && i < Count(dir) && (EntryOf(dir, name).None? || EntryOf(dir, name).value == k)
    ensures i != k ==> !Matches(dir, i, name)
  {
    if Matches(dir, i, name) { DistinctMatches(dir, name, i, EntryOf(dir, name).value); }
  }

  // ----- open inodes

  /** The struct files that refer to an inode, and those that deny writing to it */
  ghost function Refs(files: map<nat, File>, id: nat): set<nat> {
    set h | h in files && files[h].inode == id
  }

  ghost function Denials(files: map<nat, File>, id: nat): set<nat> {
    set h | h in files && files[h].inode == id && files[h].deny
  }

  /** open_cnt and deny_write_cnt are what they should be. */
  ghost predicate Counted(n: Inode, files: map<nat, File>) {
    0 < n.openCnt == |Refs(files, n.id)| && n.denyCnt == |Denials(files, n.id)|
  }

  /** The list has one inode per sector. */
  ghost predicate NodePair(open: seq<Inode>, i: nat, j: nat) {
    i < j < |open| ==> open[i].id != open[j].id && open[i].sector != open[j].sector
  }

  ghost predicate FileAt(open: seq<Inode>, files: map<nat, File>, h: nat) {
    h in files ==> ById(open, files[h].inode).Some?
  }

  /** free_map_file is the only file open on the free map. */
  ghost predicate MapFile(open: seq<Inode>, files: map<nat, File>) {
    && FREE_MAP in files && !files[FREE_MAP].deny && Get(open, files[FREE_MAP].inode).sector == FREE_MAP
    && forall h {:trigger files[h]} :: h in files && h != FREE_MAP ==> files[h].inode != files[FREE_MAP].inode
  }

  ghost predicate TableInv(open: seq<Inode>, files: map<nat, File>) {
    && (forall n {:trigger Counted(n, files)} :: n in open ==> Counted(n, files))
    && (forall i: nat, j: nat {:trigger NodePair(open, i, j)} :: NodePair(open, i, j))
    && (forall h: nat {:trigger FileAt(open, files, h)} :: FileAt(open, files, h))
    && MapFile(open, files)
  }

  lemma {:induction false} SameIds(open: seq<Inode>, open': seq<Inode>, id: nat)
    requires |open'| == |open| && forall i :: 0 <= i < |open| ==> open'[i].id == open[i].id
    ensures ById(open', id) == ById(open, id)
  {
    if open != [] { SameIds(open[1..], open'[1..], id); }
  }

  lemma ByIdIs(open: seq<Inode>, i: nat)
    requires i < |open| && forall a: nat, b: nat {:trigger NodePair(open, a, b)} :: NodePair(open, a, b)
    ensures ById(open, open[i].id) == Some(i)
  {
    var r := ById(open, open[i].id);
    assert r.Some?;
    assert NodePair(open, r.value, i) && NodePair(open, i, r.value);
  }

  /** References to other inodes are as they were. */
  ghost predicate OtherRefs(files: map<nat, File>, files': map<nat, File>, id: nat) {
    forall other {:trigger Refs(files', other)} {:trigger Denials(files', other)} :: other != id ==>
      Refs(files', other) == Refs(files, other) && Denials(files', other) == Denials(files, other)
  }

  /** One inode in memory is updated. */
  lemma PutInv(open: seq<Inode>, files: map<nat, File>, files': map<nat, File>, n: Inode)
    requires TableInv(open, files) && ById(open, n.id).Some? && n.sector == Get(open, n.id).sector
    requires Counted(n, files') && OtherRefs(files, files', n.id)
    requires forall h {:trigger h in files'} :: h in files' ==> files'[h].inode == n.id || (h in files && files'[h].inode == files[h].inode)
    requires FREE_MAP in files' && files'[FREE_MAP] == files[FREE_MAP]
    requires forall h {:trigger h in files'} :: h in files' && h != FREE_MAP ==> files'[h].inode != files[FREE_MAP].inode
    ensures TableInv(Put(open, n), files')
  {
    var i := ById(open, n.id).value;
    var open' := Put(open, n);
    forall id ensures ById(open', id) == ById(open, id) { SameIds(open, open', id); }
    forall m | m in open' ensures Counted(m, files') {
      if m != n {
        var j :| 0 <= j < |open| && open[j] == m && j != i;
        assert NodePair(open, i, j) && NodePair(open, j, i);
        assert Counted(m, files);
      }
    }
    forall a: nat, b: nat ensures NodePair(open', a, b) { assert NodePair(open, a, b); }
    forall h: nat ensures FileAt(open', files', h) { assert FileAt(open, files, h); }
  }

  /** An inode is read in, and a file opened on it. */
  lemma PushInv(open: seq<Inode>, files: map<nat, File>, n: Inode, h: nat)
    requires TableInv(open, files) && ById(open, n.id).None? && BySector(open, n.sector).None? && h !in files
    requires n.openCnt == 1 && n.denyCnt == 0
    ensures TableInv([n] + open, files[h := File(n.id, 0, false)])
  {
    var open', files' := [n] + open, files[h := File(n.id, 0, false)];
    forall g | g in files ensures files[g].inode != n.id { assert FileAt(open, files, g); }
    assert Refs(files', n.id) == {h} && Denials(files', n.id) == {};
    assert OtherRefs(files, files', n.id);
    forall m | m in open' ensures Counted(m, files') {
      if m != n { assert Counted(m, files); }
    }
    forall a: nat, b: nat ensures NodePair(open', a, b) {
      if 0 < a < b { assert NodePair(open, a - 1, b - 1); }
    }
    assert open'[1..] == open;
    forall g: nat ensures FileAt(open', files', g) { assert FileAt(open, files, g); }
    assert FileAt(open, files, FREE_MAP);
  }

  lemma DropIds(open: seq<Inode>, i: nat, id: nat)
    requires i < |open| && open[i].id != id && ById(open, id).Some?
    requires forall a: nat, b: nat {:trigger NodePair(open, a, b)} :: NodePair(open, a, b)
    ensures Get(open[..i] + open[i + 1..], id) == Get(open, id) && ById(open[..i] + open[i + 1..], id).Some?
  {
    var open', j := open[..i] + open[i + 1..], ById(open, id).value;
    assert open'[if j < i then j else j - 1] == open[j];
    var r := ById(open', id).value;
    var k := if r < i then r else r + 1;
    assert open'[r] == open[k] && NodePair(open, j, k) && NodePair(open, k, j);
  }

  lemma DropPairs(open: seq<Inode>, i: nat)
    requires i < |open| && forall a: nat, b: nat {:trigger NodePair(open, a, b)} :: NodePair(open, a, b)
    ensures var open' := open[..i] + open[i + 1..];
      forall a: nat, b: nat {:trigger NodePair(open', a, b)} :: NodePair(open', a, b)
    ensures forall m {:trigger m in open[..i] + open[i + 1..]} ::
      m in open[..i] + open[i + 1..] ==> m in open && m.id != open[i].id
  {
    var open' := open[..i] + open[i + 1..];
    forall a: nat, b: nat ensures NodePair(open', a, b) {
      assert NodePair(open, if a < i then a else a + 1, if b < i then b else b + 1);
    }
    forall m | m in open' ensures m in open && m.id != open[i].id {
      var j :| 0 <= j < |open| && open[j] == m && j != i;
      assert NodePair(open, i, j) && NodePair(open, j, i);
    }
  }

  /** The last file on an inode is closed. */
  lemma DropInv(open: seq<Inode>, files: map<nat, File>, files': map<nat, File>, id: nat)
    requires TableInv(open, files) && ById(open, id).Some? && OtherRefs(files, files', id)
    requires forall h {:trigger h in files'} :: h in files' ==> h in files && files'[h] == files[h] && files[h].inode != id
    requires FREE_MAP in files'
    ensures TableInv(Without(open, id), files')
  {
    var i := ById(open, id).value;
    var open' := Without(open, id);
    DropPairs(open, i);
    forall m | m in open' ensures Counted(m, files') { assert Counted(m, files); }
    forall h: nat ensures FileAt(open', files', h) {
      assert FileAt(open, files, h);
      if h in files' { DropIds(open, i, files[h].inode); }
    }
    assert FileAt(open, files, FREE_MAP);
    DropIds(open, i, files[FREE_MAP].inode);
  }
}
