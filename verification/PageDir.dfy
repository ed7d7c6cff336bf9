/** The words of page directories and page tables; pte.h. */
module PteWords {
  import opened Common

  const ENTRIES: nat := 1024

  const PTE_ADDR: bv32 := 0xffff_f000
  const PTE_P: bv32 := 0x1
  const PTE_W: bv32 := 0x2
  const PTE_U: bv32 := 0x4
  const PTE_A: bv32 := 0x20
  const PTE_D: bv32 := 0x40

  /** pd_no() and pt_no() of a virtual address, which are the two halves of its page number */
  function PdNo(va: nat): nat { va / 0x40_0000 }

  function PtNo(va: nat): nat { va / 0x1000 % 0x400 }

  lemma PageNumber(va: nat)
    ensures PdNo(va) == va / PGSIZE / ENTRIES && PtNo(va) == va / PGSIZE % ENTRIES
  {
  }

  predicate Aligned(frame: bv32) { frame & PTE_ADDR == frame }

  /** A frame of physical memory, by its address */
  type Frame = nat

  /** What a page table entry says */
  datatype Pte = Pte(frame: Frame, present: bool, writable: bool, user: bool, accessed: bool, dirty: bool)

  function Decode(w: bv32): Pte {
    Pte((w & PTE_ADDR) as nat, w & PTE_P != 0, w & PTE_W != 0, w & PTE_U != 0, w & PTE_A != 0, w & PTE_D != 0)
  }

  /** pde_create() and pte_create_user() */
  function PdeCreate(frame: bv32): bv32 { frame | PTE_U | PTE_P | PTE_W }

  function PteCreateUser(frame: bv32, writable: bool): bv32 { frame | PTE_P | (if writable then PTE_W else 0) | PTE_U }

  /** What a directory entry says: where its table is */
  function Pde(w: bv32): Option<Frame> { if w == 0 then None else Some((w & PTE_ADDR) as nat) }

  lemma PdeWord(frame: bv32)
    requires Aligned(frame)
    ensures PdeCreate(frame) != 0 && PdeCreate(frame) & PTE_P != 0 && PdeCreate(frame) & PTE_ADDR == frame && PdeCreate(frame) & 7 == 7
  {
  }

  /** The word as a number */
  lemma PdeNumber(frame: bv32)
    requires Aligned(frame)
    ensures PdeCreate(frame) == frame + 7
  {
  }

  lemma PdeDecodes(frame: bv32)
    requires Aligned(frame)
    ensures Pde(PdeCreate(frame)) == Some(frame as nat) && PdeCreate(frame) & PTE_P != 0
    ensures PdeCreate(frame) == frame + 7 && PdeCreate(frame) & 7 == 7
  {
    PdeWord(frame);
    PdeNumber(frame);
  }

  lemma PteAddress(frame: bv32, writable: bool)
    requires Aligned(frame)
    ensures PteCreateUser(frame, writable) & PTE_ADDR == frame
  {
  }

  lemma PteFlags(frame: bv32, writable: bool)
    requires Aligned(frame)
    ensures var w := PteCreateUser(frame, writable);
      w & PTE_P != 0 && (w & PTE_W != 0) == writable && w & PTE_U != 0 && w & PTE_A == 0 && w & PTE_D == 0
  {
  }

  lemma PteNumber(frame: bv32, writable: bool)
    requires Aligned(frame)
    ensures PteCreateUser(frame, writable) == frame + if writable then 7 else 5
  {
  }

  lemma PteDecodes(frame: bv32, writable: bool)
    requires Aligned(frame)
    ensures PteCreateUser(frame, writable) == frame + if writable then 7 else 5
    ensures Decode(PteCreateUser(frame, writable)) == Pte(frame as nat, true, writable, true, false, false)
  {
    var w := PteCreateUser(frame, writable);
    PteNumber(frame, writable);
    PteAddress(frame, writable);
    PteFlags(frame, writable);
    assert (w & PTE_ADDR) as nat == frame as nat;
  }

  lemma Cleared(w: bv32)
    ensures Decode(w & !PTE_P) == Decode(w).(present := false)
  {
  }

  lemma DirtySet(w: bv32)
    ensures Decode(w | PTE_D) == Decode(w).(dirty := true)
  {
  }

  lemma DirtyCleared(w: bv32)
    ensures Decode(w & !PTE_D) == Decode(w).(dirty := false)
  {
  }

  lemma AccessedSet(w: bv32)
    ensures Decode(w | PTE_A) == Decode(w).(accessed := true)
  {
  }

  lemma AccessedCleared(w: bv32)
    ensures Decode(w & !PTE_A) == Decode(w).(accessed := false)
  {
  }

  /** Setting or clearing a flag of a word */
  function Flagged(w: bv32, flag: bv32, on: bool): bv32 { if on then w | flag else w & !flag }

  lemma Dirtied(w: bv32, on: bool)
    ensures Decode(Flagged(w, PTE_D, on)) == Decode(w).(dirty := on)
  {
    if on { DirtySet(w); } else { DirtyCleared(w); }
  }

  lemma Accessed(w: bv32, on: bool)
    ensures Decode(Flagged(w, PTE_A, on)) == Decode(w).(accessed := on)
  {
    if on { AccessedSet(w); } else { AccessedCleared(w); }
  }

  const NOTHING: Pte := Pte(0, false, false, false, false, false)

  /** A word that is 0 says nothing, though others say nothing, too: the remaining bits are not looked at. */
  lemma NothingIsZero()
    ensures Decode(0) == NOTHING && Decode(8) == NOTHING
  {
  }

  // ----- all the words of a page

  function DecodeAll(words: seq<bv32>): (d: seq<Pte>)
    ensures |d| == |words|
  {
    seq(|words|, i requires 0 <= i < |words| => Decode(words[i]))
  }

  lemma DecodedWrite(words: seq<bv32>, j: nat, w: bv32)
    requires j < |words|
    ensures DecodeAll(words[j := w]) == DecodeAll(words)[j := Decode(w)]
  {
  }

  lemma DecodedZeros(n: nat)
    ensures DecodeAll(seq(n, _ => 0)) == seq(n, _ => NOTHING)
  {
    NothingIsZero();
  }

  function PdeAll(words: seq<bv32>): (d: seq<Option<Frame>>)
    ensures |d| == |words|
  {
    seq(|words|, i requires 0 <= i < |words| => Pde(words[i]))
  }

  lemma PdeWrite(words: seq<bv32>, i: nat, frame: bv32)
    requires i < |words| && Aligned(frame)
    ensures PdeAll(words[i := PdeCreate(frame)]) == PdeAll(words)[i := Some(frame as nat)]
  {
    PdeDecodes(frame);
  }

  function TablesOf(tables: map<Frame, seq<bv32>>): (d: map<Frame, seq<Pte>>)
    ensures d.Keys == tables.Keys && forall f {:trigger d[f]} :: f in tables ==> d[f] == DecodeAll(tables[f])
  {
    map f | f in tables :: DecodeAll(tables[f])
  }

  lemma TableAdded(tables: map<Frame, seq<bv32>>, f: Frame, words: seq<bv32>)
    ensures TablesOf(tables[f := words]) == TablesOf(tables)[f := DecodeAll(words)]
  {
  }
}

/** The two-level page tables of a user process; pagedir.c. */
module PageDir {
  import opened Common
  import opened PteWords

  /** pd_no (PHYS_BASE): from this entry on the page directory maps the kernel. */
  const USER_ENTRIES: nat := 768
  const PHYS_BASE: nat := 0xc000_0000
  const ALL_PAGES: nat := 0x10_0000
  const USER_PAGES: nat := 0xc_0000

  // ----- directories and tables, with their entries decoded

  /** The page tables by their physical addresses */
  type Tables = map<Frame, seq<Pte>>

  /** A directory: where the tables are */
  type Directory = seq<Option<Frame>>

  ghost predicate PdeOk(dir: Directory, tables: Tables, i: nat) {
    i < |dir| && dir[i].Some? ==> dir[i].value in tables
  }

  /** Entries lead to tables of their own. */
  ghost predicate PdePair(dir: Directory, i: nat, j: nat) {
    i < j < |dir| && dir[i].Some? && dir[j].Some? ==> dir[i].value != dir[j].value
  }

  ghost predicate Wf(dir: Directory, tables: Tables) {
    && |dir| == ENTRIES
    && (forall f {:trigger tables[f]} :: f in tables ==> |tables[f]| == ENTRIES)
    && (forall i: nat {:trigger PdeOk(dir, tables, i)} :: PdeOk(dir, tables, i))
    && (forall i: nat, j: nat {:trigger PdePair(dir, i, j)} :: PdePair(dir, i, j))
  }

  /** The entry for a page, nothing if there is not even a table */
  ghost function EntryAt(dir: Directory, tables: Tables, i: nat, j: nat): Pte
    requires Wf(dir, tables) && i < ENTRIES && j < ENTRIES
  {
    assert PdeOk(dir, tables, i);
    match dir[i]
    case None => NOTHING
    case Some(f) => tables[f][j]
  }

  /** A new, empty table in a free page changes nothing. */
  lemma NewTable(dir: Directory, tables: Tables, i: nat, f: Frame)
    requires Wf(dir, tables) && i < ENTRIES && dir[i].None? && f !in tables
    ensures var dir', tables' := dir[i := Some(f)], tables[f := seq(ENTRIES, _ => NOTHING)];
      && Wf(dir', tables')
      && forall a: nat, b: nat {:trigger EntryAt(dir', tables', a, b)} :: a < ENTRIES && b < ENTRIES ==>
           EntryAt(dir', tables', a, b) == EntryAt(dir, tables, a, b)
  {
    var dir', tables' := dir[i := Some(f)], tables[f := seq(ENTRIES, _ => NOTHING)];
    forall k: nat ensures PdeOk(dir', tables', k) { assert PdeOk(dir, tables, k); }
    forall k: nat, l: nat ensures PdePair(dir', k, l) {
      assert PdePair(dir, k, l) && PdeOk(dir, tables, k) && PdeOk(dir, tables, l);
    }
    forall a: nat, b: nat | a < ENTRIES && b < ENTRIES
      ensures EntryAt(dir', tables', a, b) == EntryAt(dir, tables, a, b)
    {
      assert PdeOk(dir, tables, a);
    }
  }

  /** Writing an entry of a table is felt for one page only. */
  lemma OneEntry(dir: Directory, tables: Tables, i: nat, j: nat, e: Pte)
    requires Wf(dir, tables) && i < ENTRIES && j < ENTRIES && dir[i].Some?
    ensures dir[i].value in tables
    ensures var f := dir[i].value; var tables' := tables[f := tables[f][j := e]];
      && Wf(dir, tables')
      && forall a: nat, b: nat {:trigger EntryAt(dir, tables', a, b)} :: a < ENTRIES && b < ENTRIES ==>
           EntryAt(dir, tables', a, b) == if a == i && b == j then e else EntryAt(dir, tables, a, b)
  {
    assert PdeOk(dir, tables, i);
    var f := dir[i].value;
    var tables' := tables[f := tables[f][j := e]];
    forall k: nat ensures PdeOk(dir, tables', k) { assert PdeOk(dir, tables, k); }
    forall a: nat, b: nat | a < ENTRIES && b < ENTRIES
      ensures EntryAt(dir, tables', a, b) == if a == i && b == j then e else EntryAt(dir, tables, a, b)
    {
      assert PdeOk(dir, tables, a) && PdePair(dir, a, i) && PdePair(dir, i, a);
    }
  }

  // ----- the words

  type Words = seq<bv32>

  ghost predicate WordsOk(words: Words, pages: map<Frame, Words>) {
    && Wf(PdeAll(words), TablesOf(pages))
    && (forall i {:trigger words[i]} :: 0 <= i < |words| && words[i] != 0 ==> words[i] & PTE_P != 0)
    && forall i {:trigger words[i]} :: 0 <= i < USER_ENTRIES && words[i] != 0 ==> words[i] & 7 == 7
  }

  /** Where the processor takes an access by a user process, by the words alone: both must be present, and have bit 2 for
      the user and bit 1 for writing, which the manual of the processor has in section 3.7.6 of volume 3A. */
  function Translate(words: Words, pages: map<Frame, Words>, va: nat, write: bool): Option<nat> {
    match Walk(words, pages, va / 0x40_0000, va / 0x1000 % 0x400, write)
    case None => None
    case Some(frame) => Some(frame + va % 0x1000)
  }

  function Walk(words: Words, pages: map<Frame, Words>, i: nat, j: nat, write: bool): Option<Frame> {
    if i >= |words| || !Permits(words[i], write) then None else
    var table := AddressIn(words[i]);
    if table !in pages || j >= |pages[table]| || !Permits(pages[table][j], write) then None else Some(AddressIn(pages[table][j]))
  }

  predicate Permits(w: bv32, write: bool) { w & 1 != 0 && w & 4 != 0 && (write ==> w & 2 != 0) }

  function AddressIn(w: bv32): nat { (w & 0xffff_f000) as nat }

  /** What the tables say of a page: the plain map they stand for */
  ghost function ViewOf(words: Words, pages: map<Frame, Words>, page: nat): Pte
    requires WordsOk(words, pages) && page < ALL_PAGES
  {
    EntryAt(PdeAll(words), TablesOf(pages), page / ENTRIES, page % ENTRIES)
  }

  ghost predicate Private(words: Words, pages: map<Frame, Words>)
    requires WordsOk(words, pages)
  {
    Exclusive(PdeAll(words), TablesOf(pages))
  }

  ghost predicate IsFree(words: Words, pages: map<Frame, Words>, f: Frame)
    requires WordsOk(words, pages)
  {
    Free(PdeAll(words), TablesOf(pages), f)
  }

  /** A page of memory, by its address as a word and as a number */
  datatype Page = Page(word: bv32, frame: Frame)

  predicate IsPage(p: Page) { Aligned(p.word) && p.word as nat == p.frame }

  /** pde_create() for a new table, with all its words zero */
  lemma TableDecodes(words: Words, pages: map<Frame, Words>, i: nat, a: Page)
    requires i < |words| && IsPage(a)
    ensures PdeAll(words[i := PdeCreate(a.word)]) == PdeAll(words)[i := Some(a.frame)]
    ensures TablesOf(pages[a.frame := seq(ENTRIES, _ => 0)]) == TablesOf(pages)[a.frame := seq(ENTRIES, _ => NOTHING)]
    ensures PdeCreate(a.word) & PTE_P != 0 && PdeCreate(a.word) & 7 == 7 && Pde(PdeCreate(a.word)) == Some(a.frame)
  {
    PdeDecodes(a.word);
    PdeWrite(words, i, a.word);
    TableAdded(pages, a.frame, seq(ENTRIES, _ => 0));
    DecodedZeros(ENTRIES);
  }

  /** A word that leads to a new table */
  ghost predicate NewPde(words: Words, words': Words, i: nat, f: Frame) {
    && i < |words| && |words'| == |words| && words[i] == 0 && words'[i] & PTE_P != 0 && words'[i] & 7 == 7 && words'[i] != 0
    && Pde(words'[i]) == Some(f) && words' == words[i := words'[i]] && PdeAll(words') == PdeAll(words)[i := Some(f)]
  }

  lemma TableMade(words: Words, words': Words, pages: map<Frame, Words>, pages': map<Frame, Words>, i: nat, f: Frame)
    requires WordsOk(words, pages) && f !in pages && NewPde(words, words', i, f)
    requires TablesOf(pages') == TablesOf(pages)[f := seq(ENTRIES, _ => NOTHING)]
    ensures WordsOk(words', pages')
    ensures forall page {:trigger ViewOf(words', pages', page)} :: 0 <= page < ALL_PAGES ==> ViewOf(words', pages', page) == ViewOf(words, pages, page)
  {
    assert PdeAll(words)[i] == Pde(words[i]);
    NewTable(PdeAll(words), TablesOf(pages), i, f);
  }

  lemma TablePrivate(words: Words, words': Words, pages: map<Frame, Words>, pages': map<Frame, Words>, i: nat, f: Frame)
    requires WordsOk(words, pages) && i < USER_ENTRIES && f !in pages && NewPde(words, words', i, f)
    requires TablesOf(pages') == TablesOf(pages)[f := seq(ENTRIES, _ => NOTHING)] && WordsOk(words', pages')
    ensures Private(words, pages) && IsFree(words, pages, f) ==> Private(words', pages')
    ensures forall g: Frame {:trigger IsFree(words', pages', g)} :: g != f && IsFree(words, pages, g) ==> IsFree(words', pages', g)
  {
    assert PdeAll(words)[i] == Pde(words[i]);
    NewTableFree(PdeAll(words), TablesOf(pages), i, f);
    if Private(words, pages) && IsFree(words, pages, f) { NewTableExclusive(PdeAll(words), TablesOf(pages), i, f); }
  }

  /** Writing one word of a table */
  lemma WordWritten(words: Words, pages: map<Frame, Words>, i: nat, j: nat, w: bv32)
    requires WordsOk(words, pages) && i < ENTRIES && j < ENTRIES && words[i] != 0
    ensures var t := Pde(words[i]).value; t in pages && |pages[t]| == ENTRIES
    ensures var t := Pde(words[i]).value; var pages' := pages[t := pages[t][j := w]];
      && WordsOk(words, pages')
      && (forall page {:trigger ViewOf(words, pages', page)} :: 0 <= page < ALL_PAGES ==>
            ViewOf(words, pages', page) == if page == ENTRIES * i + j then Decode(w) else ViewOf(words, pages, page))
      && (var was, e := Decode(pages[t][j]), Decode(w);
          Private(words, pages) && (!e.present || (was.present && was.frame == e.frame) || IsFree(words, pages, e.frame)) ==> Private(words, pages'))
  {
    var dir, tables, t := PdeAll(words), TablesOf(pages), Pde(words[i]).value;
    assert PdeOk(dir, tables, i);
    assert t in tables && |tables[t]| == ENTRIES;
    var pages' := pages[t := pages[t][j := w]];
    DecodedWrite(pages[t], j, w);
    TableAdded(pages, t, pages[t][j := w]);
    OneEntry(dir, tables, i, j, Decode(w));
    var was, e := Decode(pages[t][j]), Decode(w);
    assert EntryAt(dir, tables, i, j) == was;
    if Exclusive(dir, tables) && (!e.present || (was.present && was.frame == e.frame) || Free(dir, tables, e.frame)) {
      OneEntryExclusive(dir, tables, i, j, e);
    }
    forall page | 0 <= page < ALL_PAGES
      ensures ViewOf(words, pages', page) == if page == ENTRIES * i + j then Decode(w) else ViewOf(words, pages, page)
    {
      Halves(page, i, j);
    }
  }

  /** What is spare stays so, unless the word leads to it now and the word before did not. */
  lemma StaysFree(words: Words, pages: map<Frame, Words>, i: nat, j: nat, w: bv32, g: Frame)
    requires WordsOk(words, pages) && i < ENTRIES && j < ENTRIES && words[i] != 0 && IsFree(words, pages, g)
    requires var was, e := ViewOf(words, pages, ENTRIES * i + j), Decode(w); !e.present || e.frame != g || (was.present && was.frame == e.frame)
    ensures var t := Pde(words[i]).value; t in pages && |pages[t]| == ENTRIES
    ensures var t := Pde(words[i]).value; var pages' := pages[t := pages[t][j := w]];
      WordsOk(words, pages') && IsFree(words, pages', g)
  {
    WordWritten(words, pages, i, j, w);
    var t := Pde(words[i]).value;
    var pages' := pages[t := pages[t][j := w]];
    var dir, tables, tables' := PdeAll(words), TablesOf(pages), TablesOf(pages');
    Halves(ENTRIES * i + j, i, j);
    forall a: nat, b: nat | a < USER_ENTRIES && b < ENTRIES
      ensures !(EntryAt(dir, tables', a, b).present && EntryAt(dir, tables', a, b).frame == g)
    {
      var page := ENTRIES * a + b;
      Halves(page, a, b);
      assert ViewOf(words, pages', page) == if page == ENTRIES * i + j then Decode(w) else ViewOf(words, pages, page);
    }
  }

  lemma Halves(page: nat, i: nat, j: nat)
    requires j < ENTRIES
    ensures page == ENTRIES * i + j <==> page / ENTRIES == i && page % ENTRIES == j
  {
  }

  lemma ReadWord(words: Words, pages: map<Frame, Words>, page: nat)
    requires WordsOk(words, pages) && page < ALL_PAGES
    ensures var w := words[page / ENTRIES];
      if w == 0 then ViewOf(words, pages, page) == NOTHING
      else var t := Pde(w).value; t in pages && |pages[t]| == ENTRIES && ViewOf(words, pages, page) == Decode(pages[t][page % ENTRIES])
  {
    assert PdeOk(PdeAll(words), TablesOf(pages), page / ENTRIES);
    var t := Pde(words[page / ENTRIES]);
    if t.Some? { assert |TablesOf(pages)[t.value]| == ENTRIES; }
  }

  /** What an entry permits */
  predicate Allows(e: Pte, write: bool) { e.present && e.user && (write ==> e.writable) }

  lemma EntryAllows(w: bv32, write: bool)
    ensures Allows(Decode(w), write) == Permits(w, write) && Decode(w).frame == AddressIn(w)
  {
    FlagsAllow(w, write);
  }

  lemma FlagsAllow(w: bv32, write: bool)
    ensures Permits(w, write) == (w & PTE_P != 0 && w & PTE_U != 0 && (write ==> w & PTE_W != 0)) && PTE_ADDR == 0xffff_f000
  {
  }

  lemma SevenPermits(w: bv32, write: bool)
    requires w & 7 == 7
    ensures Permits(w, write)
  {
  }

  lemma ZeroPermits(write: bool)
    ensures !Permits(0, write)
  {
  }

  lemma Walks(words: Words, pages: map<Frame, Words>, page: nat, i: nat, j: nat, write: bool)
    requires WordsOk(words, pages) && page < USER_PAGES && i == page / ENTRIES && j == page % ENTRIES
    ensures var e := ViewOf(words, pages, page); Walk(words, pages, i, j, write) == if Allows(e, write) then Some(e.frame) else None
  {
    ReadWord(words, pages, page);
    if words[i] == 0 {
      ZeroPermits(write);
    } else {
      SevenPermits(words[i], write);
      EntryAllows(words[i], write);
      EntryAllows(pages[AddressIn(words[i])][j], write);
    }
  }

  function Allowed(e: Pte, va: nat, write: bool): Option<nat> { if Allows(e, write) then Some(e.frame + va % PGSIZE) else None }

  /** In the user's half the two levels together permit what the flat map says. */
  lemma Translates(words: Words, pages: map<Frame, Words>, va: nat, write: bool)
    requires WordsOk(words, pages) && va < PHYS_BASE
    ensures Translate(words, pages, va, write) == Allowed(ViewOf(words, pages, va / PGSIZE), va, write)
  {
    Places(va);
    Walks(words, pages, va / PGSIZE, va / 0x40_0000, va / 0x1000 % 0x400, write);
  }

  ghost function Times(s: seq<Frame>, f: Frame): nat {
    multiset(s)[f]
  }

  /** What pagedir_set_page() enters for a page */
  function Entry(page: Page, writable: bool): Pte {
    Pte(page.frame, true, writable, true, false, false)
  }

  function Frames(alloc: Option<Page>): set<Frame> {
    if alloc.Some? then {alloc.value.frame} else {}
  }

  // ----- what the two halves of an update do

  ghost predicate SoundIn(words: Words, pages: map<Frame, Words>, self: Frame)
    requires WordsOk(words, pages)
  {
    Private(words, pages) && IsFree(words, pages, self)
  }

  ghost predicate SpareIn(words: Words, pages: map<Frame, Words>, self: Frame, f: Frame)
    requires WordsOk(words, pages)
  {
    f != self && IsFree(words, pages, f)
  }

  ghost predicate AllSpare(words: Words, pages: map<Frame, Words>, self: Frame, fs: set<Frame>)
    requires WordsOk(words, pages)
  {
    forall f: Frame {:trigger f in fs} :: f in fs ==> SpareIn(words, pages, self, f)
  }

  /** There may be a new table now, in one of the pages `fs`, and nothing else is different. */
  ghost predicate Grown(words: Words, pages: map<Frame, Words>, words': Words, pages': map<Frame, Words>, self: Frame, fs: set<Frame>)
    requires WordsOk(words, pages)
  {
    && WordsOk(words', pages') && words'[USER_ENTRIES..] == words[USER_ENTRIES..] && pages'.Keys <= pages.Keys + fs
    && (forall p {:trigger ViewOf(words', pages', p)} :: 0 <= p < ALL_PAGES ==> ViewOf(words', pages', p) == ViewOf(words, pages, p))
    && (SoundIn(words, pages, self) && AllSpare(words, pages, self, fs) ==> SoundIn(words', pages', self))
    && forall g: Frame {:trigger SpareIn(words', pages', self, g)} ::
         g !in fs && SpareIn(words, pages, self, g) ==> SpareIn(words', pages', self, g)
  }

  lemma NotGrown(words: Words, pages: map<Frame, Words>, self: Frame, fs: set<Frame>)
    requires WordsOk(words, pages)
    ensures Grown(words, pages, words, pages, self, fs)
  {
  }

  lemma GrownMore(words: Words, words': Words, pages: map<Frame, Words>, pages': map<Frame, Words>, self: Frame, i: nat, f: Frame)
    requires WordsOk(words, pages) && i < USER_ENTRIES && f !in pages && NewPde(words, words', i, f) && pages'.Keys == pages.Keys + {f}
    requires TablesOf(pages') == TablesOf(pages)[f := seq(ENTRIES, _ => NOTHING)]
    ensures Grown(words, pages, words', pages', self, {f})
  {
    TableMade(words, words', pages, pages', i, f);
    TablePrivate(words, words', pages, pages', i, f);
    assert f in {f};
  }

  /** The entry of one page is now `e`, and nothing else is different. */
  ghost predicate Changed(words: Words, pages: map<Frame, Words>, pages': map<Frame, Words>, self: Frame, page: nat, e: Pte)
    requires WordsOk(words, pages) && page < ALL_PAGES
  {
    && WordsOk(words, pages') && pages'.Keys == pages.Keys
    && (forall p {:trigger ViewOf(words, pages', p)} :: 0 <= p < ALL_PAGES ==>
          ViewOf(words, pages', p) == if p == page then e else ViewOf(words, pages, p))
    && (SoundIn(words, pages, self) && MayLead(words, pages, self, ViewOf(words, pages, page), e) ==> SoundIn(words, pages', self))
  }

  /** A new entry that leads nowhere, where the former entry led, or to a spare page */
  ghost predicate MayLead(words: Words, pages: map<Frame, Words>, self: Frame, was: Pte, e: Pte)
    requires WordsOk(words, pages)
  {
    !e.present || (was.present && was.frame == e.frame) || SpareIn(words, pages, self, e.frame)
  }

  lemma WordChanges(words: Words, pages: map<Frame, Words>, self: Frame, page: nat, w: bv32, e: Pte)
    requires WordsOk(words, pages) && page < ALL_PAGES && words[page / ENTRIES] != 0 && Decode(w) == e
    ensures var t, j := Pde(words[page / ENTRIES]).value, page % ENTRIES;
      t in pages && |pages[t]| == ENTRIES && Changed(words, pages, pages[t := pages[t][j := w]], self, page, e)
  {
    var i, j := page / ENTRIES, page % ENTRIES;
    ReadWord(words, pages, page);
    WordWritten(words, pages, i, j, w);
    Halves(page, i, j);
    if SoundIn(words, pages, self) && MayLead(words, pages, self, ViewOf(words, pages, page), e) {
      StaysFree(words, pages, i, j, w, self);
    }
  }

  /** Where accesses go in all pages but one, if they say the same as before */
  lemma SamePlaces(words: Words, pages: map<Frame, Words>, words': Words, pages': map<Frame, Words>, but: nat)
    requires WordsOk(words, pages) && WordsOk(words', pages')
    requires forall p {:trigger ViewOf(words', pages', p)} :: 0 <= p < ALL_PAGES && p != but ==> ViewOf(words', pages', p) == ViewOf(words, pages, p)
    ensures forall a, write {:trigger Translate(words', pages', a, write)} :: 0 <= a < PHYS_BASE && a / PGSIZE != but ==>
      Translate(words', pages', a, write) == Translate(words, pages, a, write)
  {
    forall a, write | 0 <= a < PHYS_BASE && a / PGSIZE != but
      ensures Translate(words', pages', a, write) == Translate(words, pages, a, write)
    {
      Translates(words, pages, a, write);
      Translates(words', pages', a, write);
    }
  }

  lemma ThisPlace(words: Words, pages: map<Frame, Words>, page: nat, e: Pte)
    requires WordsOk(words, pages) && page < USER_PAGES && ViewOf(words, pages, page) == e
    ensures forall a, write {:trigger Translate(words, pages, a, write)} :: 0 <= a < PHYS_BASE && a / PGSIZE == page ==>
      Translate(words, pages, a, write) == Allowed(e, a, write)
  {
    forall a, write | 0 <= a < PHYS_BASE && a / PGSIZE == page ensures Translate(words, pages, a, write) == Allowed(e, a, write) {
      Translates(words, pages, a, write);
    }
  }

  /** Both together */
  ghost predicate Entered(words: Words, pages: map<Frame, Words>, words': Words, pages': map<Frame, Words>, self: Frame, fs: set<Frame>, page: nat, e: Pte)
    requires WordsOk(words, pages) && page < ALL_PAGES
  {
    && WordsOk(words', pages') && words'[USER_ENTRIES..] == words[USER_ENTRIES..] && pages'.Keys <= pages.Keys + fs
    && (forall p {:trigger ViewOf(words', pages', p)} :: 0 <= p < ALL_PAGES ==>
          ViewOf(words', pages', p) == if p == page then e else ViewOf(words, pages, p))
    && (SoundIn(words, pages, self) && AllSpare(words, pages, self, fs) && SpareIn(words, pages, self, e.frame) && e.frame !in fs ==>
          SoundIn(words', pages', self))
  }

  lemma GrownAndChanged(words: Words, pages: map<Frame, Words>, words': Words, pages': map<Frame, Words>, pages'': map<Frame, Words>,
                        self: Frame, fs: set<Frame>, page: nat, e: Pte)
    requires WordsOk(words, pages) && Grown(words, pages, words', pages', self, fs)
    requires page < ALL_PAGES && Changed(words', pages', pages'', self, page, e)
    ensures Entered(words, pages, words', pages'', self, fs, page, e)
  {
  }

  /** Where accesses go after that */
  lemma EnteredPlaces(words: Words, pages: map<Frame, Words>, words': Words, pages': map<Frame, Words>, self: Frame, fs: set<Frame>, page: nat,
                      p: Page, writable: bool)
    requires WordsOk(words, pages) && page < USER_PAGES && Entered(words, pages, words', pages', self, fs, page, Entry(p, writable))
    ensures forall a, write {:trigger Translate(words', pages', a, write)} :: 0 <= a < PHYS_BASE ==>
      Translate(words', pages', a, write) == if a / PGSIZE != page then Translate(words, pages, a, write)
                                             else if write && !writable then None else Some(p.frame + a % PGSIZE)
  {
    SamePlaces(words, pages, words', pages', page);
    ThisPlace(words', pages', page, Entry(p, writable));
  }

  lemma UserWord(page: Page, writable: bool)
    requires IsPage(page)
    ensures Decode(PteCreateUser(page.word, writable)) == Entry(page, writable)
  {
    PteDecodes(page.word, writable);
  }

  lemma Places(va: nat)
    requires va < 0x1_0000_0000
    ensures va / PGSIZE < ALL_PAGES && PdNo(va) < ENTRIES && PtNo(va) < ENTRIES && (va < PHYS_BASE ==> PdNo(va) < USER_ENTRIES)
    ensures PdNo(va) == va / PGSIZE / ENTRIES && PtNo(va) == va / PGSIZE % ENTRIES
  {
    PageNumber(va);
  }

  class PageDir {
    /** The page of the directory itself */
    const self: Frame
    var words: Words
    var pages: map<Frame, Words>

    ghost predicate Valid()
      reads this
    {
      WordsOk(words, pages)
    }

    ghost function View(page: nat): Pte
      requires Valid() && page < ALL_PAGES
      reads this
    {
      ViewOf(words, pages, page)
    }

    /** Where an access by the process goes */
    ghost function Access(va: nat, write: bool): Option<nat>
      reads this
    {
      Translate(words, pages, va, write)
    }

    /** Whatever the directory leads to in the user's half is its own and not shared. */
    ghost predicate Sound()
      requires Valid()
      reads this
    {
      SoundIn(words, pages, self)
    }

    /** A page that the directory does not use yet */
    ghost predicate Spare(f: Frame)
      requires Valid()
      reads this
    {
      SpareIn(words, pages, self, f)
    }

    /** What palloc_get_page() gives is a page that is not in use. */
    ghost predicate Grants(alloc: Option<Page>)
      requires Valid()
      reads this
    {
      AllSpare(words, pages, self, Frames(alloc))
    }

    predicate HasTable(page: nat)
      requires |words| == ENTRIES && page < ALL_PAGES
      reads this
    {
      words[page / ENTRIES] != 0
    }

    /** pagedir_create(), given a page for the directory: it copies the directory of the kernel, which has nothing in the
        user's half. `kernelPages` are the kernel's page tables. */
    constructor (self: Frame, kernel: Words, kernelPages: map<Frame, Words>)
      requires WordsOk(kernel, kernelPages) && forall i {:trigger kernel[i]} :: 0 <= i < USER_ENTRIES ==> kernel[i] == 0
      ensures Valid() && this.self == self && words == kernel && pages == kernelPages && Sound()
      ensures forall page {:trigger View(page)} :: 0 <= page < USER_PAGES ==> View(page) == NOTHING
    {
      this.self, words, pages := self, kernel, kernelPages;
      new;
      EmptyIsExclusive(PdeAll(words), TablesOf(pages));
    }

    /** The part of lookup_page() that enters a new table */
    method AddTable(i: nat, a: Page)
      requires Valid() && i < USER_ENTRIES && words[i] == 0 && IsPage(a) && a.frame !in pages
      modifies this
      ensures Grown(old(words), old(pages), words, pages, self, {a.frame})
      ensures |words| == ENTRIES && words[i] != 0 && words[i] == PdeCreate(a.word)
    {
      TableDecodes(words, pages, i, a);
      pages := pages[a.frame := seq(ENTRIES, _ => 0)];
      words := words[i := PdeCreate(a.word)];
      GrownMore(old(words), words, old(pages), pages, self, i, a.frame);
    }

    /** lookup_page() gives the table and the place in it. `alloc` is the page that palloc_get_page() finds for a new
        table, if any. */
    method LookupPage(va: nat, create: bool, alloc: Option<Page>) returns (r: Option<(Frame, nat)>)
      requires Valid() && va < 0x1_0000_0000 && (create ==> va < PHYS_BASE)
      requires alloc.Some? ==> IsPage(alloc.value) && alloc.value.frame !in pages
      modifies this
      ensures Grown(old(words), old(pages), words, pages, self, Frames(alloc))
      ensures r.None? <==> !old(HasTable(va / PGSIZE)) && !(create && alloc.Some?)
      ensures r.None? || old(HasTable(va / PGSIZE)) ==> words == old(words) && pages == old(pages)
      ensures r.Some? ==> HasTable(va / PGSIZE) && Pde(words[PdNo(va)]) == Some(r.value.0) && r.value.1 == PtNo(va)
    {
      var i := PdNo(va);
      Places(va);
      NotGrown(words, pages, self, Frames(alloc));
      if words[i] == 0 {
        if !create || alloc.None? {
          return None;
        }
        AddTable(i, alloc.value);
      }
      return Some((Pde(words[i]).value, PtNo(va)));
    }

    /** Writing the word that lookup_page() has found, which stands for `e` */
    method WriteWord(va: nat, at: (Frame, nat), w: bv32, ghost e: Pte)
      requires Valid() && va < 0x1_0000_0000 && Pde(words[PdNo(va)]) == Some(at.0) && at.1 == PtNo(va) && Decode(w) == e
      modifies this`pages
      ensures Changed(words, old(pages), pages, self, va / PGSIZE, e)
    {
      Places(va);
      WordChanges(words, pages, self, va / PGSIZE, w, e);
      pages := pages[at.0 := pages[at.0][at.1 := w]];
    }

    /** Reading it */
    method FindWord(va: nat) returns (r: Option<(Frame, nat)>, w: bv32)
      requires Valid() && va < 0x1_0000_0000
      modifies this
      ensures words == old(words) && pages == old(pages)
      ensures r.Some? <==> HasTable(va / PGSIZE)
      ensures r.Some? ==> Pde(words[PdNo(va)]) == Some(r.value.0) && r.value.1 == PtNo(va)
      ensures Decode(w) == View(va / PGSIZE) && (r.None? ==> w == 0)
    {
      r := LookupPage(va, false, None);
      Places(va);
      ReadWord(words, pages, va / PGSIZE);
      NothingIsZero();
      w := if r.Some? then pages[r.value.0][r.value.1] else 0;
    }

    /** Entering the word `w`, which stands for `e` */
    method Enter(va: nat, w: bv32, ghost e: Pte, alloc: Option<Page>) returns (ok: bool)
      requires Valid() && va < PHYS_BASE && Decode(w) == e
      requires alloc.Some? ==> IsPage(alloc.value) && alloc.value.frame !in pages
      modifies this
      ensures ok == (old(HasTable(va / PGSIZE)) || alloc.Some?)
      ensures if ok then Entered(old(words), old(pages), words, pages, self, Frames(alloc), va / PGSIZE, e)
              else words == old(words) && pages == old(pages)
    {
      var at := LookupPage(va, true, alloc);
      if at.None? {
        return false;
      }
      ghost var between := pages;
      WriteWord(va, at.value, w, e);
      GrownAndChanged(old(words), old(pages), words, between, pages, self, Frames(alloc), va / PGSIZE, e);
      return true;
    }

    /** pagedir_set_page() */
    method SetPage(va: nat, page: Page, writable: bool, alloc: Option<Page>) returns (ok: bool)
      requires Valid() && va < PHYS_BASE && va % PGSIZE == 0 && IsPage(page) && !View(va / PGSIZE).present
      requires alloc.Some? ==> IsPage(alloc.value) && alloc.value.frame !in pages
      modifies this
      ensures Valid() && ok == (old(HasTable(va / PGSIZE)) || alloc.Some?)
      ensures forall p {:trigger View(p)} :: 0 <= p < ALL_PAGES ==>
        View(p) == if p == va / PGSIZE && ok then Entry(page, writable) else old(View(p))
      ensures forall a, write {:trigger Access(a, write)} :: 0 <= a < PHYS_BASE ==>
        Access(a, write) == if a / PGSIZE != va / PGSIZE || !ok then old(Access(a, write))
                            else if write && !writable then None else Some(page.frame + a % PGSIZE)
      ensures words[USER_ENTRIES..] == old(words[USER_ENTRIES..]) && pages.Keys <= old(pages.Keys) + Frames(alloc)
      ensures var f := page.frame;
        old(Sound()) && old(Spare(f)) && old(Grants(alloc)) && f !in Frames(alloc) ==> Sound()
    {
      UserWord(page, writable);
      ok := Enter(va, PteCreateUser(page.word, writable), Entry(page, writable), alloc);
      if ok { EnteredPlaces(old(words), old(pages), words, pages, self, Frames(alloc), va / PGSIZE, page, writable); }
    }

    /** pagedir_get_page(), which gives a physical address here */
    method GetPage(va: nat) returns (r: Option<nat>)
      requires Valid() && va < PHYS_BASE
      modifies this
      ensures words == old(words) && pages == old(pages)
      ensures var e := View(va / PGSIZE); r == if e.present then Some(e.frame + va % PGSIZE) else None
    {
      var at, w := FindWord(va);
      return if at.Some? && w & PTE_P != 0 then Some((w & PTE_ADDR) as nat + va % PGSIZE) else None;
    }

    /** pagedir_clear_page() */
    method ClearPage(va: nat)
      requires Valid() && va < PHYS_BASE && va % PGSIZE == 0
      modifies this
      ensures Valid() && words == old(words) && (old(Sound()) ==> Sound())
      ensures forall p {:trigger View(p)} :: 0 <= p < ALL_PAGES ==>
        View(p) == if p == va / PGSIZE then old(View(p)).(present := false) else old(View(p))
      ensures forall a, write {:trigger Access(a, write)} :: 0 <= a < PHYS_BASE ==>
        Access(a, write) == if a / PGSIZE == va / PGSIZE then None else old(Access(a, write))
    {
      var at, w := FindWord(va);
      if at.Some? && w & PTE_P != 0 {
        Cleared(w);
        WriteWord(va, at.value, w & !PTE_P, Decode(w).(present := false));
      }
      SamePlaces(old(words), old(pages), words, pages, va / PGSIZE);
      ThisPlace(words, pages, va / PGSIZE, View(va / PGSIZE));
    }

    /** pagedir_set_dirty(), which does nothing if there is no table */
    method SetDirty(va: nat, dirty: bool)
      requires Valid() && va < 0x1_0000_0000
      modifies this
      ensures Valid() && words == old(words) && (old(Sound()) ==> Sound())
      ensures forall p {:trigger View(p)} :: 0 <= p < ALL_PAGES ==>
        View(p) == if p == va / PGSIZE && HasTable(p) then old(View(p)).(dirty := dirty) else old(View(p))
    {
      var at, w := FindWord(va);
      if at.Some? {
        Dirtied(w, dirty);
        WriteWord(va, at.value, Flagged(w, PTE_D, dirty), Decode(w).(dirty := dirty));
      }
    }

    /** pagedir_set_accessed() */
    method SetAccessed(va: nat, accessed: bool)
      requires Valid() && va < 0x1_0000_0000
      modifies this
      ensures Valid() && words == old(words) && (old(Sound()) ==> Sound())
      ensures forall p {:trigger View(p)} :: 0 <= p < ALL_PAGES ==>
        View(p) == if p == va / PGSIZE && HasTable(p) then old(View(p)).(accessed := accessed) else old(View(p))
    {
      var at, w := FindWord(va);
      if at.Some? {
        Accessed(w, accessed);
        WriteWord(va, at.value, Flagged(w, PTE_A, accessed), Decode(w).(accessed := accessed));
      }
    }

    /** pagedir_is_dirty() */
    method IsDirty(va: nat) returns (dirty: bool)
      requires Valid() && va < 0x1_0000_0000
      modifies this
      ensures words == old(words) && pages == old(pages) && dirty == View(va / PGSIZE).dirty
    {
      var at, w := FindWord(va);
      return at.Some? && w & PTE_D != 0;
    }

    /** pagedir_is_accessed() */
    method IsAccessed(va: nat) returns (accessed: bool)
      requires Valid() && va < 0x1_0000_0000
      modifies this
      ensures words == old(words) && pages == old(pages) && accessed == View(va / PGSIZE).accessed
    {
      var at, w := FindWord(va);
      return at.Some? && w & PTE_A != 0;
    }

    /** pagedir_destroy(), of a directory there is: the pages it frees, in order */
    method Destroy() returns (freed: seq<Frame>)
      requires Valid()
      ensures forall f: Frame {:trigger Times(freed, f)} :: Times(freed, f) == Freed(PdeAll(words), TablesOf(pages), self, f)
      ensures (forall f: Frame {:trigger Times(freed, f)} :: Times(freed, f) <= 1) <==> Sound()
    {
      ghost var dir, tables := PdeAll(words), TablesOf(pages);
      freed := [];
      for i := 0 to USER_ENTRIES
        invariant forall f: Frame {:trigger Times(freed, f)} :: Times(freed, f) == Owned(dir, tables, i, f)
      {
        assert PdeOk(dir, tables, i);
        if words[i] & PTE_P != 0 {
          var t := (words[i] & PTE_ADDR) as nat;
          ZeroIsAbsent();
          var frames := FreeFrames(pages[t]);
          ghost var before := freed;
          freed := freed + frames + [t];
          forall f: Frame ensures Times(freed, f) == Owned(dir, tables, i + 1, f) {
            assert Times(freed, f) == Times(before, f) + Times(frames, f) + if f == t then 1 else 0;
          }
        }
      }
      ghost var before := freed;
      freed := freed + [self];
      forall f: Frame ensures Times(freed, f) == Freed(dir, tables, self, f) {
        assert Times(freed, f) == Times(before, f) + if f == self then 1 else 0;
      }
      FreedOnceExactly(dir, tables, self);
      ApartIsFree(dir, tables, self);
      AtMostOnce(dir, tables, self, freed);
    }
  }

  lemma AtMostOnce(dir: Directory, tables: Tables, self: Frame, freed: seq<Frame>)
    requires Wf(dir, tables) && forall f: Frame {:trigger Times(freed, f)} :: Times(freed, f) == Freed(dir, tables, self, f)
    ensures (forall f: Frame {:trigger Times(freed, f)} :: Times(freed, f) <= 1) <==> forall f: Frame :: Freed(dir, tables, self, f) <= 1
  {
    if forall f: Frame {:trigger Times(freed, f)} :: Times(freed, f) <= 1 {
      forall f: Frame ensures Freed(dir, tables, self, f) <= 1 { assert Times(freed, f) <= 1; }
    }
  }

  /** pagedir_create(): `page` is the page that palloc_get_page() finds, if any. */
  method Make(page: Option<Frame>, kernel: Words, kernelPages: map<Frame, Words>) returns (pd: PageDir?)
    requires WordsOk(kernel, kernelPages) && forall i {:trigger kernel[i]} :: 0 <= i < USER_ENTRIES ==> kernel[i] == 0
    ensures pd == null <==> page.None?
    ensures pd != null ==> fresh(pd) && pd.Valid() && pd.Sound() && pd.self == page.value && pd.words == kernel && pd.pages == kernelPages
  {
    if page.None? {
      return null;
    }
    pd := new PageDir(page.value, kernel, kernelPages);
  }

  /** pagedir_destroy(), of a directory that may be a null pointer */
  method Unmake(pd: PageDir?) returns (freed: seq<Frame>)
    requires pd != null ==> pd.Valid()
    ensures pd == null ==> freed == []
    ensures pd != null ==> forall f: Frame {:trigger Times(freed, f)} :: Times(freed, f) == Freed(PdeAll(pd.words), TablesOf(pd.pages), pd.self, f)
    ensures pd != null ==> ((forall f: Frame {:trigger Times(freed, f)} :: Times(freed, f) <= 1) <==> pd.Sound())
  {
    if pd == null {
      return [];
    }
    freed := pd.Destroy();
  }

  /** A directory with one frame at two pages of the user's half is not sound, and the frame is freed twice. */
  method FreesTwice(pd: PageDir, p: nat, q: nat, ghost f: Frame) returns (freed: seq<Frame>)
    requires pd.Valid() && p < USER_PAGES && q < USER_PAGES && p != q
    requires pd.View(p).present && pd.View(q).present && pd.View(p).frame == f && pd.View(q).frame == f
    ensures !pd.Sound() && Times(freed, f) >= 2
  {
    TwoPages(pd.words, pd.pages, p, q, f);
    freed := pd.Destroy();
    assert Times(freed, f) >= 2;
  }

  /** The two addresses are not mapped, and there is memory for their tables. */
  ghost predicate MayMap(pd: PageDir, va: nat, va': nat, alloc: Page, alloc': Page)
    requires pd.Valid()
    reads pd
  {
    && va < PHYS_BASE && va' < PHYS_BASE && va % PGSIZE == va' % PGSIZE == 0 && va != va'
    && !pd.View(va / PGSIZE).present && !pd.View(va' / PGSIZE).present && IsPage(alloc) && IsPage(alloc')
    && alloc.frame !in pd.pages && alloc'.frame !in pd.pages && alloc'.frame != alloc.frame
  }

  /** pagedir_set_page() lets it come to that: it looks only at the page that is to be mapped. */
  method SetTwice(pd: PageDir, va: nat, va': nat, page: Page, alloc: Page, alloc': Page)
    requires pd.Valid() && MayMap(pd, va, va', alloc, alloc') && IsPage(page)
    modifies pd
    ensures va / PGSIZE < USER_PAGES && va' / PGSIZE < USER_PAGES && va / PGSIZE != va' / PGSIZE
    ensures pd.Valid() && pd.View(va / PGSIZE) == Entry(page, true) && pd.View(va' / PGSIZE) == Entry(page, true)
  {
    OtherPage(va, va');
    var ok := pd.SetPage(va, page, true, Some(alloc));
    ok := pd.SetPage(va', page, true, Some(alloc'));
  }

  lemma OtherPage(va: nat, va': nat)
    requires va < PHYS_BASE && va' < PHYS_BASE && va % PGSIZE == va' % PGSIZE == 0 && va != va'
    ensures va / PGSIZE != va' / PGSIZE && va / PGSIZE < USER_PAGES && va' / PGSIZE < USER_PAGES
  {
  }

  lemma TwoPages(words: Words, pages: map<Frame, Words>, p: nat, q: nat, f: Frame)
    requires WordsOk(words, pages) && p < USER_PAGES && q < USER_PAGES && p != q
    requires var x, y := ViewOf(words, pages, p), ViewOf(words, pages, q); x.present && y.present && x.frame == f && y.frame == f
    ensures Owned(PdeAll(words), TablesOf(pages), USER_ENTRIES, f) >= 2
  {
    Halves(p, q / ENTRIES, q % ENTRIES);
    MappedTwice(PdeAll(words), TablesOf(pages), USER_ENTRIES, p / ENTRIES, p % ENTRIES, q / ENTRIES, q % ENTRIES);
  }

  lemma ZeroIsAbsent()
    ensures 0 & PTE_P == 0
  {
  }

  /** The inner loop of pagedir_destroy() */
  method FreeFrames(page: Words) returns (freed: seq<Frame>)
    ensures forall f: Frame {:trigger Times(freed, f)} :: Times(freed, f) == InTable(DecodeAll(page), |page|, f)
  {
    ghost var table := DecodeAll(page);
    freed := [];
    for j := 0 to |page|
      invariant forall f: Frame {:trigger Times(freed, f)} :: Times(freed, f) == InTable(table, j, f)
    {
      assert table[j] == Decode(page[j]);
      if page[j] & PTE_P != 0 {
        ghost var before := freed;
        freed := freed + [(page[j] & PTE_ADDR) as nat];
        forall f: Frame ensures Times(freed, f) == InTable(table, j + 1, f) {
          assert Times(freed, f) == Times(before, f) + if f == table[j].frame then 1 else 0;
        }
      }
    }
  }

  // ----- what a directory owns

  /** How many of the first `n` entries of a table are present and lead to `f` */
  ghost function InTable(table: seq<Pte>, n: nat, f: Frame): nat
    requires n <= |table|
  {
    if n == 0 then 0 else InTable(table, n - 1, f) + if table[n - 1].present && table[n - 1].frame == f then 1 else 0
  }

  /** How often entry `a` of a directory leads to `f`, as a frame or as a table */
  ghost function Share(dir: Directory, tables: Tables, a: nat, f: Frame): nat
    requires Wf(dir, tables) && a < ENTRIES
  {
    assert PdeOk(dir, tables, a);
    match dir[a]
    case None => 0
    case Some(t) => InTable(tables[t], |tables[t]|, f) + if t == f then 1 else 0
  }

  /** How often the first `n` entries do */
  ghost function Owned(dir: Directory, tables: Tables, n: nat, f: Frame): nat
    requires Wf(dir, tables) && n <= ENTRIES
  {
    if n == 0 then 0 else Owned(dir, tables, n - 1, f) + Share(dir, tables, n - 1, f)
  }

  ghost predicate MappedApart(dir: Directory, tables: Tables, a: nat, b: nat, c: nat, d: nat)
    requires Wf(dir, tables)
  {
    a < USER_ENTRIES && b < ENTRIES && c < USER_ENTRIES && d < ENTRIES && (a != c || b != d) ==>
      var x, y := EntryAt(dir, tables, a, b), EntryAt(dir, tables, c, d); x.present && y.present ==> x.frame != y.frame
  }

  ghost predicate NoTable(dir: Directory, tables: Tables, a: nat, b: nat, c: nat)
    requires Wf(dir, tables)
  {
    a < USER_ENTRIES && b < ENTRIES && c < USER_ENTRIES && EntryAt(dir, tables, a, b).present ==>
      dir[c] != Some(EntryAt(dir, tables, a, b).frame)
  }

  /** No frame is mapped twice, or is a page table, too. */
  ghost predicate Exclusive(dir: Directory, tables: Tables)
    requires Wf(dir, tables)
  {
    && (forall a: nat, b: nat, c: nat, d: nat {:trigger MappedApart(dir, tables, a, b, c, d)} :: MappedApart(dir, tables, a, b, c, d))
    && (forall a: nat, b: nat, c: nat {:trigger NoTable(dir, tables, a, b, c)} :: NoTable(dir, tables, a, b, c))
  }

  /** `f` is a table in the user's half, or what one of its entries leads to. */
  ghost predicate LeadsTo(dir: Directory, tables: Tables, a: nat, f: Frame)
    requires Wf(dir, tables) && a < ENTRIES
  {
    dir[a] == Some(f) || exists b: nat :: b < ENTRIES && EntryAt(dir, tables, a, b).present && EntryAt(dir, tables, a, b).frame == f
  }

  lemma {:induction false} InTableIs(table: seq<Pte>, n: nat, f: Frame)
    requires n <= |table|
    ensures InTable(table, n, f) > 0 <==> exists j :: 0 <= j < n && table[j].present && table[j].frame == f
  {
    if n > 0 { InTableIs(table, n - 1, f); }
  }

  lemma {:induction false} InTableOnce(table: seq<Pte>, n: nat, f: Frame)
    requires n <= |table|
    ensures InTable(table, n, f) <= 1 <==>
      forall i, j :: 0 <= i < j < n && table[i].present && table[j].present && table[i].frame == f ==> table[j].frame != f
  {
    if n > 0 {
      InTableOnce(table, n - 1, f);
      InTableIs(table, n - 1, f);
    }
  }

  lemma ShareIs(dir: Directory, tables: Tables, a: nat, f: Frame)
    requires Wf(dir, tables) && a < ENTRIES
    ensures Share(dir, tables, a, f) > 0 <==> LeadsTo(dir, tables, a, f)
  {
    assert PdeOk(dir, tables, a);
    if dir[a].Some? {
      var table := tables[dir[a].value];
      InTableIs(table, |table|, f);
      if exists j :: 0 <= j < ENTRIES && table[j].present && table[j].frame == f {
        var j :| 0 <= j < ENTRIES && table[j].present && table[j].frame == f;
        assert EntryAt(dir, tables, a, j) == table[j];
      }
    }
  }

  lemma ShareOnce(dir: Directory, tables: Tables, a: nat, f: Frame)
    requires Wf(dir, tables) && a < USER_ENTRIES && Exclusive(dir, tables)
    ensures Share(dir, tables, a, f) <= 1
  {
    assert PdeOk(dir, tables, a);
    if dir[a].Some? {
      var table := tables[dir[a].value];
      forall i, j | 0 <= i < j < ENTRIES && table[i].present && table[j].present && table[i].frame == f ensures table[j].frame != f {
        assert EntryAt(dir, tables, a, i) == table[i] && EntryAt(dir, tables, a, j) == table[j];
        assert MappedApart(dir, tables, a, i, a, j);
      }
      InTableOnce(table, |table|, f);
      InTableIs(table, |table|, f);
      forall j | 0 <= j < ENTRIES && table[j].present ensures table[j].frame != dir[a].value {
        assert EntryAt(dir, tables, a, j) == table[j] && NoTable(dir, tables, a, j, a);
      }
    }
  }

  lemma SharesApart(dir: Directory, tables: Tables, a: nat, c: nat, f: Frame)
    requires Wf(dir, tables) && a < c < USER_ENTRIES && Exclusive(dir, tables) && LeadsTo(dir, tables, a, f)
    ensures !LeadsTo(dir, tables, c, f)
  {
    assert PdePair(dir, a, c);
    forall d: nat | d < ENTRIES && EntryAt(dir, tables, c, d).present ensures EntryAt(dir, tables, c, d).frame != f {
      assert NoTable(dir, tables, c, d, a);
      if dir[a] != Some(f) {
        var b: nat :| b < ENTRIES && EntryAt(dir, tables, a, b).present && EntryAt(dir, tables, a, b).frame == f;
        assert MappedApart(dir, tables, a, b, c, d);
      }
    }
    if dir[a] != Some(f) {
      var b: nat :| b < ENTRIES && EntryAt(dir, tables, a, b).present && EntryAt(dir, tables, a, b).frame == f;
      assert NoTable(dir, tables, a, b, c);
    }
  }

  /** What is owned is what some entry of the directory leads to, and the other way round. */
  lemma {:induction false} OwnedIs(dir: Directory, tables: Tables, n: nat, f: Frame)
    requires Wf(dir, tables) && n <= ENTRIES
    ensures Owned(dir, tables, n, f) > 0 <==> exists a: nat :: a < n && LeadsTo(dir, tables, a, f)
  {
    if n > 0 {
      OwnedIs(dir, tables, n - 1, f);
      ShareIs(dir, tables, n - 1, f);
    }
  }

  /** If no frame is mapped twice or is a table, none of them is freed twice, and no table. */
  lemma {:induction false} FreedOnce(dir: Directory, tables: Tables, n: nat, f: Frame)
    requires Wf(dir, tables) && n <= USER_ENTRIES && Exclusive(dir, tables)
    ensures Owned(dir, tables, n, f) <= 1
  {
    if n > 0 {
      FreedOnce(dir, tables, n - 1, f);
      ShareOnce(dir, tables, n - 1, f);
      OwnedIs(dir, tables, n - 1, f);
      ShareIs(dir, tables, n - 1, f);
      if Owned(dir, tables, n - 1, f) > 0 {
        var a: nat :| a < n - 1 && LeadsTo(dir, tables, a, f);
        SharesApart(dir, tables, a, n - 1, f);
      }
    }
  }

  // ----- the other way round

  lemma {:induction false} OwnedHas(dir: Directory, tables: Tables, n: nat, a: nat, f: Frame)
    requires Wf(dir, tables) && a < n <= ENTRIES
    ensures Share(dir, tables, a, f) <= Owned(dir, tables, n, f)
  {
    if a < n - 1 { OwnedHas(dir, tables, n - 1, a, f); }
  }

  /** What two entries of the directory add */
  lemma {:induction false} OwnedHasBoth(dir: Directory, tables: Tables, n: nat, a: nat, c: nat, f: Frame)
    requires Wf(dir, tables) && a < c < n <= ENTRIES
    ensures Share(dir, tables, a, f) + Share(dir, tables, c, f) <= Owned(dir, tables, n, f)
  {
    if c == n - 1 {
      OwnedHas(dir, tables, n - 1, a, f);
    } else {
      OwnedHasBoth(dir, tables, n - 1, a, c, f);
    }
  }

  lemma BothLead(dir: Directory, tables: Tables, n: nat, a: nat, c: nat, f: Frame)
    requires Wf(dir, tables) && a < n <= ENTRIES && c < n && a != c && LeadsTo(dir, tables, a, f) && LeadsTo(dir, tables, c, f)
    ensures Owned(dir, tables, n, f) >= 2
  {
    ShareIs(dir, tables, a, f);
    ShareIs(dir, tables, c, f);
    if a < c { OwnedHasBoth(dir, tables, n, a, c, f); } else { OwnedHasBoth(dir, tables, n, c, a, f); }
  }

  /** A frame that is mapped at two pages is freed twice. */
  lemma MappedTwice(dir: Directory, tables: Tables, n: nat, a: nat, b: nat, c: nat, d: nat)
    requires Wf(dir, tables) && a < n <= ENTRIES && b < ENTRIES && c < n && d < ENTRIES && (a != c || b != d)
    requires var x, y := EntryAt(dir, tables, a, b), EntryAt(dir, tables, c, d); x.present && y.present && x.frame == y.frame
    ensures Owned(dir, tables, n, EntryAt(dir, tables, a, b).frame) >= 2
  {
    assert PdeOk(dir, tables, a) && PdeOk(dir, tables, c);
    var f := EntryAt(dir, tables, a, b).frame;
    if a == c {
      var table := tables[dir[a].value];
      InTableOnce(table, |table|, f);
      OwnedHas(dir, tables, n, a, f);
    } else {
      assert LeadsTo(dir, tables, a, f) && LeadsTo(dir, tables, c, f);
      BothLead(dir, tables, n, a, c, f);
    }
  }

  /** So is a table that is mapped. */
  lemma TableMapped(dir: Directory, tables: Tables, n: nat, a: nat, b: nat, c: nat)
    requires Wf(dir, tables) && a < n <= ENTRIES && b < ENTRIES && c < n
    requires var x := EntryAt(dir, tables, a, b); x.present && dir[c] == Some(x.frame)
    ensures Owned(dir, tables, n, EntryAt(dir, tables, a, b).frame) >= 2
  {
    assert PdeOk(dir, tables, a);
    var f := EntryAt(dir, tables, a, b).frame;
    if a == c {
      var table := tables[dir[a].value];
      InTableIs(table, |table|, f);
      OwnedHas(dir, tables, n, a, f);
    } else {
      assert LeadsTo(dir, tables, a, f) && LeadsTo(dir, tables, c, f);
      BothLead(dir, tables, n, a, c, f);
    }
  }

  /** How often pagedir_destroy() frees `f`, the directory being in page `self` */
  ghost function Freed(dir: Directory, tables: Tables, self: Frame, f: Frame): nat
    requires Wf(dir, tables)
  {
    Owned(dir, tables, USER_ENTRIES, f) + if f == self then 1 else 0
  }

  /** The page of the directory is neither mapped nor a table. */
  ghost predicate Apart(dir: Directory, tables: Tables, self: Frame)
    requires Wf(dir, tables)
  {
    forall a: nat {:trigger LeadsTo(dir, tables, a, self)} :: a < USER_ENTRIES ==> !LeadsTo(dir, tables, a, self)
  }

  /** Nothing is freed twice if and only if no frame is mapped at two pages, none is a table, and the page of the
      directory is neither. */
  lemma FreedOnceExactly(dir: Directory, tables: Tables, self: Frame)
    requires Wf(dir, tables)
    ensures (forall f: Frame :: Freed(dir, tables, self, f) <= 1) <==> Exclusive(dir, tables) && Apart(dir, tables, self)
  {
    OwnedIs(dir, tables, USER_ENTRIES, self);
    if Exclusive(dir, tables) && Apart(dir, tables, self) {
      forall f: Frame ensures Freed(dir, tables, self, f) <= 1 { FreedOnce(dir, tables, USER_ENTRIES, f); }
    }
    if forall f: Frame :: Freed(dir, tables, self, f) <= 1 {
      assert Freed(dir, tables, self, self) <= 1;
      OnceIsExclusive(dir, tables, self);
    }
  }

  lemma OnceIsExclusive(dir: Directory, tables: Tables, self: Frame)
    requires Wf(dir, tables) && forall f: Frame :: Freed(dir, tables, self, f) <= 1
    ensures Exclusive(dir, tables)
  {
    var n := USER_ENTRIES;
    forall a: nat, b: nat, c: nat, d: nat ensures MappedApart(dir, tables, a, b, c, d) {
      if !MappedApart(dir, tables, a, b, c, d) {
        MappedTwice(dir, tables, n, a, b, c, d);
        var g := Freed(dir, tables, self, EntryAt(dir, tables, a, b).frame);
      }
    }
    forall a: nat, b: nat, c: nat ensures NoTable(dir, tables, a, b, c) {
      if !NoTable(dir, tables, a, b, c) {
        TableMapped(dir, tables, n, a, b, c);
        var g := Freed(dir, tables, self, EntryAt(dir, tables, a, b).frame);
      }
    }
  }

  // ----- what keeps frames apart

  /** Nothing of the user's half leads to `f`. */
  ghost predicate Free(dir: Directory, tables: Tables, f: Frame)
    requires Wf(dir, tables)
  {
    && (forall a: nat, b: nat {:trigger EntryAt(dir, tables, a, b)} :: a < USER_ENTRIES && b < ENTRIES ==>
          !(EntryAt(dir, tables, a, b).present && EntryAt(dir, tables, a, b).frame == f))
    && (forall c: nat {:trigger dir[c]} :: c < USER_ENTRIES ==> dir[c] != Some(f))
  }

  lemma ApartIsFree(dir: Directory, tables: Tables, f: Frame)
    requires Wf(dir, tables)
    ensures Apart(dir, tables, f) <==> Free(dir, tables, f)
  {
    if Apart(dir, tables, f) {
      forall c: nat | c < USER_ENTRIES ensures dir[c] != Some(f) { assert !LeadsTo(dir, tables, c, f); }
      forall a: nat, b: nat | a < USER_ENTRIES && b < ENTRIES
        ensures !(EntryAt(dir, tables, a, b).present && EntryAt(dir, tables, a, b).frame == f)
      {
        assert !LeadsTo(dir, tables, a, f);
      }
    }
  }

  lemma EmptyIsExclusive(dir: Directory, tables: Tables)
    requires Wf(dir, tables) && forall i: nat {:trigger dir[i]} :: i < USER_ENTRIES ==> dir[i].None?
    ensures Exclusive(dir, tables)
  {
    forall a: nat, b: nat, c: nat, d: nat ensures MappedApart(dir, tables, a, b, c, d) {}
    forall a: nat, b: nat, c: nat ensures NoTable(dir, tables, a, b, c) {}
  }

  /** A new table in a page that is free */
  lemma NewTableExclusive(dir: Directory, tables: Tables, i: nat, f: Frame)
    requires Wf(dir, tables) && Exclusive(dir, tables) && i < USER_ENTRIES && dir[i].None? && f !in tables && Free(dir, tables, f)
    ensures var dir', tables' := dir[i := Some(f)], tables[f := seq(ENTRIES, _ => NOTHING)]; Wf(dir', tables') && Exclusive(dir', tables')
  {
    NewTable(dir, tables, i, f);
    var dir', tables' := dir[i := Some(f)], tables[f := seq(ENTRIES, _ => NOTHING)];
    forall a: nat, b: nat, c: nat, d: nat ensures MappedApart(dir', tables', a, b, c, d) { assert MappedApart(dir, tables, a, b, c, d); }
    forall a: nat, b: nat, c: nat ensures NoTable(dir', tables', a, b, c) { assert NoTable(dir, tables, a, b, c); }
  }

  lemma NewTableFree(dir: Directory, tables: Tables, i: nat, f: Frame)
    requires Wf(dir, tables) && i < USER_ENTRIES && dir[i].None? && f !in tables
    ensures var dir', tables' := dir[i := Some(f)], tables[f := seq(ENTRIES, _ => NOTHING)];
      Wf(dir', tables') && forall g: Frame {:trigger Free(dir', tables', g)} :: g != f && Free(dir, tables, g) ==> Free(dir', tables', g)
  {
    NewTable(dir, tables, i, f);
    var dir', tables' := dir[i := Some(f)], tables[f := seq(ENTRIES, _ => NOTHING)];
    forall g: Frame | g != f && Free(dir, tables, g) ensures Free(dir', tables', g) {
      forall c: nat | c < USER_ENTRIES ensures dir'[c] != Some(g) { assert dir[c] != Some(g); }
    }
  }

  /** An entry that is not present, or leads where it led before, or to a free frame */
  lemma OneEntryExclusive(dir: Directory, tables: Tables, i: nat, j: nat, e: Pte)
    requires Wf(dir, tables) && Exclusive(dir, tables) && i < ENTRIES && j < ENTRIES && dir[i].Some? && dir[i].value in tables
    requires var was := EntryAt(dir, tables, i, j); !e.present || (was.present && was.frame == e.frame) || Free(dir, tables, e.frame)
    ensures var f := dir[i].value; var tables' := tables[f := tables[f][j := e]]; Wf(dir, tables') && Exclusive(dir, tables')
  {
    OneEntry(dir, tables, i, j, e);
    var f := dir[i].value;
    var tables' := tables[f := tables[f][j := e]];
    forall a: nat, b: nat, c: nat, d: nat ensures MappedApart(dir, tables', a, b, c, d) { assert MappedApart(dir, tables, a, b, c, d); }
    forall a: nat, b: nat, c: nat ensures NoTable(dir, tables', a, b, c) { assert NoTable(dir, tables, a, b, c); }
  }
}
