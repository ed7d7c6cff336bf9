/** Loading the segments of an executable lazily, through the supplemental page table; process.c, exception.c, page.c. */
module Elf {
  import opened Common
  import I = InodeIO
  import H = Hash

  const PHYS_BASE: nat := 0xc000_0000
  const MODULUS: nat := 0x1_0000_0000
  const OFF_LIMIT: nat := 0x8000_0000

  /** The page below PHYS_BASE, which setup_stack() installs after the segments have been loaded */
  const STACK_PAGE: nat := 0xb_ffff

  /** A number as an off_t, which has 32 bits and a sign */
  function Signed(x: int): (y: int)
    ensures -0x8000_0000 <= y < OFF_LIMIT
  {
    var y := x % MODULUS; if y < OFF_LIMIT then y else y - MODULUS
  }

  lemma SignedAdds(x: int, y: int)
    ensures Signed(Signed(x) + y) == Signed(x + y)
  {
    var k := if x % MODULUS < OFF_LIMIT then 0 else 1;
    assert Signed(x) + y == x + y - MODULUS * (x / MODULUS + k);
    SameRemainder(x + y, -(x / MODULUS + k));
  }

  lemma SameRemainder(x: int, k: int)
    ensures (x + MODULUS * k) % MODULUS == x % MODULUS
  {
  }

  /** The fields of a program header that load() uses, as 32-bit numbers */
  datatype Phdr = Phdr(offset: nat, vaddr: nat, filesz: nat, memsz: nat, writable: bool)

  predicate Is32(p: Phdr) { p.offset < MODULUS && p.vaddr < MODULUS && p.filesz < MODULUS && p.memsz < MODULUS }

  /** validate_segment(), with additions modulo 2**32 */
  predicate Validate(p: Phdr, fileLength: nat) {
    && p.offset % PGSIZE == p.vaddr % PGSIZE
    && p.offset <= fileLength
    && p.memsz >= p.filesz
    && p.memsz != 0
    && p.vaddr < PHYS_BASE
    && (p.vaddr + p.memsz) % MODULUS < PHYS_BASE
    && (p.vaddr + p.memsz) % MODULUS >= p.vaddr
    && p.vaddr >= PGSIZE
  }

  /** Without wrap-around: a segment is valid exactly if it has bytes, not more of the file than of memory, begins in the
      file and at the same place in its page, and lies in the user's part of the address space above the first page. */
  lemma ValidIsUser(p: Phdr, fileLength: nat)
    requires Is32(p)
    ensures Validate(p, fileLength) <==>
      && 0x1000 <= p.vaddr < p.vaddr + p.memsz < 0xc000_0000 && p.filesz <= p.memsz
      && p.offset <= fileLength && p.offset % 0x1000 == p.vaddr % 0x1000
  {
  }

  // ----- the supplemental page table

  /** From where a page is filled: `read` bytes of the executable from `ofs` on, and then zeros */
  datatype Entry = Entry(ofs: int, read: nat, zero: nat, writable: bool)

  /** The entries by page number */
  type Spt = map<nat, Entry>

  /** struct SPT_entry, as an element of the hash table */
  datatype Spte = Spte(page: nat, entry: Entry)

  /** hasher() and page_less(); `digest` is hash_int(). */
  function Hasher(digest: nat -> nat): Spte -> nat { (e: Spte) => digest(e.page) }

  const PAGE_LESS: (Spte, Spte) -> bool := (a: Spte, b: Spte) => a.page < b.page

  lemma HasherLaws(digest: nat -> nat)
    ensures H.Laws(Hasher(digest), PAGE_LESS)
  {
    forall a, b, c ensures H.SameLaws(Hasher(digest), PAGE_LESS, a, b, c) {}
  }

  /** The hash table has exactly these entries. */
  ghost predicate Shows(m: multiset<Spte>, spt: Spt) {
    forall e: Spte {:trigger m[e]} :: e in m <==> e.page in spt && spt[e.page] == e.entry
  }

  /** What hash_insert() does to the table, seen by page number */
  lemma InsertShows(m: multiset<Spte>, spt: Spt, e: Spte, was: Option<Spte>, m': multiset<Spte>)
    requires Shows(m, spt) && H.IsFound(PAGE_LESS, m, e, was) && m' == if was.Some? then m else m + multiset{e}
    ensures was.Some? <==> e.page in spt
    ensures Shows(m', if e.page in spt then spt else spt[e.page := e.entry])
  {
    FoundShows(m, spt, e, was);
    if was.None? {
      forall x: Spte ensures x in m' <==> x in m || x == e { assert m'[x] == m[x] + (multiset{e})[x]; }
    }
  }

  lemma FoundShows(m: multiset<Spte>, spt: Spt, e: Spte, r: Option<Spte>)
    requires Shows(m, spt) && H.IsFound(PAGE_LESS, m, e, r)
    ensures match r
      case None => e.page !in spt
      case Some(x) => e.page in spt && x == Spte(e.page, spt[e.page])
  {
    if e.page in spt {
      var x := Spte(e.page, spt[e.page]);
      assert m[x] > 0 && H.Same(PAGE_LESS, x, e);
    }
  }

  /** The bytes still to be read after `k` pages, and those of page `k` */
  function Rest(readBytes: nat, k: nat): nat { if readBytes <= PGSIZE * k then 0 else readBytes - PGSIZE * k }

  function PageRead(readBytes: nat, k: nat): nat { Min(Rest(readBytes, k), PGSIZE) }

  function EntryFor(ofs: int, readBytes: nat, writable: bool, k: nat): Entry {
    Entry(Signed(ofs + PGSIZE * k), PageRead(readBytes, k), PGSIZE - PageRead(readBytes, k), writable)
  }

  /** `spt` with entries for `n` pages from `first` on, where there were none */
  ghost predicate Extends(spt: Spt, spt': Spt, first: nat, n: nat, ofs: int, readBytes: nat, writable: bool) {
    && (forall page {:trigger page in spt'} :: page in spt' <==> page in spt || first <= page < first + n)
    && (forall page {:trigger spt'[page]} :: page in spt' ==>
          spt'[page] == if page in spt then spt[page] else EntryFor(ofs, readBytes, writable, page - first))
  }

  /** One page more */
  lemma ExtendsMore(spt: Spt, before: Spt, after: Spt, first: nat, k: nat, ofs: int, readBytes: nat, writable: bool)
    requires Extends(spt, before, first, k, ofs, readBytes, writable)
    requires after == if first + k in before then before else before[first + k := EntryFor(ofs, readBytes, writable, k)]
    ensures Extends(spt, after, first, k + 1, ofs, readBytes, writable)
  {
  }

  /** Where load_segment() stands after `k` of `n` pages */
  ghost predicate Underway(ofs0: int, first: nat, readBytes0: nat, n: nat, k: nat, ofs: int, upage: nat, readBytes: nat, zeroBytes: nat) {
    && k <= n && readBytes + zeroBytes == PGSIZE * (n - k) && readBytes == Rest(readBytes0, k)
    && ofs == Signed(ofs0 + PGSIZE * k) && upage == PGSIZE * (first + k)
  }

  lemma OnePageMore(ofs0: int, first: nat, readBytes0: nat, n: nat, k: nat, ofs: int, upage: nat, readBytes: nat, zeroBytes: nat,
                    pageRead: nat, pageZero: nat)
    requires Underway(ofs0, first, readBytes0, n, k, ofs, upage, readBytes, zeroBytes) && (readBytes > 0 || zeroBytes > 0)
    requires pageRead == Min(readBytes, PGSIZE) && pageZero == PGSIZE - pageRead
    ensures pageRead <= readBytes && pageZero <= zeroBytes
    ensures Underway(ofs0, first, readBytes0, n, k + 1, Signed(ofs + PGSIZE), upage + PGSIZE, readBytes - pageRead, zeroBytes - pageZero)
  {
    SignedAdds(ofs0 + PGSIZE * k, PGSIZE);
  }

  lemma PageEntry(ofs0: int, first: nat, readBytes0: nat, n: nat, k: nat, ofs: int, upage: nat, readBytes: nat, zeroBytes: nat, writable: bool)
    requires Underway(ofs0, first, readBytes0, n, k, ofs, upage, readBytes, zeroBytes)
    ensures var pageRead := Min(readBytes, PGSIZE);
      upage / PGSIZE == first + k && Entry(ofs, pageRead, PGSIZE - pageRead, writable) == EntryFor(ofs0, readBytes0, writable, k)
  {
  }

  /** The offset as load() has it and as load_segment() gets it */
  lemma SignedExtends(spt: Spt, spt': Spt, first: nat, n: nat, ofs: int, signed: int, readBytes: nat, writable: bool)
    requires Extends(spt, spt', first, n, signed, readBytes, writable) && signed == Signed(ofs)
    ensures Extends(spt, spt', first, n, ofs, readBytes, writable)
  {
    forall page | page in spt' && page !in spt ensures spt'[page] == EntryFor(ofs, readBytes, writable, page - first) {
      SignedAdds(ofs, PGSIZE * (page - first));
    }
  }

  /** The arguments for load_segment() */
  ghost predicate Placed(p: Phdr, filePage: nat, memPage: nat, readBytes: nat, zeroBytes: nat) {
    && filePage == p.offset - p.offset % PGSIZE && memPage == p.vaddr - p.vaddr % PGSIZE
    && readBytes == ReadBytes(p) && readBytes + zeroBytes == RoundUp(p.vaddr % PGSIZE + p.memsz)
  }

  /** What load_segment() asserts of them */
  lemma SegmentPlaces(p: Phdr, filePage: nat, memPage: nat, readBytes: nat, zeroBytes: nat)
    requires Is32(p) && Placed(p, filePage, memPage, readBytes, zeroBytes)
    ensures Signed(filePage) % PGSIZE == 0 && Signed(Signed(filePage)) == Signed(filePage)
    ensures memPage % PGSIZE == 0 && (readBytes + zeroBytes) % PGSIZE == 0
  {
  }

  lemma LoadedBy(spt: Spt, spt': Spt, p: Phdr, filePage: nat, memPage: nat, readBytes: nat, zeroBytes: nat)
    requires Placed(p, filePage, memPage, readBytes, zeroBytes)
    requires Extends(spt, spt', memPage / PGSIZE, (readBytes + zeroBytes) / PGSIZE, Signed(filePage), readBytes, p.writable)
    ensures Loaded(spt, spt', p)
  {
    assert memPage / PGSIZE == FirstPage(p);
    SignedExtends(spt, spt', FirstPage(p), PageCount(p), filePage, Signed(filePage), readBytes, p.writable);
  }

  class SptTable {
    const digest: nat -> nat
    const table: H.Table<Spte>
    ghost var entries: Spt

    ghost predicate Valid()
      reads this, table
    {
      table.Valid() && table.hash == Hasher(digest) && table.less == PAGE_LESS && Shows(table.Elems(), entries)
    }

    constructor (digest: nat -> nat)
      ensures Valid() && entries == map[] && fresh(table)
    {
      this.digest := digest;
      table := new H.Table(Hasher(digest), PAGE_LESS);
      entries := map[];
    }

    /** create_SPT_entry(), given memory for the entry; `mem` says whether there is memory for more buckets. An entry
        that is there already stays. */
    method Create(page: nat, e: Entry, mem: bool)
      requires Valid()
      modifies this, table
      ensures Valid() && entries == if page in old(entries) then old(entries) else old(entries)[page := e]
    {
      HasherLaws(digest);
      ghost var m := table.Elems();
      var was := table.Insert(Spte(page, e), mem);
      InsertShows(m, entries, Spte(page, e), was, table.Elems());
      entries := if page in entries then entries else entries[page := e];
    }

    /** get_SPT_entry() */
    method Find(page: nat) returns (r: Option<Entry>)
      requires Valid()
      ensures r == if page in entries then Some(entries[page]) else None
    {
      HasherLaws(digest);
      var key := Spte(page, Entry(0, 0, 0, false));
      var found := table.Find(key);
      FoundShows(table.Elems(), entries, key, found);
      return if found.Some? then Some(found.value.entry) else None;
    }

    /** One turn of the loop of load_segment() */
    method LoadPage(ofs: int, upage: nat, readBytes: nat, zeroBytes: nat, writable: bool, mem: bool,
                    ghost spt: Spt, ghost first: nat, ghost n: nat, ghost k: nat, ghost ofs0: int, ghost readBytes0: nat)
      returns (ofs': int, upage': nat, readBytes': nat, zeroBytes': nat)
      requires Valid() && Extends(spt, entries, first, k, ofs0, readBytes0, writable)
      requires Underway(ofs0, first, readBytes0, n, k, ofs, upage, readBytes, zeroBytes) && (readBytes > 0 || zeroBytes > 0)
      modifies this, table
      ensures Valid() && Extends(spt, entries, first, k + 1, ofs0, readBytes0, writable)
      ensures Underway(ofs0, first, readBytes0, n, k + 1, ofs', upage', readBytes', zeroBytes')
      ensures readBytes' + zeroBytes' < readBytes + zeroBytes
    {
      var pageRead := Min(readBytes, PGSIZE);
      var pageZero := PGSIZE - pageRead;
      ghost var before := entries;
      PageEntry(ofs0, first, readBytes0, n, k, ofs, upage, readBytes, zeroBytes, writable);
      Create(upage / PGSIZE, Entry(ofs, pageRead, pageZero, writable), mem);
      ExtendsMore(spt, before, entries, first, k, ofs0, readBytes0, writable);
      OnePageMore(ofs0, first, readBytes0, n, k, ofs, upage, readBytes, zeroBytes, pageRead, pageZero);
      return Signed(ofs + PGSIZE), upage + PGSIZE, readBytes - pageRead, zeroBytes - pageZero;
    }

    /** load_segment(); the offset is an off_t, and is taken to wrap around like one. */
    method LoadSegment(ofs0: int, upage0: nat, readBytes0: nat, zeroBytes0: nat, writable: bool, mem: nat -> bool)
      requires Valid() && Signed(ofs0) == ofs0 && (readBytes0 + zeroBytes0) % PGSIZE == 0 && upage0 % PGSIZE == 0 && ofs0 % PGSIZE == 0
      modifies this, table
      ensures Valid()
      ensures Extends(old(entries), entries, upage0 / PGSIZE, (readBytes0 + zeroBytes0) / PGSIZE, ofs0, readBytes0, writable)
    {
      var ofs, upage, readBytes, zeroBytes := ofs0, upage0, readBytes0, zeroBytes0;
      ghost var k: nat, first, n := 0, upage0 / PGSIZE, (readBytes0 + zeroBytes0) / PGSIZE;
      while readBytes > 0 || zeroBytes > 0
        invariant Underway(ofs0, first, readBytes0, n, k, ofs, upage, readBytes, zeroBytes)
        invariant Valid() && Extends(old(entries), entries, first, k, ofs0, readBytes0, writable)
        decreases readBytes + zeroBytes
      {
        ofs, upage, readBytes, zeroBytes :=
          LoadPage(ofs, upage, readBytes, zeroBytes, writable, mem(upage), old(entries), first, n, k, ofs0, readBytes0);
        k := k + 1;
      }
    }

    /** What load() does with a header of type PT_LOAD */
    method Load(p: Phdr, fileLength: nat, mem: nat -> bool) returns (ok: bool)
      requires Valid() && Is32(p)
      modifies this, table
      ensures Valid() && ok == Validate(p, fileLength)
      ensures if ok then Loaded(old(entries), entries, p) else entries == old(entries)
    {
      if !Validate(p, fileLength) {
        return false;
      }
      var filePage := p.offset - p.offset % PGSIZE;
      var memPage := p.vaddr - p.vaddr % PGSIZE;
      var pageOffset := p.vaddr % PGSIZE;
      var readBytes, zeroBytes;
      if p.filesz > 0 {
        readBytes := pageOffset + p.filesz;
        zeroBytes := RoundUp(pageOffset + p.memsz) - readBytes;
      } else {
        readBytes := 0;
        zeroBytes := RoundUp(pageOffset + p.memsz);
      }
      LoadPlaced(p, filePage, memPage, readBytes, zeroBytes, mem);
      return true;
    }

    method LoadPlaced(p: Phdr, filePage: nat, memPage: nat, readBytes: nat, zeroBytes: nat, mem: nat -> bool)
      requires Valid() && Is32(p) && Placed(p, filePage, memPage, readBytes, zeroBytes)
      modifies this, table
      ensures Valid() && Loaded(old(entries), entries, p)
    {
      SegmentPlaces(p, filePage, memPage, readBytes, zeroBytes);
      LoadSegment(Signed(filePage), memPage, readBytes, zeroBytes, p.writable, mem);
      LoadedBy(old(entries), entries, p, filePage, memPage, readBytes, zeroBytes);
    }

    /** The loop of load() over the program headers, for a new process */
    method LoadAll(hs: seq<Header>, fileLength: nat, mem: nat -> bool) returns (ok: bool)
      requires Valid() && entries == map[] && forall i :: 0 <= i < |hs| && hs[i].Segment? ==> Is32(hs[i].phdr)
      modifies this, table
      ensures Valid() && ok == forall i :: 0 <= i < |hs| ==> Loadable(hs[i], fileLength)
      ensures ok ==> Image(entries, hs, |hs|)
    {
      var i := 0;
      while i < |hs|
        invariant Valid() && 0 <= i <= |hs| && Image(entries, hs, i)
        invariant forall k :: 0 <= k < i ==> Loadable(hs[k], fileLength)
      {
        ghost var before := entries;
        match hs[i] {
          case Ignored =>
          case Refused => return false;
          case Segment(p) =>
            var valid := Load(p, fileLength, mem);
            if !valid {
              assert !Loadable(hs[i], fileLength);
              return false;
            }
        }
        ImageMore(before, entries, hs, i);
        i := i + 1;
      }
      return true;
    }
  }

  /** A program header: of a type that load() ignores, of one that it does not support, or a segment to load */
  datatype Header = Ignored | Refused | Segment(phdr: Phdr)

  predicate Loadable(h: Header, fileLength: nat) { h.Ignored? || (h.Segment? && Validate(h.phdr, fileLength)) }

  predicate Touches(h: Header, page: nat) {
    h.Segment? && FirstPage(h.phdr) <= page < FirstPage(h.phdr) + PageCount(h.phdr)
  }

  /** The first of `n` segments that has bytes in a page */
  function FirstWith(hs: seq<Header>, n: nat, page: nat): (r: Option<nat>)
    requires n <= |hs|
    ensures r.Some? ==> r.value < n && Touches(hs[r.value], page) && forall k :: 0 <= k < r.value ==> !Touches(hs[k], page)
    ensures r.None? ==> forall k :: 0 <= k < n ==> !Touches(hs[k], page)
  {
    if n == 0 then None else
    var r := FirstWith(hs, n - 1, page);
    if r.None? && Touches(hs[n - 1], page) then Some(n - 1) else r
  }

  function SegmentEntry(p: Phdr, page: nat): Entry
    requires FirstPage(p) <= page
  {
    EntryFor(p.offset - p.offset % PGSIZE, ReadBytes(p), p.writable, page - FirstPage(p))
  }

  ghost predicate ImageAt(spt: Spt, hs: seq<Header>, n: nat, page: nat)
    requires n <= |hs|
  {
    match FirstWith(hs, n, page)
    case None => page !in spt
    case Some(i) => page in spt && spt[page] == SegmentEntry(hs[i].phdr, page)
  }

  /** Every page is filled for the first segment that has bytes in it. */
  ghost predicate Image(spt: Spt, hs: seq<Header>, n: nat)
    requires n <= |hs|
  {
    forall page: nat {:trigger ImageAt(spt, hs, n, page)} :: ImageAt(spt, hs, n, page)
  }

  lemma ImageMore(spt: Spt, spt': Spt, hs: seq<Header>, n: nat)
    requires n < |hs| && Image(spt, hs, n)
    requires if hs[n].Segment? then Loaded(spt, spt', hs[n].phdr) else spt' == spt
    ensures Image(spt', hs, n + 1)
  {
    var m := n + 1;
    forall page: nat ensures ImageAt(spt', hs, m, page) {
      assert ImageAt(spt, hs, n, page);
    }
  }

  function RoundUp(x: nat): (r: nat)
    ensures x <= r < x + PGSIZE && r % PGSIZE == 0
  {
    (x + PGSIZE - 1) / PGSIZE * PGSIZE
  }

  /** How many bytes from the beginning of the first page on come from the file */
  function ReadBytes(p: Phdr): nat { if p.filesz > 0 then p.vaddr % PGSIZE + p.filesz else 0 }

  function FirstPage(p: Phdr): nat { p.vaddr / PGSIZE }

  function PageCount(p: Phdr): nat { RoundUp(p.vaddr % PGSIZE + p.memsz) / PGSIZE }

  ghost predicate Loaded(spt: Spt, spt': Spt, p: Phdr) {
    Extends(spt, spt', FirstPage(p), PageCount(p), p.offset - p.offset % PGSIZE, ReadBytes(p), p.writable)
  }

  // ----- filling pages

  /** How many bytes page_fault() reads; file_read() comes back short at the end of the file, and in the middle of a
      sector if there is no memory for its bounce buffer. */
  function Got(e: Entry, fileLength: nat, bounce: bool): (n: nat)
    requires e.ofs >= 0
    ensures n <= e.read && (n == 0 || e.ofs + n <= fileLength)
  {
    I.Transferred(fileLength, e.read, e.ofs, bounce)
  }

  /** What page_fault() fills a page with; `junk` is what was in the frame before, which stays where the read is short.
      Nothing if it does not get that far, because file_seek() asserts that the offset is not negative. */
  function Filled(e: Entry, file: seq<Byte>, junk: seq<Byte>, bounce: bool): (page: Option<seq<Byte>>)
    requires |junk| == PGSIZE == e.read + e.zero
    ensures page.Some? <==> e.ofs >= 0
    ensures page.Some? ==> |page.value| == PGSIZE
    ensures page.Some? ==> forall r :: 0 <= r < PGSIZE ==>
      page.value[r] == if r < Got(e, |file|, bounce) then file[e.ofs + r] else if r < e.read then junk[r] else 0
  {
    if e.ofs < 0 then None else
    var got := Got(e, |file|, bounce);
    Some((if got == 0 then [] else file[e.ofs..e.ofs + got]) + junk[got..e.read] + seq(e.zero, _ => 0))
  }

  /** The part of page_fault() that reads the page from the executable, which lies on the device from sector `start` on;
      whether the assertion of file_seek() holds */
  method FillPage(dev: I.Device, start: nat, length: nat, e: Entry, kpage: array<Byte>, bounce: bool) returns (ok: bool)
    requires I.OnDevice(dev.sectors, start, length) && kpage.Length == PGSIZE == e.read + e.zero
    modifies kpage
    ensures var page := Filled(e, I.Content(dev.sectors, start, length), old(kpage[..]), bounce);
      ok == page.Some? && kpage[..] == if ok then page.value else old(kpage[..])
  {
    if e.ofs < 0 {
      return false;
    }
    ReadPage(dev, start, length, e, kpage, bounce);
    ok := true;
  }

  /** file_read() and memset() */
  method ReadPage(dev: I.Device, start: nat, length: nat, e: Entry, kpage: array<Byte>, bounce: bool)
    requires I.OnDevice(dev.sectors, start, length) && kpage.Length == PGSIZE == e.read + e.zero && e.ofs >= 0
    modifies kpage
    ensures Filled(e, I.Content(dev.sectors, start, length), old(kpage[..]), bounce) == Some(kpage[..])
  {
    var n := I.ReadAt(dev, start, length, kpage, e.read, e.ofs, bounce);
    ghost var file := I.Content(dev.sectors, start, length);
    assert n == Got(e, |file|, bounce);
    assert forall k :: 0 <= k < PGSIZE ==> kpage[k] == if k < n then file[e.ofs + k] else old(kpage[k]);
    forall k | e.read <= k < PGSIZE { kpage[k] := 0; }
    FilledIs(e, file, old(kpage[..]), bounce, kpage[..]);
  }

  lemma FilledIs(e: Entry, file: seq<Byte>, junk: seq<Byte>, bounce: bool, page: seq<Byte>)
    requires |junk| == |page| == PGSIZE == e.read + e.zero && e.ofs >= 0
    requires forall r :: 0 <= r < PGSIZE ==>
      page[r] == if r < Got(e, |file|, bounce) then file[e.ofs + r] else if r < e.read then junk[r] else 0
    ensures Filled(e, file, junk, bounce) == Some(page)
  {
    var filled := Filled(e, file, junk, bounce).value;
    assert forall r :: 0 <= r < PGSIZE ==> page[r] == filled[r];
    assert page == filled;
  }

  /** The entries made for a segment are for the pages it touches, each exactly one. */
  lemma PagesOfSegment(p: Phdr, page: nat)
    requires p.memsz > 0
    ensures FirstPage(p) <= page < FirstPage(p) + PageCount(p) <==>
      exists a :: p.vaddr <= a < p.vaddr + p.memsz && a / PGSIZE == page
  {
    var first, n, o := FirstPage(p), PageCount(p), p.vaddr % PGSIZE;
    assert p.vaddr == PGSIZE * first + o && PGSIZE * n == RoundUp(o + p.memsz);
    if first <= page < first + n {
      var a := if page == first then p.vaddr else PGSIZE * page;
      assert a / PGSIZE == page;
    }
  }

  /** The place in the file of a page of a segment, as a number without bound */
  function OffsetOf(p: Phdr, page: nat): int { p.offset - p.offset % PGSIZE + PGSIZE * (page - FirstPage(p)) }

  /** The page of byte `j` of a segment, and the place in it */
  lemma PlaceOf(p: Phdr, j: nat)
    requires j < p.memsz && p.offset % PGSIZE == p.vaddr % PGSIZE && p.filesz <= p.memsz
    ensures var page, r := (p.vaddr + j) / PGSIZE, (p.vaddr + j) % PGSIZE;
      && FirstPage(p) <= page < FirstPage(p) + PageCount(p)
      && var e := EntryFor(p.offset - p.offset % PGSIZE, ReadBytes(p), p.writable, page - FirstPage(p));
      && e.ofs == Signed(OffsetOf(p, page))
      && if j < p.filesz then r < e.read && OffsetOf(p, page) + r == p.offset + j else e.read <= r
  {
    var page, r := (p.vaddr + j) / PGSIZE, (p.vaddr + j) % PGSIZE;
    PagesOfSegment(p, page);
    var k, o := page - FirstPage(p), p.vaddr % PGSIZE;
    assert p.vaddr + j == PGSIZE * page + r && p.vaddr == PGSIZE * FirstPage(p) + o;
    assert PGSIZE * k + r == o + j;
  }

  /** Byte `j` of a segment is what its header says: a byte of the file, or zero. */
  predicate Right(p: Phdr, file: seq<Byte>, j: nat, b: Byte) {
    if j < p.filesz then p.offset + j < |file| && b == file[p.offset + j] else b == 0
  }

  predicate RightIn(p: Phdr, file: seq<Byte>, j: nat, page: Option<seq<Byte>>)
    requires page.Some? ==> |page.value| == PGSIZE
  {
    page.Some? && Right(p, file, j, page.value[(p.vaddr + j) % PGSIZE])
  }

  /** What is in a page when it is used for the first time: it is filled as `e` says, unless it is the stack page, which
      has whatever is in its frame and what setup_stack() has put there. */
  function InPage(page: nat, e: Entry, file: seq<Byte>, junk: seq<Byte>, stack: seq<Byte>, bounce: bool): (r: Option<seq<Byte>>)
    requires |junk| == |stack| == PGSIZE == e.read + e.zero
    ensures r.Some? ==> |r.value| == PGSIZE
  {
    if page == STACK_PAGE then Some(stack) else Filled(e, file, junk, bounce)
  }

  /** It is so whatever the file holds and whatever was in the frames. */
  ghost predicate AlwaysRight(p: Phdr, e: Entry, fileLength: nat, bounce: bool, j: nat)
    requires e.read + e.zero == PGSIZE
  {
    var page := (p.vaddr + j) / PGSIZE;
    forall file: seq<Byte>, junk: seq<Byte>, stack: seq<Byte> {:trigger InPage(page, e, file, junk, stack, bounce)} ::
      |file| == fileLength && |junk| == |stack| == PGSIZE ==> RightIn(p, file, j, InPage(page, e, file, junk, stack, bounce))
  }

  /** The page is not the stack page, the offset is not negative, and it is read from the right place, and far enough, or
      not so far that zeros are overwritten. */
  predicate ReadsRight(p: Phdr, e: Entry, fileLength: nat, bounce: bool, j: nat) {
    var r := (p.vaddr + j) % PGSIZE;
    && (p.vaddr + j) / PGSIZE != STACK_PAGE && e.ofs >= 0
    && if j < p.filesz then r < Got(e, fileLength, bounce) && e.ofs + r == p.offset + j else e.read <= r
  }

  /** A file and a frame that show the difference */
  lemma Witness(p: Phdr, e: Entry, fileLength: nat, bounce: bool, j: nat)
    returns (file: seq<Byte>, junk: seq<Byte>, stack: seq<Byte>)
    requires e.read + e.zero == PGSIZE && !ReadsRight(p, e, fileLength, bounce, j)
    ensures |file| == fileLength && |junk| == |stack| == PGSIZE
    ensures !RightIn(p, file, j, InPage((p.vaddr + j) / PGSIZE, e, file, junk, stack, bounce))
  {
    stack := seq(PGSIZE, _ => if j < p.filesz then 0 else 1);
    if j < p.filesz {
      file := seq(fileLength, k => if k == p.offset + j then 1 else 0);
      junk := seq(PGSIZE, _ => 0);
    } else {
      file := seq(fileLength, _ => 1);
      junk := seq(PGSIZE, _ => 1);
    }
  }

  /** Exactly then the byte is right. */
  lemma RightExactly(p: Phdr, e: Entry, fileLength: nat, bounce: bool, j: nat)
    requires e.read + e.zero == PGSIZE
    ensures AlwaysRight(p, e, fileLength, bounce, j) <==> ReadsRight(p, e, fileLength, bounce, j)
  {
    if !ReadsRight(p, e, fileLength, bounce, j) {
      var file, junk, stack := Witness(p, e, fileLength, bounce, j);
    }
  }

  /** The page of byte `j` of segment `i` is filled for the first segment with bytes in it. */
  lemma PageFilled(hs: seq<Header>, spt: Spt, i: nat, j: nat) returns (first: nat, page: nat)
    requires i < |hs| && hs[i].Segment? && j < hs[i].phdr.memsz && hs[i].phdr.offset % PGSIZE == hs[i].phdr.vaddr % PGSIZE
    requires hs[i].phdr.filesz <= hs[i].phdr.memsz && Image(spt, hs, |hs|)
    ensures page == (hs[i].phdr.vaddr + j) / PGSIZE && FirstWith(hs, |hs|, page) == Some(first) && first <= i
    ensures page in spt && FirstPage(hs[first].phdr) <= page && spt[page] == SegmentEntry(hs[first].phdr, page)
  {
    PlaceOf(hs[i].phdr, j);
    page := (hs[i].phdr.vaddr + j) / PGSIZE;
    assert Touches(hs[i], page);
    assert ImageAt(spt, hs, |hs|, page);
    first := FirstWith(hs, |hs|, page).value;
  }

  /** The executable in memory: byte `j` of segment `i` is what the header says, for every content of the file, if and only if
      the page is not that of the stack, and the first segment with bytes in the page, for which the page is filled, has
      it read from the same place of the file and the read gets that far, or has zeros there too, and file_seek() accepts
      the offset of the page. */
  lemma ImageInMemory(hs: seq<Header>, fileLength: nat, spt: Spt, bounce: bool, i: nat, j: nat) returns (first: nat, e: Entry)
    requires i < |hs| && hs[i].Segment? && Loadable(hs[i], fileLength) && j < hs[i].phdr.memsz && Image(spt, hs, |hs|)
    ensures var page := (hs[i].phdr.vaddr + j) / PGSIZE;
      && FirstWith(hs, |hs|, page) == Some(first) && first <= i && FirstPage(hs[first].phdr) <= page
      && e == SegmentEntry(hs[first].phdr, page) && page in spt && spt[page] == e && e.read + e.zero == PGSIZE
    ensures AlwaysRight(hs[i].phdr, e, fileLength, bounce, j) <==> ReadsRight(hs[i].phdr, e, fileLength, bounce, j)
  {
    var page;
    first, page := PageFilled(hs, spt, i, j);
    e := spt[page];
    RightExactly(hs[i].phdr, e, fileLength, bounce, j);
  }

  /** The offset `x` is not too large for a byte of the file, which the read gets to, or not negative for a zero. */
  predicate OwnRight(p: Phdr, e: Entry, x: int, r: nat, fileLength: nat, bounce: bool, j: nat) {
    e.ofs >= 0 && if j < p.filesz then x < OFF_LIMIT && r < Got(e, fileLength, bounce) else x % MODULUS < OFF_LIMIT
  }

  /** In a page that is filled for the segment itself: a byte of the file is right exactly if the read gets so far, which
      it does for all of the file if there is memory, and a zero exactly if the offset of the page is not negative. */
  lemma OwnPage(p: Phdr, fileLength: nat, bounce: bool, j: nat)
    requires Is32(p) && Validate(p, fileLength) && j < p.memsz && fileLength < OFF_LIMIT
    ensures FirstPage(p) <= (p.vaddr + j) / PGSIZE
    ensures var page, r := (p.vaddr + j) / PGSIZE, (p.vaddr + j) % PGSIZE; var e, x := SegmentEntry(p, page), OffsetOf(p, page);
      && e.writable == p.writable && (e.ofs >= 0 <==> x % MODULUS < OFF_LIMIT)
      && (ReadsRight(p, e, fileLength, bounce, j) <==> page != STACK_PAGE && OwnRight(p, e, x, r, fileLength, bounce, j))
      && (bounce && page != STACK_PAGE ==> (ReadsRight(p, e, fileLength, bounce, j) <==>
            if j < p.filesz then p.offset + j < fileLength else x % MODULUS < OFF_LIMIT))
  {
    PlaceOf(p, j);
    var page := (p.vaddr + j) / PGSIZE;
    OwnOffset(p, SegmentEntry(p, page), OffsetOf(p, page), (p.vaddr + j) % PGSIZE, fileLength, bounce, j);
  }

  lemma OwnOffset(p: Phdr, e: Entry, x: int, r: nat, fileLength: nat, bounce: bool, j: nat)
    requires e.ofs == Signed(x) && x >= 0 && r == (p.vaddr + j) % PGSIZE && fileLength < OFF_LIMIT
    requires if j < p.filesz then r < e.read && x + r == p.offset + j else e.read <= r
    ensures e.ofs >= 0 <==> x % MODULUS < OFF_LIMIT
    ensures var page := (p.vaddr + j) / PGSIZE;
      && (ReadsRight(p, e, fileLength, bounce, j) <==> page != STACK_PAGE && OwnRight(p, e, x, r, fileLength, bounce, j))
      && (bounce && page != STACK_PAGE ==> (ReadsRight(p, e, fileLength, bounce, j) <==>
            if j < p.filesz then p.offset + j < fileLength else x % MODULUS < OFF_LIMIT))
  {
  }

  /** A valid segment of more than 2 GB: in one of its pages the offset is negative, and the fault cannot be handled,
      although there is nothing to be read. */
  lemma BigSegment(fileLength: nat, bounce: bool)
    requires 1 <= fileLength
    ensures var p, j, page := Phdr(0, 0x1000, 1, 0x9000_0000, true), 0x8000_0000, 0x8_0001;
      && Validate(p, fileLength) && j < p.memsz && page == (p.vaddr + j) / PGSIZE
      && FirstWith([Segment(p)], 1, page) == Some(0)
      && SegmentEntry(p, page) == Entry(-0x8000_0000, 0, PGSIZE, true) && !ReadsRight(p, SegmentEntry(p, page), fileLength, bounce, j)
  {
    var p := Phdr(0, 0x1000, 1, 0x9000_0000, true);
    PlaceOf(p, 0x8000_0000);
    assert Touches(Segment(p), 0x8_0001);
  }

  /** A valid segment in the page of the stack, which is there before anything of the segment is used */
  lemma StackSegment(fileLength: nat, bounce: bool)
    requires 1 <= fileLength
    ensures var p := Phdr(0, 0xbfff_f000, 1, 1, true);
      && Validate(p, fileLength) && FirstWith([Segment(p)], 1, STACK_PAGE) == Some(0)
      && !ReadsRight(p, SegmentEntry(p, STACK_PAGE), fileLength, bounce, 0)
  {
    var p := Phdr(0, 0xbfff_f000, 1, 1, true);
    PlaceOf(p, 0);
    assert Touches(Segment(p), STACK_PAGE);
  }

  /** Two valid segments in one page, the second of which gets zero instead of its byte */
  lemma SharedPage(fileLength: nat, bounce: bool)
    requires 0x11 <= fileLength
    ensures var p, q := Phdr(0, 0x1000, 1, 1, false), Phdr(0x10, 0x1010, 1, 1, true);
      && Validate(p, fileLength) && Validate(q, fileLength)
      && FirstWith([Segment(p), Segment(q)], 2, 1) == Some(0) && !ReadsRight(q, SegmentEntry(p, 1), fileLength, bounce, 0)
  {
    var p, q := Phdr(0, 0x1000, 1, 1, false), Phdr(0x10, 0x1010, 1, 1, true);
    PagesOfSegment(p, 1);
    assert 0x1000 / PGSIZE == 1;
    assert Touches(Segment(p), 1);
  }

  /** Two in one page, both of which are in memory as their headers say */
  lemma SharedWell(fileLength: nat)
    requires 0x20 <= fileLength
    ensures var p, q := Phdr(0, 0x1000, 0x20, 0x20, false), Phdr(0x10, 0x1010, 1, 1, true);
      && Validate(p, fileLength) && Validate(q, fileLength)
      && FirstWith([Segment(p), Segment(q)], 2, 1) == Some(0) && ReadsRight(q, SegmentEntry(p, 1), fileLength, true, 0)
  {
    var p := Phdr(0, 0x1000, 0x20, 0x20, false);
    PagesOfSegment(p, 1);
    assert 0x1000 / PGSIZE == 1;
    assert Touches(Segment(p), 1);
  }
}
