/** Blocks of memory cut from pages; malloc.c over palloc.c. */
module Malloc {
  import opened Common
  import B = Bitmap

  const HEADER: nat := 12
  const DESCS: nat := 7

  /** A size_t has 32 bits. */
  const SIZES: nat := 0x1_0000_0000
  type Size = n: nat | n < SIZES

  /** block_size of each descriptor: 16, 32, ... 1024 */
  function BlockSize(d: nat): (s: nat)
    ensures s >= 16
  {
    if d == 0 then 16 else 2 * BlockSize(d - 1)
  }

  function Quotient(n: nat, s: nat): (q: nat)
    requires s > 0
    ensures q * s <= n < q * s + s
  {
    n / s
  }

  function BlocksPerArena(d: nat): nat { Quotient(PGSIZE - HEADER, BlockSize(d)) }

  /** A block is known by its arena's page in the pool and its place in the arena. */
  datatype Block = Block(page: nat, index: nat)

  /** `desc` is None for a big block, of which `freeCnt` then is the number of pages. */
  datatype Arena = Arena(desc: Option<nat>, freeCnt: nat)

  /** The used_map of the kernel pool, the headers of the arenas by their pages, and the free lists */
  datatype Heap = Heap(used: seq<bool>, arenas: map<nat, Arena>, free: seq<seq<Block>>)

  function Pages(a: Arena): nat { if a.desc.Some? then 1 else a.freeCnt }

  /** How many bytes a block of an arena has: block_size() */
  function Room(a: Arena): nat {
    match a.desc
    case Some(d) => BlockSize(d)
    case None => if a.freeCnt == 0 then 0 else PGSIZE * a.freeCnt - HEADER
  }

  /** arena_to_block(): where a block begins, from the beginning of the pool */
  function Address(b: Block, a: Arena): nat {
    PGSIZE * b.page + HEADER + b.index * (if a.desc.Some? then BlockSize(a.desc.value) else 0)
  }

  // ----- what is always so; `live` has the blocks in use and how many bytes they are for

  ghost predicate NoDuplicates(list: seq<Block>) {
    forall i, j :: 0 <= i < j < |list| ==> list[i] != list[j]
  }

  ghost function FreeIn(list: seq<Block>, page: nat): set<Block> {
    set b | b in list && b.page == page
  }

  /** A block of an arena of descriptor `d` */
  ghost predicate BlockOf(arenas: map<nat, Arena>, d: nat, b: Block) {
    b.page in arenas && arenas[b.page].desc == Some(d) && b.index < BlocksPerArena(d)
  }

  /** It is either free or in use. */
  ghost predicate SlotAt(h: Heap, live: map<Block, nat>, d: nat, b: Block) {
    d < |h.free| && BlockOf(h.arenas, d, b) ==> (b in h.free[d]) != (b in live)
  }

  /** An arena's pages are marked as used, and free_cnt is right. */
  ghost predicate ArenaAt(h: Heap, p: nat) {
    p in h.arenas ==> ArenaOk(h, p, h.arenas[p])
  }

  ghost predicate ArenaOk(h: Heap, p: nat, a: Arena) {
    && 1 <= Pages(a) && B.InRange(h.used, p, Pages(a)) && B.AllAre(h.used, p, Pages(a), true)
    && match a.desc
       case Some(d) => d < |h.free| && a.freeCnt == |FreeIn(h.free[d], p)| <= BlocksPerArena(d)
       case None => true
  }

  /** Not all blocks are free. */
  ghost predicate BusyAt(h: Heap, p: nat) {
    p in h.arenas && h.arenas[p].desc.Some? ==> h.arenas[p].freeCnt < BlocksPerArena(h.arenas[p].desc.value)
  }

  ghost predicate ApartAt(h: Heap, p: nat, q: nat) {
    p in h.arenas && q in h.arenas && p < q ==> p + Pages(h.arenas[p]) <= q
  }

  ghost predicate ListAt(h: Heap, d: nat) {
    d < |h.free| ==> NoDuplicates(h.free[d]) && forall b {:trigger b in h.free[d]} :: b in h.free[d] ==> BlockOf(h.arenas, d, b)
  }

  ghost predicate LiveAt(h: Heap, live: map<Block, nat>, b: Block) {
    b in live ==>
      && b.page in h.arenas && 0 < live[b] <= Room(h.arenas[b.page])
      && match h.arenas[b.page].desc
         case Some(d) => d < |h.free| && BlockOf(h.arenas, d, b)
         case None => b.index == 0
  }

  /** A big block is in use as long as it has its pages. */
  ghost predicate BigAt(h: Heap, live: map<Block, nat>, p: nat) {
    p in h.arenas && h.arenas[p].desc.None? ==> Block(p, 0) in live
  }

  /** All that is kept in the middle of a call, too */
  ghost predicate Loose(h: Heap, live: map<Block, nat>) {
    && |h.free| == DESCS
    && (forall p: nat {:trigger ArenaAt(h, p)} :: ArenaAt(h, p))
    && (forall p: nat, q: nat {:trigger ApartAt(h, p, q)} :: ApartAt(h, p, q))
    && (forall d: nat {:trigger ListAt(h, d)} :: ListAt(h, d))
    && (forall d: nat, b {:trigger SlotAt(h, live, d, b)} :: SlotAt(h, live, d, b))
    && (forall b {:trigger LiveAt(h, live, b)} :: LiveAt(h, live, b))
    && (forall p: nat {:trigger BigAt(h, live, p)} :: BigAt(h, live, p))
  }

  /** Between calls no arena is entirely free. */
  ghost predicate Inv(h: Heap, live: map<Block, nat>) {
    Loose(h, live) && forall p: nat {:trigger BusyAt(h, p)} :: BusyAt(h, p)
  }

  // ----- addresses

  lemma BlocksFit(d: nat, i: nat)
    requires i < BlocksPerArena(d)
    ensures HEADER + i * BlockSize(d) + BlockSize(d) <= PGSIZE
  {
    InOrder(i, BlocksPerArena(d), BlockSize(d));
  }

  lemma InOrder(i: nat, j: nat, s: nat)
    requires i < j
    ensures i * s + s <= j * s
  {
    assert (i + 1) * s <= j * s;
  }

  /** A block lies within the pages of its arena. */
  lemma WithinArena(h: Heap, live: map<Block, nat>, b: Block)
    requires Inv(h, live) && b in live
    ensures b.page in h.arenas && b.page + Pages(h.arenas[b.page]) <= |h.used|
    ensures var a := h.arenas[b.page];
      && PGSIZE * b.page + HEADER <= Address(b, a) && live[b] <= Room(a)
      && Address(b, a) + Room(a) <= PGSIZE * (b.page + Pages(a))
  {
    assert LiveAt(h, live, b) && ArenaAt(h, b.page);
    var a := h.arenas[b.page];
    match a.desc
    case Some(d) =>
      BlocksFit(d, b.index);
      assert Address(b, a) == PGSIZE * b.page + HEADER + b.index * BlockSize(d);
    case None =>
      assert Address(b, a) == PGSIZE * b.page + HEADER;
  }

  /** Blocks in use have no byte in common, and are as big as was asked for. */
  lemma BlocksAreDisjoint(h: Heap, live: map<Block, nat>, b: Block, c: Block)
    requires Inv(h, live) && b in live && c in live && b != c
    ensures b.page in h.arenas && c.page in h.arenas
    ensures var x, y := h.arenas[b.page], h.arenas[c.page];
      && live[b] <= Room(x) && Address(b, x) + Room(x) <= PGSIZE * |h.used|
      && (Address(b, x) + Room(x) <= Address(c, y) || Address(c, y) + Room(y) <= Address(b, x))
  {
    WithinArena(h, live, b);
    WithinArena(h, live, c);
    assert ApartAt(h, b.page, c.page) && ApartAt(h, c.page, b.page);
    assert LiveAt(h, live, b) && LiveAt(h, live, c);
    if b.page == c.page {
      var s := Room(h.arenas[b.page]);
      if b.index < c.index { InOrder(b.index, c.index, s); } else { InOrder(c.index, b.index, s); }
    }
  }

  /** The header of an arena has no byte of a block in use. */
  lemma HeadersAreApart(h: Heap, live: map<Block, nat>, b: Block, q: nat)
    requires Inv(h, live) && b in live && q in h.arenas
    ensures b.page in h.arenas
    ensures var x := h.arenas[b.page];
      PGSIZE * q + HEADER <= Address(b, x) || Address(b, x) + Room(x) <= PGSIZE * q
  {
    WithinArena(h, live, b);
    assert ApartAt(h, b.page, q) && ApartAt(h, q, b.page) && ArenaAt(h, q);
  }

  lemma SmallWithinPage(arenas: map<nat, Arena>, d: nat, f: Block)
    requires BlockOf(arenas, d, f)
    ensures var y := arenas[f.page];
      Room(y) == BlockSize(d) && PGSIZE * f.page <= Address(f, y) && Address(f, y) + Room(y) <= PGSIZE * f.page + PGSIZE
  {
    BlocksFit(d, f.index);
  }

  lemma SamePageApart(arenas: map<nat, Arena>, d: nat, b: Block, f: Block)
    requires BlockOf(arenas, d, b) && BlockOf(arenas, d, f) && b.page == f.page && b != f
    ensures var a := arenas[b.page];
      Address(b, a) + Room(a) <= Address(f, a) || Address(f, a) + Room(a) <= Address(b, a)
  {
    if b.index < f.index { InOrder(b.index, f.index, BlockSize(d)); } else { InOrder(f.index, b.index, BlockSize(d)); }
  }

  /** Nor has a free block, where the links of the free list are. */
  lemma FreeBlocksAreApart(h: Heap, live: map<Block, nat>, b: Block, d: nat, f: Block)
    requires Inv(h, live) && b in live && d < DESCS && f in h.free[d]
    ensures b.page in h.arenas && f.page in h.arenas
    ensures var x, y := h.arenas[b.page], h.arenas[f.page];
      Address(b, x) + Room(x) <= Address(f, y) || Address(f, y) + Room(y) <= Address(b, x)
  {
    WithinArena(h, live, b);
    assert ListAt(h, d) && BlockOf(h.arenas, d, f) && SlotAt(h, live, d, f) && LiveAt(h, live, b);
    assert ApartAt(h, b.page, f.page) && ApartAt(h, f.page, b.page);
    SmallWithinPage(h.arenas, d, f);
    if b.page == f.page { SamePageApart(h.arenas, d, b, f); }
  }

  /** block_to_arena(): the page and the place in the arena can be had from the address, and its assertions hold. */
  lemma AddressRoundTrip(h: Heap, live: map<Block, nat>, b: Block)
    requires Inv(h, live) && b in live
    ensures b.page in h.arenas
    ensures var a := h.arenas[b.page]; var x := Address(b, a);
      && x / PGSIZE == b.page
      && match a.desc
         case Some(d) => (x % PGSIZE - HEADER) % BlockSize(d) == 0 && (x % PGSIZE - HEADER) / BlockSize(d) == b.index
         case None => x % PGSIZE == HEADER
  {
    assert LiveAt(h, live, b);
    var a := h.arenas[b.page];
    var x := Address(b, a);
    if a.desc.Some? {
      BlocksFit(a.desc.value, b.index);
      assert x % PGSIZE == HEADER + b.index * BlockSize(a.desc.value);
      DivExact(b.index, BlockSize(a.desc.value));
    }
  }

  lemma DivExact(i: nat, s: nat)
    requires s > 0
    ensures i * s % s == 0 && i * s / s == i
  {
    var q, r := i * s / s, i * s % s;
    assert (i - q) * s == r;
    assert (i - q >= 1 ==> (i - q) * s >= s) && (i - q <= -1 ==> (i - q) * s < 0);
  }

  // ----- the steps of malloc() and free()

  /** The smallest descriptor that satisfies a request */
  function DescFor(size: nat, from: nat): (r: Option<nat>)
    requires from <= DESCS
    ensures r.Some? ==> from <= r.value < DESCS && size <= BlockSize(r.value)
    ensures forall d :: from <= d < DESCS && (r.None? || d < r.value) ==> BlockSize(d) < size
    decreases DESCS - from
  {
    if from == DESCS then None else if BlockSize(from) >= size then Some(from) else DescFor(size, from + 1)
  }

  function ArenaBlocks(p: nat, n: nat): (s: seq<Block>)
    ensures |s| == n
  {
    seq(n, i requires 0 <= i < n => Block(p, i))
  }

  /** The pages for a big block, a number that may wrap around */
  function BigPages(size: Size): nat { (size + HEADER + PGSIZE - 1) % SIZES / PGSIZE }

  /** palloc_get_multiple(), which has nothing for 0 pages */
  function PagesFor(used: seq<bool>, cnt: nat): (p: Option<nat>)
    ensures p.Some? ==> cnt >= 1 && B.InRange(used, p.value, cnt) && B.AllAre(used, p.value, cnt, false)
  {
    if cnt == 0 then None else B.FirstFit(used, 0, cnt, false)
  }

  /** How many of `size` bytes a block has that malloc() returns */
  function Granted(size: Size): nat {
    if DescFor(size, 0).Some? || BigPages(size) == 0 then size else Min(size, PGSIZE * BigPages(size) - HEADER)
  }

  /** All of them, exactly if the number of pages has not wrapped around to 1. */
  lemma GrantedAll(size: Size)
    ensures Granted(size) == size <==> size < SIZES - 11
    ensures size >= SIZES - 11 ==> BigPages(size) == 1 && Granted(size) == PGSIZE - HEADER
  {
    if DescFor(size, 0).Some? { SmallSizes(DescFor(size, 0).value); }
    if size >= SIZES - 11 && DescFor(size, 0).None? { assert BigPages(size) == 1; }
  }

  lemma SmallSizes(d: nat)
    requires d < DESCS
    ensures BlockSize(d) <= 1024
  {
    assert BlockSize(6) == 1024;
    SizesGrow(d, 6);
  }

  /** A big block takes whole pages. */
  function TakeBig(h: Heap, p: nat, cnt: nat): Heap {
    h.(used := B.WithRange(h.used, p, cnt, true), arenas := h.arenas[p := Arena(None, cnt)])
  }

  /** A page becomes an arena, and all its blocks are free. */
  function AddArena(h: Heap, d: nat, p: nat): Heap
    requires d < |h.free|
  {
    Heap(B.WithRange(h.used, p, 1, true), h.arenas[p := Arena(Some(d), BlocksPerArena(d))],
         h.free[d := h.free[d] + ArenaBlocks(p, BlocksPerArena(d))])
  }

  /** The first free block is taken. */
  function Pop(h: Heap, d: nat): Heap
    requires d < |h.free|
  {
    if h.free[d] == [] || h.free[d][0].page !in h.arenas || h.arenas[h.free[d][0].page].freeCnt == 0 then h else
    var p := h.free[d][0].page;
    h.(arenas := h.arenas[p := h.arenas[p].(freeCnt := h.arenas[p].freeCnt - 1)], free := h.free[d := h.free[d][1..]])
  }

  /** A block is put back. */
  function Push(h: Heap, d: nat, b: Block): Heap
    requires d < |h.free| && b.page in h.arenas
  {
    h.(arenas := h.arenas[b.page := h.arenas[b.page].(freeCnt := h.arenas[b.page].freeCnt + 1)],
       free := h.free[d := [b] + h.free[d]])
  }

  /** `list` without the first `k` blocks of arena `p` */
  function Pruned(list: seq<Block>, p: nat, k: nat): seq<Block> {
    if list == [] then []
    else if list[0].page == p && list[0].index < k then Pruned(list[1..], p, k)
    else [list[0]] + Pruned(list[1..], p, k)
  }

  /** An arena that is entirely free goes back to the page allocator. */
  function DropArena(h: Heap, d: nat, p: nat): Heap
    requires d < |h.free|
  {
    Heap(B.WithRange(h.used, p, 1, false), h.arenas - {p}, h.free[d := Pruned(h.free[d], p, BlocksPerArena(d))])
  }

  function DropBig(h: Heap, p: nat): Heap
    requires p in h.arenas
  {
    h.(used := B.WithRange(h.used, p, h.arenas[p].freeCnt, false), arenas := h.arenas - {p})
  }

  // ----- each keeps what it should

  /** Pages that were free belong to no arena. */
  lemma FreshPages(h: Heap, live: map<Block, nat>, p: nat, cnt: nat)
    requires Loose(h, live) && cnt >= 1 && B.InRange(h.used, p, cnt) && B.AllAre(h.used, p, cnt, false)
    ensures p !in h.arenas
    ensures forall q: nat :: q in h.arenas ==> q + Pages(h.arenas[q]) <= p || p + cnt <= q
    ensures forall b {:trigger b in live} :: b in live ==> b.page != p
  {
    forall q: nat | q in h.arenas ensures q + Pages(h.arenas[q]) <= p || p + cnt <= q {
      assert ArenaAt(h, q);
      var k := if q < p then p else q;
      assert k < p + cnt && k < |h.used| ==> !h.used[k];
    }
    forall q: nat | q in h.arenas ensures q != p { assert ArenaAt(h, q); }
    forall b | b in live ensures b.page in h.arenas { assert LiveAt(h, live, b); }
  }

  lemma TakeBigKeeps(h: Heap, live: map<Block, nat>, p: nat, cnt: nat, size: nat)
    requires Inv(h, live) && cnt >= 1 && B.InRange(h.used, p, cnt) && B.AllAre(h.used, p, cnt, false)
    requires 0 < size <= PGSIZE * cnt - HEADER
    ensures Block(p, 0) !in live && Inv(TakeBig(h, p, cnt), live[Block(p, 0) := size])
  {
    FreshPages(h, live, p, cnt);
    var h', live' := TakeBig(h, p, cnt), live[Block(p, 0) := size];
    forall q: nat ensures ArenaAt(h', q) && BusyAt(h', q) { assert ArenaAt(h, q) && BusyAt(h, q); }
    forall q: nat, r: nat ensures ApartAt(h', q, r) { assert ApartAt(h, q, r); }
    forall d: nat ensures ListAt(h', d) {
      assert ListAt(h, d);
      if d < |h.free| {
        forall b | b in h'.free[d] ensures BlockOf(h'.arenas, d, b) { assert BlockOf(h.arenas, d, b); }
      }
    }
    forall d: nat, b ensures SlotAt(h', live', d, b) { assert SlotAt(h, live, d, b); }
    forall b ensures LiveAt(h', live', b) { assert LiveAt(h, live, b); }
    forall q: nat ensures BigAt(h', live', q) { assert BigAt(h, live, q); }
  }

  // ----- counting blocks

  ghost function ArenaSet(p: nat, n: nat): set<Block> {
    if n == 0 then {} else ArenaSet(p, n - 1) + {Block(p, n - 1)}
  }

  lemma {:induction false} CountBlocks(p: nat, n: nat)
    ensures |ArenaSet(p, n)| == n
    ensures forall b {:trigger b in ArenaSet(p, n)} :: b in ArenaSet(p, n) <==> b.page == p && b.index < n
  {
    if n > 0 { CountBlocks(p, n - 1); }
  }

  /** When free_cnt is the number of blocks in the arena, every one of them is on the free list. */
  lemma AllFree(h: Heap, live: map<Block, nat>, d: nat, p: nat, i: nat)
    requires Loose(h, live) && p in h.arenas && h.arenas[p] == Arena(Some(d), BlocksPerArena(d)) && i < BlocksPerArena(d)
    ensures d < |h.free| && Block(p, i) in h.free[d]
  {
    assert ArenaAt(h, p) && ListAt(h, d);
    var n := BlocksPerArena(d);
    CountBlocks(p, n);
    forall b | b in FreeIn(h.free[d], p) ensures b in ArenaSet(p, n) { assert BlockOf(h.arenas, d, b); }
    Smaller(FreeIn(h.free[d], p), ArenaSet(p, n));
    assert Block(p, i) in ArenaSet(p, n);
  }

  // ----- a new arena

  lemma ArenaBlocksFree(p: nat, n: nat)
    ensures |FreeIn(ArenaBlocks(p, n), p)| == n && NoDuplicates(ArenaBlocks(p, n))
    ensures forall b {:trigger b in ArenaBlocks(p, n)} :: b in ArenaBlocks(p, n) <==> b.page == p && b.index < n
  {
    CountBlocks(p, n);
    var list := ArenaBlocks(p, n);
    forall b ensures b in list <==> b.page == p && b.index < n {
      assert b.page == p && b.index < n ==> list[b.index] == b;
    }
    assert FreeIn(list, p) == ArenaSet(p, n);
  }

  lemma AddArenaLists(h: Heap, live: map<Block, nat>, d: nat, p: nat)
    requires Loose(h, live) && d < DESCS && h.free[d] == [] && p !in h.arenas
    ensures forall e: nat {:trigger ListAt(AddArena(h, d, p), e)} :: ListAt(AddArena(h, d, p), e)
    ensures forall q: nat, e: nat :: e < DESCS && q in h.arenas ==>
      FreeIn(AddArena(h, d, p).free[e], q) == FreeIn(h.free[e], q)
    ensures |FreeIn(AddArena(h, d, p).free[d], p)| == BlocksPerArena(d)
  {
    var h', n := AddArena(h, d, p), BlocksPerArena(d);
    ArenaBlocksFree(p, n);
    assert h'.free[d] == ArenaBlocks(p, n);
    forall e: nat ensures ListAt(h', e) {
      assert ListAt(h, e);
      if e < |h.free| && e != d {
        forall b | b in h'.free[e] ensures BlockOf(h'.arenas, e, b) { assert BlockOf(h.arenas, e, b); }
      }
    }
  }

  lemma AddArenaKeeps(h: Heap, live: map<Block, nat>, d: nat, p: nat)
    requires Inv(h, live) && d < DESCS && h.free[d] == [] && p < |h.used| && !h.used[p]
    ensures Loose(AddArena(h, d, p), live) && p !in h.arenas
    ensures forall q: nat {:trigger BusyAt(AddArena(h, d, p), q)} :: q != p ==> BusyAt(AddArena(h, d, p), q)
  {
    FreshPages(h, live, p, 1);
    AddArenaLists(h, live, d, p);
    var h' := AddArena(h, d, p);
    forall q: nat ensures ArenaAt(h', q) && (q != p ==> BusyAt(h', q)) { assert ArenaAt(h, q) && BusyAt(h, q); }
    forall q: nat, r: nat ensures ApartAt(h', q, r) { assert ApartAt(h, q, r); }
    forall e: nat, b ensures SlotAt(h', live, e, b) {
      assert SlotAt(h, live, e, b);
      assert b.page == p && e == d && b.index < BlocksPerArena(d) ==> h'.free[d][b.index] == b;
    }
    forall b ensures LiveAt(h', live, b) { assert LiveAt(h, live, b); }
    forall q: nat ensures BigAt(h', live, q) { assert BigAt(h, live, q); }
  }

  // ----- taking and putting back a block

  /** The free block is in use now, for `size` bytes. */
  lemma PopKeeps(h: Heap, live: map<Block, nat>, d: nat, size: nat)
    requires Loose(h, live) && d < DESCS && h.free[d] != [] && 0 < size <= BlockSize(d)
    requires forall p: nat {:trigger BusyAt(h, p)} :: p != h.free[d][0].page ==> BusyAt(h, p)
    ensures h.free[d][0].page in h.arenas && h.arenas[h.free[d][0].page].freeCnt > 0
    ensures h.free[d][0] !in live && Inv(Pop(h, d), live[h.free[d][0] := size])
  {
    var b, list := h.free[d][0], h.free[d];
    assert ListAt(h, d) && b in list && BlockOf(h.arenas, d, b) && SlotAt(h, live, d, b) && ArenaAt(h, b.page);
    assert b in FreeIn(list, b.page);
    var h', live' := Pop(h, d), live[b := size];
    PopFree(list, b.page);
    forall q: nat ensures ArenaAt(h', q) && BusyAt(h', q) {
      assert ArenaAt(h, q) && (BusyAt(h, q) || q == b.page);
      PopFree(list, q);
    }
    forall q: nat, r: nat ensures ApartAt(h', q, r) { assert ApartAt(h, q, r); }
    forall e: nat ensures ListAt(h', e) {
      assert ListAt(h, e);
      if e < |h.free| {
        forall c | c in h'.free[e] ensures BlockOf(h'.arenas, e, c) {
          assert c in h.free[e] && BlockOf(h.arenas, e, c);
        }
      }
    }
    forall e: nat, c ensures SlotAt(h', live', e, c) { PopSlot(h, live, d, size, e, c); }
    forall c ensures LiveAt(h', live', c) { assert LiveAt(h, live, c); }
    forall q: nat ensures BigAt(h', live', q) { assert BigAt(h, live, q); }
  }

  lemma PopSlot(h: Heap, live: map<Block, nat>, d: nat, size: nat, e: nat, c: Block)
    requires Loose(h, live) && d < DESCS && h.free[d] != []
    requires h.free[d][0].page in h.arenas && h.arenas[h.free[d][0].page].freeCnt > 0
    requires BlockOf(h.arenas, d, h.free[d][0])
    ensures SlotAt(Pop(h, d), live[h.free[d][0] := size], e, c)
  {
    var b, list := h.free[d][0], h.free[d];
    assert SlotAt(h, live, e, c) && ListAt(h, d);
    assert list == [b] + list[1..];
    assert b !in list[1..];
  }

  lemma PopFree(list: seq<Block>, q: nat)
    requires list != [] && NoDuplicates(list)
    ensures FreeIn(list[1..], q) == FreeIn(list, q) - {list[0]}
  {
    assert list == [list[0]] + list[1..];
  }

  lemma PushFree(list: seq<Block>, b: Block, q: nat)
    requires b !in list
    ensures FreeIn([b] + list, q) == FreeIn(list, q) + (if q == b.page then {b} else {})
    ensures |FreeIn([b] + list, q)| == |FreeIn(list, q)| + (if q == b.page then 1 else 0)
  {
  }

  /** A block in use is free again; its arena may now be entirely free. */
  lemma PushKeeps(h: Heap, live: map<Block, nat>, d: nat, b: Block)
    requires Inv(h, live) && b in live && b.page in h.arenas && h.arenas[b.page].desc == Some(d)
    ensures d < |h.free| && Loose(Push(h, d, b), live - {b})
    ensures forall p: nat {:trigger BusyAt(Push(h, d, b), p)} :: p != b.page ==> BusyAt(Push(h, d, b), p)
  {
    assert LiveAt(h, live, b) && BlockOf(h.arenas, d, b) && SlotAt(h, live, d, b) && ArenaAt(h, b.page) && BusyAt(h, b.page);
    var h', live', list := Push(h, d, b), live - {b}, h.free[d];
    forall q: nat ensures ArenaAt(h', q) && (q != b.page ==> BusyAt(h', q)) {
      assert ArenaAt(h, q) && BusyAt(h, q);
      PushFree(list, b, q);
    }
    forall q: nat, r: nat ensures ApartAt(h', q, r) { assert ApartAt(h, q, r); }
    forall e: nat ensures ListAt(h', e) {
      assert ListAt(h, e);
      if e < |h.free| {
        forall c | c in h'.free[e] ensures BlockOf(h'.arenas, e, c) { assert c == b || BlockOf(h.arenas, e, c); }
      }
    }
    forall e: nat, c ensures SlotAt(h', live', e, c) { assert SlotAt(h, live, e, c); }
    forall c ensures LiveAt(h', live', c) { assert LiveAt(h, live, c); }
    forall q: nat ensures BigAt(h', live', q) { assert BigAt(h, live, q); }
  }

  // ----- giving pages back

  lemma {:induction false} PrunedHas(list: seq<Block>, p: nat, k: nat, b: Block)
    ensures b in Pruned(list, p, k) <==> b in list && !(b.page == p && b.index < k)
  {
    if list != [] {
      PrunedHas(list[1..], p, k, b);
      assert list == [list[0]] + list[1..];
    }
  }

  lemma {:induction false} PrunedUnique(list: seq<Block>, p: nat, k: nat)
    requires NoDuplicates(list)
    ensures NoDuplicates(Pruned(list, p, k))
  {
    if list != [] {
      PrunedUnique(list[1..], p, k);
      PrunedHas(list[1..], p, k, list[0]);
      assert list == [list[0]] + list[1..];
    }
  }

  lemma DropArenaLists(h: Heap, live: map<Block, nat>, d: nat, p: nat)
    requires Loose(h, live) && p in h.arenas && h.arenas[p] == Arena(Some(d), BlocksPerArena(d))
    ensures d < |h.free| && forall e: nat {:trigger ListAt(DropArena(h, d, p), e)} :: ListAt(DropArena(h, d, p), e)
    ensures forall b {:trigger b in DropArena(h, d, p).free[d]} :: b in DropArena(h, d, p).free[d] <==> b in h.free[d] && b.page != p
  {
    assert ArenaAt(h, p) && ListAt(h, d);
    var h' := DropArena(h, d, p);
    PrunedUnique(h.free[d], p, BlocksPerArena(d));
    forall b ensures b in h'.free[d] <==> b in h.free[d] && b.page != p {
      PrunedHas(h.free[d], p, BlocksPerArena(d), b);
      assert b in h.free[d] ==> BlockOf(h.arenas, d, b);
    }
    forall e: nat ensures ListAt(h', e) {
      assert ListAt(h, e);
      if e < |h.free| {
        forall b | b in h'.free[e] ensures BlockOf(h'.arenas, e, b) { assert b in h.free[e] && BlockOf(h.arenas, e, b); }
      }
    }
  }

  /** The page of an arena that is entirely free is given back, and with it exactly its blocks leave the free list. */
  lemma DropArenaKeeps(h: Heap, live: map<Block, nat>, d: nat, p: nat)
    requires Loose(h, live) && p in h.arenas && h.arenas[p] == Arena(Some(d), BlocksPerArena(d))
    requires forall q: nat {:trigger BusyAt(h, q)} :: q != p ==> BusyAt(h, q)
    ensures d < |h.free| && Inv(DropArena(h, d, p), live)
  {
    DropArenaLists(h, live, d, p);
    var h' := DropArena(h, d, p);
    forall q: nat ensures ArenaAt(h', q) && BusyAt(h', q) {
      assert ArenaAt(h, q) && (q == p || BusyAt(h, q)) && ApartAt(h, p, q) && ApartAt(h, q, p);
      if q != p { assert FreeIn(h'.free[d], q) == FreeIn(h.free[d], q); }
    }
    forall q: nat, r: nat ensures ApartAt(h', q, r) { assert ApartAt(h, q, r); }
    forall e: nat, c ensures SlotAt(h', live, e, c) { assert SlotAt(h, live, e, c); }
    forall c ensures LiveAt(h', live, c) {
      assert LiveAt(h, live, c) && SlotAt(h, live, d, c);
      if c in live && c.page == p { AllFree(h, live, d, p, c.index); }
    }
    forall q: nat ensures BigAt(h', live, q) { assert BigAt(h, live, q); }
  }

  lemma DropBigKeeps(h: Heap, live: map<Block, nat>, b: Block)
    requires Inv(h, live) && b in live && b.page in h.arenas && h.arenas[b.page].desc.None?
    ensures Inv(DropBig(h, b.page), live - {b})
  {
    var p, h', live' := b.page, DropBig(h, b.page), live - {b};
    assert LiveAt(h, live, b);
    forall q: nat ensures ArenaAt(h', q) && BusyAt(h', q) {
      assert ArenaAt(h, q) && BusyAt(h, q) && ApartAt(h, p, q) && ApartAt(h, q, p);
    }
    forall q: nat, r: nat ensures ApartAt(h', q, r) { assert ApartAt(h, q, r); }
    forall e: nat ensures ListAt(h', e) {
      assert ListAt(h, e);
      if e < |h.free| {
        forall c | c in h'.free[e] ensures BlockOf(h'.arenas, e, c) { assert BlockOf(h.arenas, e, c); }
      }
    }
    forall e: nat, c ensures SlotAt(h', live', e, c) { assert SlotAt(h, live, e, c); }
    forall c ensures LiveAt(h', live', c) { assert LiveAt(h, live, c); }
    forall q: nat ensures BigAt(h', live', q) { assert BigAt(h, live, q); }
  }

  // ----- whole calls

  /** malloc() */
  function Malloced(h: Heap, size: Size): (Heap, Option<Block>)
    requires |h.free| == DESCS
  {
    if size == 0 then (h, None) else
    match DescFor(size, 0)
    case None =>
      (match PagesFor(h.used, BigPages(size))
       case None => (h, None)
       case Some(p) => (TakeBig(h, p, BigPages(size)), Some(Block(p, 0))))
    case Some(d) =>
      if h.free[d] != [] then (Pop(h, d), Some(h.free[d][0])) else
      match PagesFor(h.used, 1)
      case None => (h, None)
      case Some(p) => (Pop(AddArena(h, d, p), d), Some(Block(p, 0)))
  }

  /** free() of a block */
  function Freed(h: Heap, b: Block): Heap
    requires |h.free| == DESCS && b.page in h.arenas && (h.arenas[b.page].desc.Some? ==> h.arenas[b.page].desc.value < DESCS)
  {
    match h.arenas[b.page].desc
    case None => DropBig(h, b.page)
    case Some(d) =>
      var h' := Push(h, d, b);
      if h'.arenas[b.page].freeCnt >= BlocksPerArena(d) then DropArena(h', d, b.page) else h'
  }

  lemma SomeBlocks(d: nat)
    requires d < DESCS
    ensures BlocksPerArena(d) >= 1
  {
    SmallSizes(d);
  }

  lemma {:induction false} SizesGrow(d: nat, e: nat)
    requires d <= e
    ensures BlockSize(d) <= BlockSize(e)
  {
    if d < e { SizesGrow(d, e - 1); }
  }

  lemma CanPop(h: Heap, live: map<Block, nat>, d: nat)
    requires Loose(h, live) && d < DESCS && h.free[d] != []
    ensures var b := h.free[d][0]; b.page in h.arenas && h.arenas[b.page].desc == Some(d) && h.arenas[b.page].freeCnt > 0
  {
    var b := h.free[d][0];
    assert ListAt(h, d) && b in h.free[d] && BlockOf(h.arenas, d, b) && ArenaAt(h, b.page);
    assert b in FreeIn(h.free[d], b.page);
  }

  lemma MallocKeeps(h: Heap, live: map<Block, nat>, size: Size)
    requires Inv(h, live)
    ensures var (h', r) := Malloced(h, size);
      match r
      case None => h' == h
      case Some(b) => b !in live && Inv(h', live[b := Granted(size)])
  {
    if size > 0 {
      match DescFor(size, 0)
      case None =>
        var fit := PagesFor(h.used, BigPages(size));
        if fit.Some? { TakeBigKeeps(h, live, fit.value, BigPages(size), Granted(size)); }
      case Some(d) =>
        if h.free[d] != [] {
          PopKeeps(h, live, d, size);
        } else {
          var fit := PagesFor(h.used, 1);
          if fit.Some? {
            SomeBlocks(d);
            AddArenaKeeps(h, live, d, fit.value);
            PopKeeps(AddArena(h, d, fit.value), live, d, size);
          }
        }
    }
  }

  lemma FreeKeeps(h: Heap, live: map<Block, nat>, b: Block)
    requires Inv(h, live) && b in live
    ensures b.page in h.arenas && (h.arenas[b.page].desc.Some? ==> h.arenas[b.page].desc.value < DESCS)
    ensures Inv(Freed(h, b), live - {b})
  {
    assert LiveAt(h, live, b);
    match h.arenas[b.page].desc
    case None => DropBigKeeps(h, live, b);
    case Some(d) =>
      PushKeeps(h, live, d, b);
      var h', live' := Push(h, d, b), live - {b};
      assert ArenaAt(h', b.page);
      if h'.arenas[b.page].freeCnt >= BlocksPerArena(d) { DropArenaKeeps(h', live', d, b.page); }
  }

  // ----- when malloc() succeeds

  /** The descriptor of the smallest blocks that are big enough */
  ghost predicate Smallest(size: nat, d: nat) { d < DESCS && size <= BlockSize(d) && forall e :: 0 <= e < d ==> BlockSize(e) < size }

  ghost predicate TooBig(size: nat) { forall d :: 0 <= d < DESCS ==> BlockSize(d) < size }

  /** There are `cnt` free pages in a row. */
  ghost predicate HasPages(used: seq<bool>, cnt: nat) { exists p: nat :: B.InRange(used, p, cnt) && B.AllAre(used, p, cnt, false) }

  /** There is a free block of the right kind, or a page to make some, or enough pages for a big block. */
  ghost predicate Available(h: Heap, size: Size)
    requires |h.free| == DESCS
  {
    || (exists d: nat :: Smallest(size, d) && (h.free[d] != [] || HasPages(h.used, 1)))
    || (TooBig(size) && BigPages(size) > 0 && HasPages(h.used, BigPages(size)))
  }

  lemma PagesWhen(used: seq<bool>, cnt: nat)
    ensures PagesFor(used, cnt).Some? <==> cnt > 0 && HasPages(used, cnt)
  {
  }

  ghost predicate Kind(a: Arena, size: Size) {
    match a.desc
    case Some(d) => Smallest(size, d)
    case None => TooBig(size) && a.freeCnt == BigPages(size)
  }

  lemma AvailableIs(h: Heap, size: Size)
    requires |h.free| == DESCS
    ensures Available(h, size) <==>
      match DescFor(size, 0)
      case None => PagesFor(h.used, BigPages(size)).Some?
      case Some(d) => h.free[d] != [] || PagesFor(h.used, 1).Some?
  {
    PagesWhen(h.used, 1);
    PagesWhen(h.used, BigPages(size));
    match DescFor(size, 0)
    case None => assert TooBig(size);
    case Some(d) =>
      assert Smallest(size, d) && !TooBig(size);
      forall e: nat | Smallest(size, e) ensures e == d {}
  }

  /** malloc() succeeds exactly then, and the block is of the smallest kind that is big enough. */
  lemma MallocGives(h: Heap, live: map<Block, nat>, size: Size)
    requires Inv(h, live)
    ensures var (h', r) := Malloced(h, size);
      && (r.Some? <==> size > 0 && Available(h, size))
      && (r.Some? ==> r.value.page in h'.arenas && Kind(h'.arenas[r.value.page], size))
  {
    AvailableIs(h, size);
    if Malloced(h, size).1.Some? && DescFor(size, 0).Some? { SmallGives(h, live, DescFor(size, 0).value, size); }
  }

  lemma SmallGives(h: Heap, live: map<Block, nat>, d: nat, size: Size)
    requires Inv(h, live) && DescFor(size, 0) == Some(d) && Malloced(h, size).1.Some?
    ensures var (h', r) := Malloced(h, size); r.value.page in h'.arenas && Kind(h'.arenas[r.value.page], size)
  {
    if h.free[d] == [] {
      var p := PagesFor(h.used, 1).value;
      AddArenaKeeps(h, live, d, p);
      SomeBlocks(d);
      CanPop(AddArena(h, d, p), live, d);
    } else {
      CanPop(h, live, d);
    }
  }

  /** A block that has been freed can be had again. */
  lemma FreedIsAvailable(h: Heap, live: map<Block, nat>, b: Block, size: Size)
    requires Inv(h, live) && b in live && b.page in h.arenas && Kind(h.arenas[b.page], size)
    ensures (h.arenas[b.page].desc.Some? ==> h.arenas[b.page].desc.value < DESCS) && Available(Freed(h, b), size)
  {
    assert LiveAt(h, live, b) && ArenaAt(h, b.page);
    var h', p := Freed(h, b), b.page;
    match h.arenas[p].desc
    case None => assert B.AllAre(h'.used, p, BigPages(size), false);
    case Some(d) =>
      if h'.free[d] == [] { assert B.AllAre(h'.used, p, 1, false); }
  }

  // ----- the pages

  ghost predicate InArena(h: Heap, k: nat) { exists p: nat :: p in h.arenas && p <= k < p + Pages(h.arenas[p]) }

  /** A page in use for something else */
  ghost predicate Elsewhere(h: Heap, k: nat) { k < |h.used| && h.used[k] && !InArena(h, k) }

  /** Every arena is there for a block in use: all pages that malloc() has taken and needs no more are given back. */
  lemma ArenaInUse(h: Heap, live: map<Block, nat>, p: nat) returns (b: Block)
    requires Inv(h, live) && p in h.arenas
    ensures b in live && b.page == p
  {
    assert ArenaAt(h, p) && BusyAt(h, p) && BigAt(h, live, p);
    match h.arenas[p].desc
    case None => b := Block(p, 0);
    case Some(d) =>
      var n := BlocksPerArena(d);
      CountBlocks(p, n);
      if forall c :: c in ArenaSet(p, n) ==> c in FreeIn(h.free[d], p) {
        assert ArenaSet(p, n) <= FreeIn(h.free[d], p);
        Smaller(ArenaSet(p, n), FreeIn(h.free[d], p));
      }
      b :| b in ArenaSet(p, n) && b !in FreeIn(h.free[d], p);
      assert BlockOf(h.arenas, d, b) && SlotAt(h, live, d, b);
  }

  /** Pages that were free become those of a new arena. */
  lemma PagesTaken(h: Heap, h': Heap, p: nat, a: Arena, k: nat)
    requires p !in h.arenas && h'.arenas == h.arenas[p := a] && h'.used == B.WithRange(h.used, p, Pages(a), true)
    requires B.InRange(h.used, p, Pages(a)) && B.AllAre(h.used, p, Pages(a), false)
    ensures Elsewhere(h', k) == Elsewhere(h, k)
  {
    if InArena(h, k) {
      var q: nat :| q in h.arenas && q <= k < q + Pages(h.arenas[q]);
      assert q in h'.arenas && q <= k < q + Pages(h'.arenas[q]);
    }
    assert p in h'.arenas && Pages(h'.arenas[p]) == Pages(a);
  }

  /** The pages of an arena are given back. */
  lemma PagesGiven(h: Heap, live: map<Block, nat>, h': Heap, p: nat, k: nat)
    requires Loose(h, live) && p in h.arenas && h'.arenas == h.arenas - {p}
    requires h'.used == B.WithRange(h.used, p, Pages(h.arenas[p]), false)
    ensures Elsewhere(h', k) == Elsewhere(h, k)
  {
    if InArena(h, k) && !(p <= k < p + Pages(h.arenas[p])) {
      var q: nat :| q in h.arenas && q <= k < q + Pages(h.arenas[q]);
      assert q in h'.arenas && q <= k < q + Pages(h'.arenas[q]);
    }
  }

  /** The arenas have the pages they had. */
  lemma SamePages(h: Heap, h': Heap, k: nat)
    requires h'.used == h.used && h'.arenas.Keys == h.arenas.Keys && forall p {:trigger h.arenas[p]} :: p in h.arenas ==> Pages(h'.arenas[p]) == Pages(h.arenas[p])
    ensures Elsewhere(h', k) == Elsewhere(h, k)
  {
    if InArena(h, k) {
      var q: nat :| q in h.arenas && q <= k < q + Pages(h.arenas[q]);
      assert q in h'.arenas && q <= k < q + Pages(h'.arenas[q]);
    }
    if InArena(h', k) {
      var q: nat :| q in h'.arenas && q <= k < q + Pages(h'.arenas[q]);
      assert q in h.arenas && q <= k < q + Pages(h.arenas[q]);
    }
  }

  lemma PopPages(h: Heap, live: map<Block, nat>, d: nat, k: nat)
    requires Loose(h, live) && d < DESCS && h.free[d] != []
    ensures Elsewhere(Pop(h, d), k) == Elsewhere(h, k)
  {
    CanPop(h, live, d);
    SamePages(h, Pop(h, d), k);
  }

  /** malloc() and free() take and give back pages for arenas only, and exactly those of the arenas that come and go. */
  lemma MallocElsewhere(h: Heap, live: map<Block, nat>, size: Size, k: nat)
    requires Inv(h, live)
    ensures Elsewhere(Malloced(h, size).0, k) == Elsewhere(h, k)
  {
    if size > 0 {
      match DescFor(size, 0)
      case None =>
        var fit, n := PagesFor(h.used, BigPages(size)), BigPages(size);
        if fit.Some? {
          FreshPages(h, live, fit.value, n);
          PagesTaken(h, TakeBig(h, fit.value, n), fit.value, Arena(None, n), k);
        }
      case Some(d) =>
        var fit := PagesFor(h.used, 1);
        if h.free[d] != [] {
          PopPages(h, live, d, k);
        } else if fit.Some? {
          AddArenaKeeps(h, live, d, fit.value);
          SomeBlocks(d);
          PagesTaken(h, AddArena(h, d, fit.value), fit.value, Arena(Some(d), BlocksPerArena(d)), k);
          PopPages(AddArena(h, d, fit.value), live, d, k);
        }
    }
  }

  lemma FreeElsewhere(h: Heap, live: map<Block, nat>, b: Block, k: nat)
    requires Inv(h, live) && b in live
    ensures b.page in h.arenas && (h.arenas[b.page].desc.Some? ==> h.arenas[b.page].desc.value < DESCS)
    ensures Elsewhere(Freed(h, b), k) == Elsewhere(h, k)
  {
    assert LiveAt(h, live, b);
    match h.arenas[b.page].desc
    case None => PagesGiven(h, live, DropBig(h, b.page), b.page, k);
    case Some(d) =>
      PushKeeps(h, live, d, b);
      var h' := Push(h, d, b);
      SamePages(h, h', k);
      if h'.arenas[b.page].freeCnt >= BlocksPerArena(d) { PagesGiven(h', live - {b}, DropArena(h', d, b.page), b.page, k); }
  }
}
