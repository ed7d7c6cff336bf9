/** malloc(), free() and realloc() on a pool of pages. */
module Allocator {
  import opened Common
  import opened Malloc
  import B = Bitmap

  // ----- loops on lists and bytes

  function Given(p: Option<Block>): set<Block> { if p.Some? then {p.value} else {} }

  /** list_remove() */
  function RemoveOne(list: seq<Block>, b: Block): seq<Block> {
    if list == [] then [] else if list[0] == b then list[1..] else [list[0]] + RemoveOne(list[1..], b)
  }

  lemma {:induction false} PrunedNothing(list: seq<Block>, p: nat)
    ensures Pruned(list, p, 0) == list
  {
    if list != [] { PrunedNothing(list[1..], p); }
  }

  lemma {:induction false} PrunedAbsent(list: seq<Block>, p: nat, k: nat)
    requires Block(p, k) !in list
    ensures Pruned(list, p, k + 1) == Pruned(list, p, k)
  {
    if list != [] {
      assert list == [list[0]] + list[1..];
      PrunedAbsent(list[1..], p, k);
    }
  }

  /** One more block of the arena is removed. */
  lemma {:induction false} PrunedOneMore(list: seq<Block>, p: nat, k: nat)
    requires NoDuplicates(list)
    ensures RemoveOne(Pruned(list, p, k), Block(p, k)) == Pruned(list, p, k + 1)
  {
    if list != [] {
      assert list == [list[0]] + list[1..];
      if list[0] == Block(p, k) {
        assert list[0] !in list[1..];
        PrunedAbsent(list[1..], p, k);
        assert Pruned(list, p, k)[1..] == Pruned(list[1..], p, k);
      } else {
        PrunedOneMore(list[1..], p, k);
        assert !(list[0].page == p && list[0].index < k) ==> Pruned(list, p, k)[1..] == Pruned(list[1..], p, k);
      }
    }
  }

  /** memset() */
  method Fill(memory: array<bv8>, from: nat, n: nat, v: bv8)
    requires from + n <= memory.Length
    modifies memory
    ensures forall i :: 0 <= i < memory.Length ==> memory[i] == if from <= i < from + n then v else old(memory[i])
  {
    for k := 0 to n
      invariant forall i :: 0 <= i < memory.Length ==> memory[i] == if from <= i < from + k then v else old(memory[i])
    {
      memory[from + k] := v;
    }
  }

  /** memcpy() between blocks that do not overlap */
  method Copy(memory: array<bv8>, to: nat, from: nat, n: nat)
    requires to + n <= memory.Length && from + n <= memory.Length && (to + n <= from || from + n <= to)
    modifies memory
    ensures forall i :: 0 <= i < memory.Length ==> memory[i] == old(memory[if to <= i < to + n then from + (i - to) else i])
  {
    for k := 0 to n
      invariant forall i :: 0 <= i < memory.Length ==> memory[i] == old(memory[if to <= i < to + k then from + (i - to) else i])
    {
      memory[to + k] := memory[from + k];
    }
  }

  // ----- the bytes of blocks

  /** Where block `b` is */
  ghost function Range(arenas: map<nat, Arena>, b: Block): (nat, nat) {
    if b.page in arenas then (Address(b, arenas[b.page]), Address(b, arenas[b.page]) + Room(arenas[b.page])) else (0, 0)
  }

  ghost function DataIn(memory: seq<bv8>, arenas: map<nat, Arena>, b: Block): seq<bv8> {
    var (from, to) := Range(arenas, b);
    if from <= to <= |memory| then memory[from..to] else []
  }

  /** No block in use has any of the bytes. */
  ghost predicate Clear(arenas: map<nat, Arena>, live: map<Block, nat>, from: nat, n: nat) {
    forall c {:trigger Range(arenas, c)} :: c in live ==> Range(arenas, c).1 <= from || from + n <= Range(arenas, c).0
  }

  lemma ElsewhereKept(before: seq<bv8>, after: seq<bv8>, arenas: map<nat, Arena>, live: map<Block, nat>, from: nat, n: nat)
    requires |after| == |before| && Clear(arenas, live, from, n)
    requires forall i :: 0 <= i < |before| && !(from <= i < from + n) ==> after[i] == before[i]
    ensures forall c {:trigger DataIn(after, arenas, c)} :: c in live ==> DataIn(after, arenas, c) == DataIn(before, arenas, c)
  {
  }

  lemma BlockIsClear(h: Heap, live: map<Block, nat>, b: Block)
    requires Inv(h, live) && b in live
    ensures var (from, to) := Range(h.arenas, b); from <= to <= PGSIZE * |h.used| && Clear(h.arenas, live - {b}, from, to - from)
  {
    WithinArena(h, live, b);
    forall c | c in live - {b} ensures Range(h.arenas, c).1 <= Range(h.arenas, b).0 || Range(h.arenas, b).1 <= Range(h.arenas, c).0 {
      BlocksAreDisjoint(h, live, b, c);
    }
  }

  /** Pages that are not marked as used have no byte of a block in use. */
  lemma PagesAreClear(h: Heap, live: map<Block, nat>, p: nat, cnt: nat)
    requires Inv(h, live) && B.InRange(h.used, p, cnt) && B.AllAre(h.used, p, cnt, false) && cnt >= 1
    ensures Clear(h.arenas, live, PGSIZE * p, PGSIZE * cnt)
  {
    FreshPages(h, live, p, cnt);
    forall c | c in live ensures Range(h.arenas, c).1 <= PGSIZE * p || PGSIZE * p + PGSIZE * cnt <= Range(h.arenas, c).0 {
      WithinArena(h, live, c);
    }
  }

  /** malloc() and free() do not move blocks. */
  lemma RangesStay(arenas: map<nat, Arena>, arenas': map<nat, Arena>, b: Block)
    requires b.page in arenas && b.page in arenas' && arenas'[b.page].desc == arenas[b.page].desc
    requires arenas[b.page].desc.None? ==> arenas'[b.page] == arenas[b.page]
    ensures Range(arenas', b) == Range(arenas, b)
  {
  }

  class Allocator {
    const pool: B.Bitmap
    const memory: array<bv8>
    var arenas: map<nat, Arena>
    var free: seq<seq<Block>>
    ghost var live: map<Block, nat>

    ghost predicate Valid()
      reads this, pool.words
    {
      pool.Valid() && memory.Length == PGSIZE * pool.bitCnt && Inv(State(), live)
    }

    ghost function State(): Heap
      reads this, pool.words
      requires pool.Valid()
    {
      Heap(pool.Bits(), arenas, free)
    }

    /** The bytes of a block in use */
    ghost function Data(b: Block): seq<bv8>
      reads this`arenas, memory
    {
      DataIn(memory[..], arenas, b)
    }

    /** malloc_init() on a pool in which all pages are free */
    constructor (pages: nat)
      ensures Valid() && live == map[] && fresh(pool) && fresh(pool.words) && fresh(memory)
    {
      pool := new B.Bitmap(pages);
      memory := new bv8[PGSIZE * pages];
      arenas, free, live := map[], seq(DESCS, _ => []), map[];
      new;
      var h := State();
      forall d: nat ensures ListAt(h, d) {}
      forall d: nat, b ensures SlotAt(h, live, d, b) {}
    }

    /** The descriptor for a request */
    method FindDesc(size: nat) returns (d: nat)
      ensures DescFor(size, 0) == if d == DESCS then None else Some(d)
      ensures d <= DESCS
    {
      d := 0;
      while d < DESCS && BlockSize(d) < size
        invariant d <= DESCS && DescFor(size, 0) == DescFor(size, d)
      {
        d := d + 1;
      }
    }

    /** A page is divided into blocks, which go to the end of the free list. */
    method MakeArena(d: nat, p: nat)
      requires d < |free|
      modifies this
      ensures arenas == old(arenas)[p := Arena(Some(d), BlocksPerArena(d))] && live == old(live)
      ensures free == old(free)[d := old(free)[d] + ArenaBlocks(p, BlocksPerArena(d))]
    {
      arenas := arenas[p := Arena(Some(d), BlocksPerArena(d))];
      var list := free[d];
      for i := 0 to BlocksPerArena(d)
        invariant list == free[d] + ArenaBlocks(p, i)
      {
        list := list + [Block(p, i)];
      }
      free := free[d := list];
    }

    /** palloc_get_multiple() */
    method GetPages(cnt: nat) returns (p: Option<nat>)
      requires pool.Valid()
      modifies pool.words
      ensures p == PagesFor(old(pool.Bits()), cnt)
      ensures pool.Bits() == if p.Some? then B.WithRange(old(pool.Bits()), p.value, cnt, true) else old(pool.Bits())
    {
      ghost var bits := pool.Bits();
      if cnt == 0 {
        return None;
      }
      p := pool.ScanAndFlip(0, cnt, false);
      B.FirstFitIsUnique(bits, 0, cnt, false, p, B.FirstFit(bits, 0, cnt, false));
    }

    /** The first free block of a descriptor */
    method TakeFree(d: nat) returns (b: Block)
      requires pool.Valid() && d < |free| && free[d] != [] && free[d][0].page in arenas && arenas[free[d][0].page].freeCnt > 0
      modifies this
      ensures b == old(free)[d][0] && State() == Pop(old(State()), d) && live == old(live)
    {
      b := free[d][0];
      arenas := arenas[b.page := arenas[b.page].(freeCnt := arenas[b.page].freeCnt - 1)];
      free := free[d := free[d][1..]];
    }

    /** malloc() of a big block */
    method MallocBig(size: Size) returns (r: Option<Block>)
      requires Valid() && DescFor(size, 0).None? && size > 0
      modifies this, pool.words
      ensures pool.Valid() && (State(), r) == Malloced(old(State()), size) && live == old(live)
    {
      var p := GetPages(BigPages(size));
      if p.None? {
        return None;
      }
      arenas := arenas[p.value := Arena(None, BigPages(size))];
      r := Some(Block(p.value, 0));
    }

    /** malloc() of a block of descriptor `d` */
    method MallocSmall(d: nat, size: Size) returns (r: Option<Block>)
      requires Valid() && DescFor(size, 0) == Some(d) && size > 0
      modifies this, pool.words
      ensures pool.Valid() && (State(), r) == Malloced(old(State()), size) && live == old(live)
    {
      ghost var h := State();
      if free[d] == [] {
        var p := GetPages(1);
        if p.None? {
          return None;
        }
        MakeArena(d, p.value);
        AddArenaKeeps(h, live, d, p.value);
        SomeBlocks(d);
      }
      CanPop(State(), live, d);
      var b := TakeFree(d);
      r := Some(b);
    }

    /** malloc() */
    method Malloc(size: Size) returns (r: Option<Block>)
      requires Valid()
      modifies this, pool.words
      ensures Valid() && (State(), r) == Malloced(old(State()), size) && (r.Some? <==> size > 0 && Available(old(State()), size))
      ensures match r
        case None => live == old(live)
        case Some(b) => b !in old(live) && live == old(live)[b := Granted(size)]
      ensures forall c {:trigger Data(c)} :: c in old(live) ==> Data(c) == old(Data(c))
    {
      MallocKeeps(State(), live, size);
      MallocGives(State(), live, size);
      forall c | c in live ensures Range(Malloced(State(), size).0.arenas, c) == Range(arenas, c) {
        MallocRanges(State(), live, size, c);
      }
      if size == 0 {
        return None;
      }
      var d := FindDesc(size);
      if d == DESCS {
        r := MallocBig(size);
      } else {
        r := MallocSmall(d, size);
      }
      if r.Some? {
        live := live[r.value := Granted(size)];
      }
    }

    /** The blocks of an arena leave the free list. */
    method RemoveArena(all: seq<Block>, p: nat, n: nat) returns (list: seq<Block>)
      requires NoDuplicates(all)
      ensures list == Pruned(all, p, n)
    {
      list := all;
      PrunedNothing(all, p);
      for i := 0 to n
        invariant list == Pruned(all, p, i)
      {
        PrunedOneMore(all, p, i);
        list := RemoveOne(list, Block(p, i));
      }
    }

    /** palloc_free_multiple(), which asserts that the pages are in use */
    method FreePages(p: nat, cnt: nat)
      requires pool.Valid() && memory.Length == PGSIZE * pool.bitCnt
      requires B.InRange(pool.Bits(), p, cnt) && B.AllAre(pool.Bits(), p, cnt, true)
      modifies pool.words, memory
      ensures pool.Bits() == B.WithRange(old(pool.Bits()), p, cnt, false)
      ensures forall i :: 0 <= i < memory.Length && !(PGSIZE * p <= i < PGSIZE * p + PGSIZE * cnt) ==> memory[i] == old(memory[i])
    {
      Fill(memory, PGSIZE * p, PGSIZE * cnt, 0xcc);
      pool.SetMultiple(p, cnt, false);
    }

    /** free() of a block of descriptor `d`, up to where it looks whether the arena is entirely free */
    method PutBack(b: Block, d: nat)
      requires Valid() && b in live && b.page in arenas && arenas[b.page].desc == Some(d) && d < |free|
      modifies this, memory
      ensures pool.Valid() && live == old(live) && State() == Push(old(State()), d, b)
      ensures forall c {:trigger Data(c)} :: c in live && c != b ==> Data(c) == old(Data(c))
    {
      ghost var h, before := State(), memory[..];
      BlockIsClear(h, live, b);
      Fill(memory, Address(b, arenas[b.page]), BlockSize(d), 0xcc);
      free := free[d := [b] + free[d]];
      arenas := arenas[b.page := arenas[b.page].(freeCnt := arenas[b.page].freeCnt + 1)];
      PushData(h, live, d, b, before, memory[..]);
    }

    /** The arena of page `p` is entirely free and goes; `others` are in use. */
    method GiveUpArena(p: nat, d: nat, ghost others: map<Block, nat>)
      requires pool.Valid() && memory.Length == PGSIZE * pool.bitCnt && d < |free| && NoDuplicates(free[d]) && p < pool.bitCnt
      requires pool.Bits()[p] && Inv(DropArena(State(), d, p), others)
      modifies this, pool.words, memory
      ensures pool.Valid() && live == old(live) && State() == DropArena(old(State()), d, p)
      ensures forall c {:trigger Data(c)} :: c in others ==> Data(c) == old(Data(c))
    {
      ghost var h, before := State(), memory[..];
      var list := RemoveArena(free[d], p, BlocksPerArena(d));
      free := free[d := list];
      FreePages(p, 1);
      arenas := arenas - {p};
      DropArenaData(h, State(), others, p, before, memory[..]);
    }

    /** free() of a block of descriptor `d` */
    method FreeSmall(b: Block, d: nat)
      requires Valid() && b in live && b.page in arenas && arenas[b.page].desc == Some(d) && d < |free|
      modifies this, pool.words, memory
      ensures pool.Valid() && live == old(live) && State() == Freed(old(State()), b)
      ensures forall c {:trigger Data(c)} :: c in live && c != b ==> Data(c) == old(Data(c))
    {
      ghost var h := State();
      SmallFreed(h, live, b, d);
      PutBack(b, d);
      if arenas[b.page].freeCnt >= BlocksPerArena(d) {
        GiveUpArena(b.page, d, live - {b});
      }
    }

    /** free() of a big block */
    method FreeBig(b: Block)
      requires Valid() && b in live && b.page in arenas && arenas[b.page].desc.None?
      modifies this, pool.words, memory
      ensures pool.Valid() && live == old(live) && State() == Freed(old(State()), b)
      ensures forall c {:trigger Data(c)} :: c in live && c != b ==> Data(c) == old(Data(c))
    {
      ghost var h, others, before, was := State(), live - {b}, memory[..], arenas;
      FreeKeeps(h, live, b);
      assert ArenaAt(h, b.page);
      var cnt := arenas[b.page].freeCnt;
      FreePages(b.page, cnt);
      arenas := arenas - {b.page};
      assert State() == Freed(h, b);
      PagesAreClear(State(), others, b.page, cnt);
      ElsewhereKept(before, memory[..], arenas, others, PGSIZE * b.page, PGSIZE * cnt);
      forall c | c in live && c != b ensures Data(c) == old(Data(c)) {
        assert c in others && LiveAt(State(), others, c);
        RangesStay(was, arenas, c);
      }
    }

    /** free() */
    method Free(p: Option<Block>)
      requires Valid() && (p.Some? ==> p.value in live)
      modifies this, pool.words, memory
      ensures Valid() && live == old(live) - Given(p)
      ensures forall c {:trigger Data(c)} :: c in live ==> Data(c) == old(Data(c))
      ensures p.None? ==> State() == old(State())
      ensures p.Some? ==>
        && p.value.page in old(arenas)
        && (old(arenas)[p.value.page].desc.Some? ==> old(arenas)[p.value.page].desc.value < DESCS)
        && State() == Freed(old(State()), p.value)
    {
      if p.None? {
        return;
      }
      FreeKeeps(State(), live, p.value);
      match arenas[p.value.page].desc {
        case Some(d) => FreeSmall(p.value, d);
        case None => FreeBig(p.value);
      }
      live := live - {p.value};
    }

    /** realloc(). Where memcpy() goes past the end of the new block, which has become too small by wrap-around, the model
        stops before that, and says so by `overrun`. */
    method Realloc(p: Option<Block>, size: Size) returns (r: Option<Block>, overrun: bool)
      requires Valid() && (p.Some? ==> p.value in live)
      modifies this, pool.words, memory
      ensures Valid() && overrun == (r.Some? && p.Some? && Overruns(size, |old(Data(p.value))|))
      ensures size == 0 ==> r == None && live == old(live) - Given(p)
      ensures size > 0 ==> (r.Some? <==> Available(old(State()), size)) && (r.None? ==> live == old(live))
      ensures r.Some? && !overrun ==> r.value !in old(live) && live == (old(live) - Given(p))[r.value := Granted(size)]
      ensures forall c {:trigger Data(c)} :: c in live && Some(c) != r ==> Data(c) == old(Data(c))
      ensures r.Some? && p.Some? && !overrun ==>
        var n := Min(size, |old(Data(p.value))|); n <= |Data(r.value)| && Data(r.value)[..n] == old(Data(p.value))[..n]
    {
      if size == 0 {
        Free(p);
        r, overrun := None, false;
      } else {
        r, overrun := Resize(p, size);
      }
    }

    method Resize(p: Option<Block>, size: Size) returns (r: Option<Block>, overrun: bool)
      requires Valid() && (p.Some? ==> p.value in live) && size > 0
      modifies this, pool.words, memory
      ensures Valid() && overrun == (r.Some? && p.Some? && Overruns(size, |old(Data(p.value))|))
      ensures (r.Some? <==> Available(old(State()), size)) && (r.None? ==> live == old(live))
      ensures r.Some? && !overrun ==> r.value !in old(live) && live == (old(live) - Given(p))[r.value := Granted(size)]
      ensures forall c {:trigger Data(c)} :: c in live && Some(c) != r ==> Data(c) == old(Data(c))
      ensures r.Some? && p.Some? && !overrun ==>
        var n := Min(size, |old(Data(p.value))|); n <= |Data(r.value)| && Data(r.value)[..n] == old(Data(p.value))[..n]
    {
      ghost var before := live;
      r := Malloc(size);
      overrun := false;
      if r.Some? { GivenAndTaken(before, p, r.value, Granted(size)); }
      if p.Some? && r.Some? {
        overrun := Relocate(r.value, p.value, size);
      }
    }

    /** As much as fits goes to the new block, unless more is copied than fits. */
    method Relocate(to: Block, from: Block, size: Size) returns (overrun: bool)
      requires Valid() && to in live && from in live && to != from && live[to] == Granted(size)
      modifies this, pool.words, memory
      ensures Valid() && overrun == Overruns(size, |old(Data(from))|)
      ensures live == if overrun then old(live) else old(live) - {from}
      ensures forall c {:trigger Data(c)} :: c in live && c != to ==> Data(c) == old(Data(c))
      ensures !overrun ==> var n := Min(size, |old(Data(from))|); n <= |Data(to)| && Data(to)[..n] == old(Data(from))[..n]
    {
      DataSize(State(), live, memory[..], from);
      var room := Room(arenas[from.page]);
      NewRoom(size, room);
      overrun := Overruns(size, room);
      if !overrun {
        MoveBlock(to, from, Min(size, room));
      }
    }

    /** The first `n` bytes of a block go to a new one, and the old one is freed. */
    method MoveBlock(to: Block, from: Block, n: nat)
      requires Valid() && to in live && from in live && to != from && n <= live[to] && n <= |Data(from)|
      modifies this, pool.words, memory
      ensures Valid() && live == old(live) - {from}
      ensures forall c {:trigger Data(c)} :: c in live && c != to ==> Data(c) == old(Data(c))
      ensures n <= |Data(to)| && Data(to)[..n] == old(Data(from))[..n]
    {
      DataSize(State(), live, memory[..], to);
      CopyBlock(to, from, n);
      Free(Some(from));
    }

    /** The memcpy() of realloc() */
    method CopyBlock(to: Block, from: Block, n: nat)
      requires Valid() && to in live && from in live && to != from && n <= |Data(to)| && n <= |Data(from)|
      modifies memory
      ensures Valid() && |Data(to)| == |old(Data(to))| && Data(to)[..n] == old(Data(from))[..n]
      ensures forall c {:trigger Data(c)} :: c in live && c != to ==> Data(c) == old(Data(c))
    {
      ghost var before := memory[..];
      CopyRanges(State(), live, before, to, from);
      Copy(memory, Address(to, arenas[to.page]), Address(from, arenas[from.page]), n);
      BlockCopied(State(), live, before, memory[..], to, from, n);
    }
  }

  lemma GivenAndTaken(live: map<Block, nat>, p: Option<Block>, b: Block, size: nat)
    requires p != Some(b)
    ensures live[b := size] - Given(p) == (live - Given(p))[b := size] && live - Given(None) == live
  {
  }

  /** A block that is to grow to `size` bytes, and has `room` already, does not fit in what malloc() gives for so many. */
  predicate Overruns(size: Size, room: nat) { size >= SIZES - 11 && room > PGSIZE - HEADER }

  lemma NewRoom(size: Size, room: nat)
    ensures Min(size, room) <= Granted(size) <==> !Overruns(size, room)
  {
    GrantedAll(size);
  }

  lemma CopyRanges(h: Heap, live: map<Block, nat>, memory: seq<bv8>, to: Block, from: Block)
    requires Inv(h, live) && to in live && from in live && to != from && |memory| == PGSIZE * |h.used|
    ensures to.page in h.arenas && from.page in h.arenas
    ensures var x, y := Address(to, h.arenas[to.page]), Address(from, h.arenas[from.page]);
      var r, s := |DataIn(memory, h.arenas, to)|, |DataIn(memory, h.arenas, from)|;
      x + r <= |memory| && y + s <= |memory| && (x + r <= y || y + s <= x)
  {
    BlocksAreDisjoint(h, live, to, from);
    DataSize(h, live, memory, to);
    DataSize(h, live, memory, from);
  }

  lemma BlockCopied(h: Heap, live: map<Block, nat>, before: seq<bv8>, after: seq<bv8>, to: Block, from: Block, n: nat)
    requires Inv(h, live) && to in live && from in live && to != from && |after| == |before| == PGSIZE * |h.used|
    requires to.page in h.arenas && from.page in h.arenas
    requires n <= |DataIn(before, h.arenas, to)| && n <= |DataIn(before, h.arenas, from)|
    requires var x, y := Address(to, h.arenas[to.page]), Address(from, h.arenas[from.page]);
      && y + n <= |before|
      && forall i :: 0 <= i < |before| ==> after[i] == before[if x <= i < x + n then y + (i - x) else i]
    ensures |DataIn(after, h.arenas, to)| == |DataIn(before, h.arenas, to)|
    ensures DataIn(after, h.arenas, to)[..n] == DataIn(before, h.arenas, from)[..n]
    ensures forall c {:trigger DataIn(after, h.arenas, c)} :: c in live && c != to ==> DataIn(after, h.arenas, c) == DataIn(before, h.arenas, c)
  {
    var x, y := Address(to, h.arenas[to.page]), Address(from, h.arenas[from.page]);
    DataSize(h, live, before, to);
    DataSize(h, live, before, from);
    DataSize(h, live, after, to);
    CopiedData(before, after, x, y, n);
    PrefixOf(after, x, Room(h.arenas[to.page]), n);
    PrefixOf(before, y, Room(h.arenas[from.page]), n);
    BlockIsClear(h, live, to);
    ElsewhereKept(before, after, h.arenas, live - {to}, x, Room(h.arenas[to.page]));
    forall c | c in live && c != to ensures DataIn(after, h.arenas, c) == DataIn(before, h.arenas, c) {
      assert c in live - {to};
    }
  }

  lemma DataSize(h: Heap, live: map<Block, nat>, memory: seq<bv8>, b: Block)
    requires Inv(h, live) && b in live && |memory| == PGSIZE * |h.used|
    ensures b.page in h.arenas && |DataIn(memory, h.arenas, b)| == Room(h.arenas[b.page]) >= live[b]
    ensures var x := Address(b, h.arenas[b.page]);
      x + Room(h.arenas[b.page]) <= |memory| && DataIn(memory, h.arenas, b) == memory[x..x + Room(h.arenas[b.page])]
  {
    WithinArena(h, live, b);
  }

  lemma PrefixOf(s: seq<bv8>, x: nat, room: nat, n: nat)
    requires n <= room && x + room <= |s|
    ensures s[x..x + room][..n] == s[x..x + n]
  {
  }

  lemma CopiedData(before: seq<bv8>, after: seq<bv8>, to: nat, from: nat, n: nat)
    requires |after| == |before| && to + n <= |before| && from + n <= |before|
    requires forall i :: 0 <= i < |before| ==> after[i] == before[if to <= i < to + n then from + (i - to) else i]
    ensures after[to..to + n] == before[from..from + n]
    ensures forall i {:trigger after[i]} :: 0 <= i < |before| && !(to <= i < to + n) ==> after[i] == before[i]
  {
    var a, b := after[to..to + n], before[from..from + n];
    forall i | 0 <= i < n ensures a[i] == b[i] { assert after[to + i] == before[from + i]; }
  }

  lemma SmallFreed(h: Heap, live: map<Block, nat>, b: Block, d: nat)
    requires Inv(h, live) && b in live && b.page in h.arenas && h.arenas[b.page].desc == Some(d) && d < |h.free|
    ensures var pushed, p := Push(h, d, b), b.page;
      && p < |h.used| && h.used[p] && NoDuplicates(pushed.free[d])
      && if pushed.arenas[p].freeCnt < BlocksPerArena(d) then Freed(h, b) == pushed
         else Freed(h, b) == DropArena(pushed, d, p) && Inv(DropArena(pushed, d, p), live - {b})
  {
    PushKeeps(h, live, d, b);
    FreeKeeps(h, live, b);
    assert ListAt(Push(h, d, b), d) && ArenaAt(h, b.page);
  }

  /** Putting a block back and filling it leaves the data of the others. */
  lemma PushData(h: Heap, live: map<Block, nat>, d: nat, b: Block, before: seq<bv8>, after: seq<bv8>)
    requires Inv(h, live) && b in live && b.page in h.arenas && h.arenas[b.page].desc == Some(d) && d < |h.free|
    requires |after| == |before|
    requires var x := Address(b, h.arenas[b.page]);
      forall i :: 0 <= i < |before| && !(x <= i < x + BlockSize(d)) ==> after[i] == before[i]
    ensures var arenas' := Push(h, d, b).arenas;
      forall c {:trigger DataIn(after, arenas', c)} :: c in live && c != b ==> DataIn(after, arenas', c) == DataIn(before, h.arenas, c)
  {
    BlockIsClear(h, live, b);
    ElsewhereKept(before, after, h.arenas, live - {b}, Address(b, h.arenas[b.page]), BlockSize(d));
    forall c | c in live && c != b ensures DataIn(after, Push(h, d, b).arenas, c) == DataIn(before, h.arenas, c) {
      assert c in live - {b} && LiveAt(h, live, c);
      RangesStay(h.arenas, Push(h, d, b).arenas, c);
    }
  }

  /** Dropping an arena leaves the data of the blocks in use elsewhere. */
  lemma DropArenaData(h: Heap, h': Heap, live: map<Block, nat>, p: nat, before: seq<bv8>, after: seq<bv8>)
    requires Inv(h', live) && p < |h'.used| && !h'.used[p] && h'.arenas == h.arenas - {p} && |after| == |before|
    requires forall i :: 0 <= i < |before| && !(PGSIZE * p <= i < PGSIZE * p + PGSIZE) ==> after[i] == before[i]
    ensures forall c {:trigger DataIn(after, h'.arenas, c)} :: c in live ==> DataIn(after, h'.arenas, c) == DataIn(before, h.arenas, c)
  {
    PagesAreClear(h', live, p, 1);
    ElsewhereKept(before, after, h'.arenas, live, PGSIZE * p, PGSIZE);
    forall c | c in live ensures DataIn(after, h'.arenas, c) == DataIn(before, h.arenas, c) {
      assert LiveAt(h', live, c);
      RangesStay(h.arenas, h'.arenas, c);
    }
  }

  /** malloc() does not move the blocks in use. */
  lemma MallocRanges(h: Heap, live: map<Block, nat>, size: Size, c: Block)
    requires Inv(h, live) && c in live
    ensures Range(Malloced(h, size).0.arenas, c) == Range(h.arenas, c)
  {
    var r := Malloced(h, size).1;
    assert LiveAt(h, live, c);
    if r.Some? {
      match DescFor(size, 0)
      case None => FreshPages(h, live, r.value.page, BigPages(size));
      case Some(d) =>
        if h.free[d] == [] {
          NewArenaRanges(h, live, d, PagesFor(h.used, 1).value, c);
        } else {
          PopRanges(h, live, d, c);
        }
    }
  }

  lemma PopRanges(h: Heap, live: map<Block, nat>, d: nat, c: Block)
    requires Inv(h, live) && c in live && d < DESCS && h.free[d] != []
    ensures Range(Pop(h, d).arenas, c) == Range(h.arenas, c)
  {
    assert LiveAt(h, live, c) && ListAt(h, d) && h.free[d][0] in h.free[d] && BlockOf(h.arenas, d, h.free[d][0]);
    RangesStay(h.arenas, Pop(h, d).arenas, c);
  }

  lemma NewArenaRanges(h: Heap, live: map<Block, nat>, d: nat, p: nat, c: Block)
    requires Inv(h, live) && c in live && d < DESCS && h.free[d] == [] && PagesFor(h.used, 1) == Some(p)
    ensures Range(Pop(AddArena(h, d, p), d).arenas, c) == Range(h.arenas, c)
  {
    assert LiveAt(h, live, c);
    FreshPages(h, live, p, 1);
    SomeBlocks(d);
    var arenas' := Pop(AddArena(h, d, p), d).arenas;
    assert c.page in arenas' && arenas'[c.page] == h.arenas[c.page];
    RangesStay(h.arenas, arenas', c);
  }
}
