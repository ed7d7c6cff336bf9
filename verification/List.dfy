/** The intrusive doubly linked list of list.c, with its two sentinels. */
module LinkedList {
  import opened SortSpec

  class Elem {
    var prev: Elem?
    var next: Elem?
    constructor () { prev, next := null, null; }
  }

  /** What the links of the element at `k` are in a linked chain. */
  function Before(c: seq<Elem>, k: nat): Elem?
    requires k < |c|
  {
    if k == 0 then null else c[k - 1]
  }

  function After(c: seq<Elem>, k: nat): Elem?
    requires k < |c|
  {
    if k == |c| - 1 then null else c[k + 1]
  }

  ghost predicate LinkAt(c: seq<Elem>, k: int)
    reads c
  {
    0 <= k < |c| ==> c[k].prev == Before(c, k) && c[k].next == After(c, k)
  }

  /** `c` are the elements of a list from its head to its tail, both included. */
  ghost predicate Linked(c: seq<Elem>)
    reads c
  {
    |c| >= 2 && Distinct(c) && forall k {:trigger LinkAt(c, k)} :: LinkAt(c, k)
  }

  ghost predicate Owned(c: seq<Elem>, r: set<Elem>) { forall e :: e in c ==> e in r }

  // ----- the functions that work on elements; `c` is the chain before

  /** The links of `c[x]` once those from `j` to `k` (exclusive) are spliced in before `i`. */
  ghost predicate SplicedAt(c: seq<Elem>, i: nat, j: nat, k: nat, x: int)
    requires 0 < i < j < k < |c|
    reads c
  {
    0 <= x < |c| ==>
      && c[x].prev == (if x == i then c[k - 1] else if x == j then c[i - 1] else if x == k then c[j - 1]
                       else Before(c, x))
      && c[x].next == (if x == i - 1 then c[j] else if x == k - 1 then c[i] else if x == j - 1 then c[k]
                       else After(c, x))
  }

  lemma SplicedIsLinked(c: seq<Elem>, i: nat, j: nat, k: nat)
    requires 0 < i < j < k < |c| && Distinct(c)
    requires forall x {:trigger SplicedAt(c, i, j, k, x)} :: SplicedAt(c, i, j, k, x)
    ensures Linked(Moved(c, i, j, k))
  {
    var d := Moved(c, i, j, k);
    MovedIsDistinct(c, i, j, k);
    forall x ensures LinkAt(d, x) {
      if 0 <= x < |c| {
        var y := MovedFrom(i, j, k, x);
        assert SplicedAt(c, i, j, k, y) && d[x] == c[y];
        assert d[x].prev == Before(d, x);
        assert d[x].next == After(d, x);
      }
    }
  }

  /** The links of `e` after list_splice(), with its own before, and with what is before `first`, `last` and `before` */
  function NewPrev(e: Elem, prev: Elem?, before: Elem, first: Elem, last: Elem, fp: Elem?, lp: Elem?, bp: Elem?): Elem? {
    if first == last then prev
    else if e == before then lp
    else if e == first then if before == last then fp else bp
    else if e == last then fp
    else prev
  }

  function NewNext(e: Elem, next: Elem?, before: Elem, first: Elem, last: Elem, fp: Elem?, lp: Elem?, bp: Elem?): Elem? {
    if first == last then next
    else if e == (if before == last then fp else bp) then first
    else if e == lp then before
    else if e == fp then last
    else next
  }

  /** list_splice() */
  method Splice(before: Elem, first: Elem, last: Elem, ghost r: set<Elem>)
    requires before in r && first in r && last in r && before.prev in r
    requires first != last ==> first.prev in r && last.prev in r && last.prev.next == last
    modifies r
    ensures forall e {:trigger e.prev} {:trigger e.next} :: e in r ==>
      && e.prev == NewPrev(e, old(e.prev), before, first, last, old(first.prev), old(last.prev), old(before.prev))
      && e.next == NewNext(e, old(e.next), before, first, last, old(first.prev), old(last.prev), old(before.prev))
  {
    if first == last {
      return;
    }
    var lst := last.prev;
    first.prev.next := lst.next;
    lst.next.prev := first.prev;

    first.prev := before.prev;
    lst.next := before;
    before.prev.next := first;
    before.prev := lst;
  }

  /** The links around `i`, `j` and `k` */
  lemma LinksHere(c: seq<Elem>, i: nat, j: nat, k: nat)
    requires Linked(c) && 0 < i < |c| && 0 < j <= k < |c|
    ensures c[i].prev == c[i - 1] && c[j].prev == c[j - 1] && c[k].prev == c[k - 1] && c[k - 1].next == c[k]
  {
    assert LinkAt(c, i) && LinkAt(c, j) && LinkAt(c, k) && LinkAt(c, k - 1);
  }

  /** Within one list, towards its front */
  method SpliceForward(before: Elem, first: Elem, last: Elem,
                       ghost c: seq<Elem>, ghost r: set<Elem>, ghost i: nat, ghost j: nat, ghost k: nat)
    requires Linked(c) && Owned(c, r) && 0 < i < j <= k < |c|
    requires before == c[i] && first == c[j] && last == c[k]
    modifies r
    ensures Linked(Moved(c, i, j, k))
  {
    Differ(c, j, k);
    LinksHere(c, i, j, k);
    assert Owns(c, r, i - 1) && Owns(c, r, j - 1) && Owns(c, r, k - 1);
    Splice(before, first, last, r);
    if j == k {
      MovedNothing(c, i, j);
      forall x ensures LinkAt(c, x) {
        assert old(LinkAt(c, x)) && Owns(c, r, x);
      }
    } else {
      Differ(c, i, k);
      forall x ensures SplicedAt(c, i, j, k, x) {
        assert old(LinkAt(c, x)) && Owns(c, r, x);
        if 0 <= x < |c| { SpliceDiffers(c, i, j, k, x); }
      }
      SplicedIsLinked(c, i, j, k);
    }
  }

  /** Within one list, towards its back: the elements between change places with those moved. */
  method SpliceBackward(before: Elem, first: Elem, last: Elem,
                        ghost c: seq<Elem>, ghost r: set<Elem>, ghost j: nat, ghost k: nat, ghost i: nat)
    requires Linked(c) && Owned(c, r) && 0 < j <= k <= i < |c|
    requires before == c[i] && first == c[j] && last == c[k]
    modifies r
    ensures Linked(Moved(c, j, k, i))
  {
    Differ(c, j, k);
    Differ(c, i, k);
    LinksHere(c, i, j, k);
    assert Owns(c, r, i - 1) && Owns(c, r, j - 1) && Owns(c, r, k - 1);
    Splice(before, first, last, r);
    if j < k < i {
      forall x ensures SplicedAt(c, j, k, i, x) {
        assert old(LinkAt(c, x)) && Owns(c, r, x);
        if 0 <= x < |c| { SpliceDiffers(c, j, k, i, x); }
      }
      SplicedIsLinked(c, j, k, i);
    } else {
      assert Moved(c, j, k, i) == c;
      forall x ensures LinkAt(c, x) {
        assert old(LinkAt(c, x)) && Owns(c, r, x);
        if 0 <= x < |c| && j < k { RangeDiffers(c, j, k, x); }
      }
    }
  }

  lemma RangeDiffers(c: seq<Elem>, j: nat, k: nat, x: nat)
    requires Distinct(c) && 0 < j < k < |c| && x < |c|
    ensures (c[x] == c[j] ==> x == j) && (c[x] == c[k] ==> x == k)
    ensures (c[x] == c[j - 1] ==> x == j - 1) && (c[x] == c[k - 1] ==> x == k - 1)
  {
    Differ(c, x, j);
    Differ(c, x, k);
    Differ(c, x, j - 1);
    Differ(c, x, k - 1);
  }

  ghost predicate Owns(c: seq<Elem>, r: set<Elem>, x: int) { 0 <= x < |c| ==> c[x] in r }

  // ----- taking elements out of a list and putting them into another

  function Taken<T>(c: seq<T>, j: nat, k: nat): seq<T>
    requires j <= k <= |c|
  {
    c[..j] + c[k..]
  }

  function Put<T>(b: seq<T>, i: nat, s: seq<T>): seq<T>
    requires i <= |b|
  {
    b[..i] + s + b[i..]
  }

  lemma TakenPut<T>(b: seq<T>, i: nat, s: seq<T>)
    requires i <= |b|
    ensures Taken(Put(b, i, s), i, i + |s|) == b
  {
  }

  /** The links of `c[x]` once those from `j` to `k` (exclusive) are taken out */
  ghost predicate TakenAt(c: seq<Elem>, j: nat, k: nat, x: int)
    requires 0 < j <= k < |c|
    reads c
  {
    0 <= x < j || k <= x < |c| ==>
      && c[x].prev == (if x == k then c[j - 1] else Before(c, x))
      && c[x].next == (if x == j - 1 then c[k] else After(c, x))
  }

  lemma TakenIsLinked(c: seq<Elem>, j: nat, k: nat)
    requires 0 < j <= k < |c| && Distinct(c) && forall x {:trigger TakenAt(c, j, k, x)} :: TakenAt(c, j, k, x)
    ensures Linked(Taken(c, j, k))
  {
    var d := Taken(c, j, k);
    forall x, y ensures DistinctAt(d, x, y) {
      if 0 <= x < y < |d| { Differ(c, if x < j then x else x + (k - j), if y < j then y else y + (k - j)); }
    }
    forall x ensures LinkAt(d, x) {
      assert TakenAt(c, j, k, if x < j then x else x + (k - j));
    }
  }

  lemma NotTaken(c: seq<Elem>, j: nat, e: Elem)
    requires Distinct(c) && j < |c| && e in Taken(c, j, j + 1)
    ensures e != c[j]
  {
    var d := Taken(c, j, j + 1);
    var x :| 0 <= x < |d| && d[x] == e;
    Differ(c, if x < j then x else x + 1, j);
  }

  /** The links of `b[x]` once `s` is put before `b[i]` */
  ghost predicate PutAt(b: seq<Elem>, i: nat, s: seq<Elem>, x: int)
    requires 0 < i < |b| && s != []
    reads b
  {
    0 <= x < |b| ==>
      && b[x].prev == (if x == i then s[|s| - 1] else Before(b, x))
      && b[x].next == (if x == i - 1 then s[0] else After(b, x))
  }

  /** The links of `s[x]` */
  ghost predicate SegmentAt(b: seq<Elem>, i: nat, s: seq<Elem>, x: int)
    requires 0 < i < |b|
    reads s
  {
    0 <= x < |s| ==>
      && s[x].prev == (if x == 0 then b[i - 1] else s[x - 1])
      && s[x].next == (if x == |s| - 1 then b[i] else s[x + 1])
  }

  ghost predicate Disjoint(b: seq<Elem>, s: seq<Elem>) {
    forall x, y :: 0 <= x < |b| && 0 <= y < |s| ==> b[x] != s[y]
  }

  lemma PutIsDistinct(b: seq<Elem>, i: nat, s: seq<Elem>)
    requires i < |b| && Distinct(b) && Distinct(s) && Disjoint(b, s)
    ensures Distinct(Put(b, i, s))
  {
    var d := Put(b, i, s);
    forall x, y ensures DistinctAt(d, x, y) {
      if 0 <= x < y < |d| {
        var x', y' := if x < i then x else x - |s|, if y < i then y else y - |s|;
        if !(i <= x < i + |s|) && !(i <= y < i + |s|) {
          Differ(b, x', y');
        } else if i <= x < y < i + |s| {
          Differ(s, x - i, y - i);
        }
      }
    }
  }

  lemma PutIsLinked(b: seq<Elem>, i: nat, s: seq<Elem>)
    requires 0 < i < |b| && s != [] && Distinct(b) && Distinct(s) && Disjoint(b, s)
    requires forall x {:trigger PutAt(b, i, s, x)} :: PutAt(b, i, s, x)
    requires forall x {:trigger SegmentAt(b, i, s, x)} :: SegmentAt(b, i, s, x)
    ensures Linked(Put(b, i, s))
  {
    var d := Put(b, i, s);
    PutIsDistinct(b, i, s);
    forall x ensures LinkAt(d, x) {
      if i <= x < i + |s| {
        assert SegmentAt(b, i, s, x - i);
      } else {
        assert PutAt(b, i, s, if x < i then x else x - |s|);
      }
    }
  }

  /** From one list to another */
  method SpliceAcross(before: Elem, first: Elem, last: Elem,
                      ghost b: seq<Elem>, ghost c: seq<Elem>, ghost r: set<Elem>, ghost i: nat, ghost j: nat, ghost k: nat)
    requires Linked(b) && Linked(c) && Owned(b, r) && Owned(c, r) && Disjoint(b, c) && 0 < i < |b| && 0 < j <= k < |c|
    requires before == b[i] && first == c[j] && last == c[k]
    modifies r
    ensures Linked(Put(b, i, c[j..k])) && Linked(Taken(c, j, k))
  {
    Differ(c, j, k);
    LinksHere(b, i, i, i);
    LinksHere(c, j, j, k);
    assert Owns(b, r, i - 1) && Owns(c, r, j - 1) && Owns(c, r, k - 1);
    Splice(before, first, last, r);
    if j == k {
      assert Put(b, i, c[j..k]) == b && Taken(c, j, k) == c;
      forall x ensures LinkAt(b, x) { assert old(LinkAt(b, x)) && Owns(b, r, x); }
      forall x ensures LinkAt(c, x) { assert old(LinkAt(c, x)) && Owns(c, r, x); }
    } else {
      ghost var s := c[j..k];
      forall x, y ensures DistinctAt(s, x, y) {
        if 0 <= x < y < |s| { Differ(c, j + x, j + y); }
      }
      forall x ensures TakenAt(c, j, k, x) {
        assert old(LinkAt(c, x)) && Owns(c, r, x);
        if 0 <= x < |c| { RangeDiffers(c, j, k, x); }
      }
      forall x ensures SegmentAt(b, i, s, x) {
        var y := j + x;
        assert old(LinkAt(c, y)) && Owns(c, r, y);
        if 0 <= x < |s| {
          RangeDiffers(c, j, k, y);
          assert s[x] == c[y] && (x > 0 ==> s[x - 1] == c[y - 1]) && (x + 1 < |s| ==> s[x + 1] == c[y + 1]);
        }
      }
      forall x ensures PutAt(b, i, s, x) {
        assert old(LinkAt(b, x)) && Owns(b, r, x);
        if 0 <= x < |b| {
          Differ(b, x, i);
          Differ(b, x, i - 1);
        }
      }
      PutIsLinked(b, i, s);
      TakenIsLinked(c, j, k);
    }
  }

  lemma SpliceDiffers(c: seq<Elem>, i: nat, j: nat, k: nat, x: nat)
    requires Distinct(c) && 0 < i < j < k < |c| && x < |c|
    ensures (c[x] == c[i] ==> x == i) && (c[x] == c[j] ==> x == j) && (c[x] == c[k] ==> x == k)
    ensures (c[x] == c[i - 1] ==> x == i - 1) && (c[x] == c[j - 1] ==> x == j - 1) && (c[x] == c[k - 1] ==> x == k - 1)
  {
    Differ(c, x, i);
    Differ(c, x, j);
    Differ(c, x, k);
    Differ(c, x, i - 1);
    Differ(c, x, j - 1);
    Differ(c, x, k - 1);
  }

  /** find_end_of_run() */
  method FindEndOfRun(a: Elem, b: Elem, less: (Elem, Elem) -> bool, ghost c: seq<Elem>, ghost i: nat, ghost m: nat)
    returns (r: Elem)
    requires Linked(c) && 0 < i < m < |c| && a == c[i] && b == c[m]
    ensures r == c[RunEnd(less, c, i, m)]
  {
    assert LinkAt(c, i) && LinkAt(c, i + 1);
    r := a.next;
    ghost var e := i + 1;
    Differ(c, e, m);
    while r != b && !less(r, r.prev)
      invariant i < e <= m && r == c[e] && r.prev == c[e - 1] && (r == b ==> e == m)
      invariant RunEnd(less, c, e - 1, m) == RunEnd(less, c, i, m)
      decreases m - e
    {
      assert LinkAt(c, e) && LinkAt(c, e + 1);
      r, e := r.next, e + 1;
      Differ(c, e, m);
    }
  }

  /** The move in the loop of inplace_merge(); returns the next element of the second run. */
  method MoveBefore(a0: Elem, a1b0: Elem, ghost c: seq<Elem>, ghost r: set<Elem>, ghost i: nat, ghost j: nat)
    returns (n: Elem)
    requires Linked(c) && Owned(c, r) && 0 < i < j < |c| - 1 && a0 == c[i] && a1b0 == c[j]
    modifies r
    ensures Linked(Moved(c, i, j, j + 1)) && n == c[j + 1]
  {
    assert LinkAt(c, j) && LinkAt(c, j + 1);
    n := a1b0.next;
    SpliceForward(a0, n.prev, n, c, r, i, j, j + 1);
  }

  /** inplace_merge() */
  method InplaceMerge(a: Elem, m: Elem, b1: Elem, less: (Elem, Elem) -> bool,
                      ghost c: seq<Elem>, ghost r: set<Elem>, ghost lo: nat, ghost mid: nat, ghost hi: nat)
    requires Linked(c) && Owned(c, r) && 0 < lo <= mid <= hi < |c| && a == c[lo] && m == c[mid] && b1 == c[hi]
    modifies r
    ensures Linked(Merge(less, c, lo, mid, hi))
  {
    var a0, a1b0 := a, m;
    ghost var i, j, d := lo, mid, c;
    Differ(d, i, j);
    Differ(d, j, hi);
    while a0 != a1b0 && a1b0 != b1
      invariant Linked(d) && Owned(d, r) && |d| == |c|
      invariant 0 < i <= j <= hi && a0 == d[i] && a1b0 == d[j] && b1 == d[hi]
      invariant (a0 == a1b0 ==> i == j) && (a1b0 == b1 ==> j == hi)
      invariant Merge(less, d, i, j, hi) == Merge(less, c, lo, mid, hi)
      decreases hi - i
    {
      if !less(a1b0, a0) {
        MergeStep(less, d, i, j, hi, d, i + 1, j);
        assert LinkAt(d, i);
        a0, i := a0.next, i + 1;
      } else {
        a1b0 := MoveBefore(a0, a1b0, d, r, i, j);
        ghost var d' := Moved(d, i, j, j + 1);
        MergeStep(less, d, i, j, hi, d', i + 1, j + 1);
        MovedOneKeeps(d, i, j, d');
        i, j, d := i + 1, j + 1, d';
      }
      Differ(d, i, j);
      Differ(d, j, hi);
    }
  }

  /** One pass of the loop of list_sort(), and the number of runs it outputs. */
  method SortPass(first: Elem, tail: Elem, less: (Elem, Elem) -> bool, ghost c: seq<Elem>, ghost r: set<Elem>)
    returns (cnt: nat)
    requires Linked(c) && Owned(c, r) && first == c[1] && tail == c[|c| - 1]
    modifies r
    ensures Linked(Pass(less, c, 1, 0).0) && cnt == Pass(less, c, 1, 0).1
  {
    ghost var m, p, d := |c| - 1, 1, c;
    var a0 := first;
    cnt := 0;
    Differ(d, p, m);
    while a0 != tail
      invariant Linked(d) && Owned(d, r) && |d| == |c|
      invariant 1 <= p <= m && a0 == d[p] && tail == d[m] && (a0 == tail ==> p == m)
      invariant Pass(less, d, p, cnt) == Pass(less, c, 1, 0)
      decreases m - p
    {
      var a1b0 := FindEndOfRun(a0, tail, less, d, p, m);
      Differ(d, RunEnd(less, d, p, m), m);
      if a1b0 == tail {
        cnt := cnt + 1;
        return;
      }
      ghost var e := RunEnd(less, d, p, m);
      var b1 := FindEndOfRun(a1b0, tail, less, d, e, m);
      ghost var f := RunEnd(less, d, e, m);
      InplaceMerge(a0, a1b0, b1, less, d, r, p, e, f);
      MergeKeeps(less, d, p, e, f);
      cnt := cnt + 1;
      a0, p, d := b1, f, Merge(less, d, p, e, f);
      Differ(d, p, m);
    }
  }

  /** The loop of list_sort() */
  method SortChain(head: Elem, tail: Elem, less: (Elem, Elem) -> bool,
                   ghost c: seq<Elem>, ghost r: set<Elem>, ghost u: set<Elem>) returns (ghost d: seq<Elem>)
    requires Linked(c) && Owned(c, r) && head == c[0] && tail == c[|c| - 1] && u <= r
    requires Order(less, u) && Within(c, 1, |c| - 1, u)
    modifies r
    ensures Linked(d) && Owned(d, r) && Rearranged(less, u, c, 1, |c| - 1, d)
    ensures Runs(less, d[1..|d| - 1]) <= 1
  {
    d := c;
    ghost var runs := Runs(less, c[1..|c| - 1]);
    while true
      invariant Linked(d) && Owned(d, r) && Rearranged(less, u, c, 1, |c| - 1, d)
      invariant runs == Runs(less, d[1..|d| - 1])
      decreases runs
    {
      assert LinkAt(d, 0);
      var cnt := SortPass(head.next, tail, less, d, r);
      PassSummary(less, u, d);
      ghost var d' := Pass(less, d, 1, 0).0;
      RearrangedTrans(less, u, c, 1, |c| - 1, d, d');
      d, runs := d', Runs(less, d'[1..|d'| - 1]);
      if cnt <= 1 {
        break;
      }
    }
  }

  /** The interior of `c` backwards, between the same sentinels. */
  function Flipped<T>(c: seq<T>): seq<T> {
    seq(|c|, x requires 0 <= x < |c| => if x == 0 || x == |c| - 1 then c[x] else c[|c| - 1 - x])
  }

  /** The links of `c[x]` when the interior elements before `k` have had theirs exchanged. */
  ghost predicate SwappedAt(c: seq<Elem>, k: nat, x: int)
    reads c
  {
    0 <= x < |c| ==>
      if 1 <= x < k then c[x].prev == After(c, x) && c[x].next == Before(c, x)
      else c[x].prev == Before(c, x) && c[x].next == After(c, x)
  }

  /** The loop of list_reverse() */
  method SwapLinks(first: Elem, tail: Elem, ghost c: seq<Elem>, ghost r: set<Elem>)
    requires Linked(c) && Owned(c, r) && first == c[1] && tail == c[|c| - 1]
    modifies r
    ensures forall x {:trigger SwappedAt(c, |c| - 1, x)} :: SwappedAt(c, |c| - 1, x)
  {
    var e := first;
    ghost var k, m := 1, |c| - 1;
    Differ(c, k, m);
    forall x ensures SwappedAt(c, k, x) { assert LinkAt(c, x); }
    while e != tail
      invariant 1 <= k <= m && e == c[k] && (e == tail ==> k == m)
      invariant forall x {:trigger SwappedAt(c, k, x)} :: SwappedAt(c, k, x)
      decreases m - k
    {
      label start:
      assert SwappedAt(c, k, k);
      e.prev, e.next := e.next, e.prev;
      ghost var k' := k + 1;
      forall x ensures SwappedAt(c, k', x) {
        assert old@start(SwappedAt(c, k, x));
        if 0 <= x < |c| { Differ(c, x, k); }
      }
      e, k := e.prev, k';
      Differ(c, k, m);
    }
  }

  /** list_reverse() */
  method ReverseChain(head: Elem, tail: Elem, ghost c: seq<Elem>, ghost r: set<Elem>)
    requires Linked(c) && Owned(c, r) && head == c[0] && tail == c[|c| - 1]
    modifies r
    ensures Linked(Flipped(c))
  {
    ghost var m := |c| - 1;
    assert LinkAt(c, 0);
    Differ(c, 1, m);
    if head.next != tail {
      SwapLinks(head.next, tail, c, r);
      assert SwappedAt(c, m, 0) && SwappedAt(c, m, 1) && SwappedAt(c, m, m - 1) && SwappedAt(c, m, m);
      Differ(c, 0, m);
      Differ(c, 0, 1);
      Differ(c, 0, m - 1);
      Differ(c, m, 1);
      Differ(c, m, m - 1);
      label swapped:
      head.next, tail.prev := tail.prev, head.next;
      head.next.prev, tail.prev.next := tail.prev.next, head.next.prev;
      forall x ensures ReversedAt(c, x) {
        assert old@swapped(SwappedAt(c, m, x));
        if 0 <= x < |c| { EndsDiffer(c, x); }
      }
      ReversedIsLinked(c);
    } else {
      assert Flipped(c) == c;
    }
  }

  /** The links of `c[x]` in the reversed list. */
  ghost predicate ReversedAt(c: seq<Elem>, x: int)
    reads c
  {
    0 <= x < |c| && |c| >= 3 ==>
      var m := |c| - 1;
      && c[x].prev == (if x == 0 then null else if x == m then c[1] else if x == m - 1 then c[0] else c[x + 1])
      && c[x].next == (if x == m then null else if x == 0 then c[m - 1] else if x == 1 then c[m] else c[x - 1])
  }

  lemma EndsDiffer(c: seq<Elem>, x: nat)
    requires Distinct(c) && |c| >= 3 && x < |c|
    ensures (c[x] == c[0] ==> x == 0) && (c[x] == c[1] ==> x == 1)
    ensures (c[x] == c[|c| - 2] ==> x == |c| - 2) && (c[x] == c[|c| - 1] ==> x == |c| - 1)
  {
    Differ(c, x, 0);
    Differ(c, x, 1);
    Differ(c, x, |c| - 2);
    Differ(c, x, |c| - 1);
  }

  lemma ReversedIsLinked(c: seq<Elem>)
    requires |c| >= 3 && Distinct(c) && forall x {:trigger ReversedAt(c, x)} :: ReversedAt(c, x)
    ensures Linked(Flipped(c))
  {
    var d, m := Flipped(c), |c| - 1;
    forall x, y ensures DistinctAt(d, x, y) {
      if 0 <= x < y < |c| {
        Differ(c, if x == 0 || x == m then x else m - x, if y == 0 || y == m then y else m - y);
      }
    }
    forall x ensures LinkAt(d, x) {
      var y := if x == 0 || x == m then x else m - x;
      assert ReversedAt(c, y);
    }
  }

  lemma FlippedTwice<T>(c: seq<T>)
    ensures Flipped(Flipped(c)) == c
  {
  }

  // ----- lists

  class List {
    const head: Elem
    const tail: Elem
    ghost var chain: seq<Elem>
    ghost var repr: set<Elem>

    ghost predicate Valid()
      reads this, chain
    {
      Linked(chain) && Owned(chain, repr) && chain[0] == head && chain[|chain| - 1] == tail
    }

    /** The interior elements, front to back. */
    ghost function Elems(): seq<Elem>
      requires |chain| >= 2
      reads this
    {
      chain[1..|chain| - 1]
    }

    constructor ()
      ensures Valid() && Elems() == [] && fresh(repr)
    {
      var h: Elem := new Elem();
      var t: Elem := new Elem();
      head, tail := h, t;
      chain, repr := [h, t], {h, t};
      new;
      h.prev, h.next, t.prev, t.next := null, t, h, null;
      forall x, y ensures DistinctAt(chain, x, y) {}
      forall k ensures LinkAt(chain, k) {}
    }

    /** list_insert() */
    method Insert(before: Elem, elem: Elem, ghost i: nat)
      requires Valid() && elem !in chain && 0 < i < |chain| && before == chain[i]
      modifies this`chain, this`repr, repr, elem
      ensures Valid() && chain == Put(old(chain), i, [elem]) && repr == old(repr) + {elem}
    {
      ghost var b, s := chain, [elem];
      LinksHere(b, i, i, i);
      assert Owns(b, repr, i) && Owns(b, repr, i - 1);
      elem.prev := before.prev;
      elem.next := before;
      before.prev.next := elem;
      before.prev := elem;
      forall x, y ensures DistinctAt(s, x, y) {}
      forall x ensures SegmentAt(b, i, s, x) {}
      forall x ensures PutAt(b, i, s, x) {
        assert old(LinkAt(b, x));
        if 0 <= x < |b| {
          Differ(b, x, i);
          Differ(b, x, i - 1);
        }
      }
      PutIsLinked(b, i, s);
      chain, repr := Put(b, i, s), repr + {elem};
    }

    /** list_push_front() and list_push_back() */
    method PushFront(elem: Elem)
      requires Valid() && elem !in chain
      modifies this`chain, this`repr, repr, elem
      ensures Valid() && Elems() == [elem] + old(Elems()) && repr == old(repr) + {elem}
    {
      assert LinkAt(chain, 0);
      Insert(head.next, elem, 1);
    }

    method PushBack(elem: Elem)
      requires Valid() && elem !in chain
      modifies this`chain, this`repr, repr, elem
      ensures Valid() && Elems() == old(Elems()) + [elem] && repr == old(repr) + {elem}
    {
      Insert(tail, elem, |chain| - 1);
    }

    /** list_remove() */
    method Remove(elem: Elem, ghost j: nat) returns (next: Elem)
      requires Valid() && 0 < j < |chain| - 1 && elem == chain[j]
      modifies this`chain, this`repr, repr
      ensures Valid() && chain == Taken(old(chain), j, j + 1) && next == chain[j] && repr == old(repr) - {elem}
    {
      ghost var c, k := chain, j + 1;
      LinksHere(c, j, j, k);
      assert Owns(c, repr, k) && Owns(c, repr, j - 1);
      elem.prev.next := elem.next;
      elem.next.prev := elem.prev;
      next := elem.next;
      forall x ensures TakenAt(c, j, k, x) {
        assert old(LinkAt(c, x));
        if 0 <= x < |c| { RangeDiffers(c, j, k, x); }
      }
      TakenIsLinked(c, j, k);
      forall e | e in Taken(c, j, k) ensures e != elem { NotTaken(c, j, e); }
      chain, repr := Taken(c, j, k), repr - {elem};
    }

    /** Removing what was inserted restores every link of the others. */
    method InsertRemove(before: Elem, elem: Elem, ghost i: nat)
      requires Valid() && elem !in chain && 0 < i < |chain| && before == chain[i]
      modifies this`chain, this`repr, repr, elem
      ensures Valid() && chain == old(chain)
      ensures forall k :: 0 <= k < |chain| ==> chain[k].prev == old(chain[k].prev) && chain[k].next == old(chain[k].next)
    {
      ghost var c := chain;
      TakenPut(c, i, [elem]);
      Insert(before, elem, i);
      var next := Remove(elem, i);
      forall k | 0 <= k < |c| ensures c[k].prev == old(c[k].prev) && c[k].next == old(c[k].next) {
        assert LinkAt(c, k) && old(LinkAt(c, k));
      }
    }

    /** list_sort() */
    method Sort(less: (Elem, Elem) -> bool)
      requires Valid() && Order(less, set e | e in Elems())
      modifies this`chain, repr
      ensures Valid()
      ensures Sorted(less, Elems())
      ensures multiset(Elems()) == old(multiset(Elems()))
      ensures Stable(less, set e | e in old(Elems()), old(Elems()), Elems())
    {
      ghost var u := set e | e in Elems();
      ghost var d := SortChain(head, tail, less, chain, repr, u);
      OneRunIsStableSort(less, u, chain, d);
      ghost var was := Elems();
      chain := d;
      assert Elems() == d[1..|d| - 1] && Stable(less, u, was, Elems());
    }

    /** list_reverse() */
    method Reverse()
      requires Valid()
      modifies this`chain, repr
      ensures Valid() && chain == Flipped(old(chain))
      ensures |Elems()| == old(|Elems()|)
      ensures forall k :: 0 <= k < |Elems()| ==> Elems()[k] == old(Elems())[|Elems()| - 1 - k]
    {
      ReverseChain(head, tail, chain, repr);
      chain := Flipped(chain);
    }

    /** Reversing twice restores every link. */
    method ReverseTwice()
      requires Valid()
      modifies this`chain, repr
      ensures Valid() && chain == old(chain)
      ensures forall k :: 0 <= k < |chain| ==> chain[k].prev == old(chain[k].prev) && chain[k].next == old(chain[k].next)
    {
      ghost var c := chain;
      FlippedTwice(c);
      Reverse();
      Reverse();
      forall k | 0 <= k < |c| ensures c[k].prev == old(c[k].prev) && c[k].next == old(c[k].next) {
        assert LinkAt(c, k) && old(LinkAt(c, k));
      }
    }
  }
}
