/** In-place heap sort and binary search with a comparison function; stdlib.c. */
module Heapsort {
  import opened Common

  predicate Opposite<T>(compare: (T, T) -> int, a: T, b: T) {
    (compare(a, b) > 0) == (compare(b, a) < 0) && (compare(b, a) > 0) == (compare(a, b) < 0)
  }

  predicate Chained<T>(compare: (T, T) -> int, a: T, b: T, c: T) {
    compare(a, b) <= 0 && compare(b, c) <= 0 ==> compare(a, c) <= 0
  }

  /** `compare` is a strcmp()-type function: it orders elements, perhaps putting several in the same place. */
  ghost predicate Ordering<T(!new)>(compare: (T, T) -> int) {
    && (forall a, b {:trigger Opposite(compare, a, b)} :: Opposite(compare, a, b))
    && (forall a, b, c {:trigger Chained(compare, a, b, c)} :: Chained(compare, a, b, c))
  }

  ghost predicate InOrder<T>(compare: (T, T) -> int, s: seq<T>, i: nat, j: nat) {
    i < |s| && j < |s| ==> compare(s[i], s[j]) <= 0
  }

  ghost predicate Sorted<T>(compare: (T, T) -> int, s: seq<T>) {
    forall i: nat, j: nat {:trigger InOrder(compare, s, i, j)} :: i < j ==> InOrder(compare, s, i, j)
  }

  // ----- heaps, in which the children of 1-based element j are elements 2*j and 2*j + 1

  /** Element `j` is not greater than its parent. */
  ghost predicate UnderParent<T>(compare: (T, T) -> int, s: seq<T>, j: nat) {
    2 <= j <= |s| ==> compare(s[j - 1], s[j / 2 - 1]) <= 0
  }

  /** So it is for the first `cnt` elements whose parents are at `i` or further on. */
  ghost predicate HeapFrom<T>(compare: (T, T) -> int, s: seq<T>, i: nat, cnt: nat) {
    forall j: nat {:trigger UnderParent(compare, s, j)} :: i <= j / 2 && j <= cnt ==> UnderParent(compare, s, j)
  }

  ghost predicate NotAbove<T>(compare: (T, T) -> int, s: seq<T>, j: nat, x: T) {
    1 <= j <= |s| ==> compare(s[j - 1], x) <= 0
  }

  /** No child of `c` is greater than `x`. */
  ghost predicate ChildrenBelow<T>(compare: (T, T) -> int, s: seq<T>, c: nat, cnt: nat, x: T) {
    forall j: nat {:trigger NotAbove(compare, s, j, x)} :: j / 2 == c && j <= cnt ==> NotAbove(compare, s, j, x)
  }

  /** A heap from `i` on, but for the children of `c`, which still are not greater than the parent of `c` */
  ghost predicate FloatingAt<T>(compare: (T, T) -> int, s: seq<T>, i: nat, cnt: nat, c: nat) {
    && (forall j: nat {:trigger UnderParent(compare, s, j)} :: i <= j / 2 && j <= cnt && j / 2 != c ==> UnderParent(compare, s, j))
    && (i <= c / 2 && 2 <= c <= |s| ==> ChildrenBelow(compare, s, c, cnt, s[c / 2 - 1]))
  }

  lemma {:induction false} RootIsGreatest<T(!new)>(compare: (T, T) -> int, s: seq<T>, cnt: nat, j: nat)
    requires Ordering(compare) && HeapFrom(compare, s, 1, cnt) && 1 <= j <= cnt <= |s|
    ensures compare(s[j - 1], s[0]) <= 0
  {
    if j == 1 {
      assert Opposite(compare, s[0], s[0]);
    } else {
      RootIsGreatest(compare, s, cnt, j / 2);
      assert UnderParent(compare, s, j) && Chained(compare, s[j - 1], s[j / 2 - 1], s[0]);
    }
  }

  ghost function Swapped<T>(s: seq<T>, a: nat, b: nat): seq<T>
    requires 1 <= a <= |s| && 1 <= b <= |s|
  {
    s[a - 1 := s[b - 1]][b - 1 := s[a - 1]]
  }

  /** Floating one level down: `m` is a child of `c` that is greater than `c` and not less than the other child. */
  lemma FloatsDown<T>(compare: (T, T) -> int, s: seq<T>, i: nat, cnt: nat, c: nat, m: nat)
    requires 1 <= i <= c < m <= cnt <= |s| && m / 2 == c && FloatingAt(compare, s, i, cnt, c)
    requires compare(s[c - 1], s[m - 1]) <= 0 && ChildrenBelow(compare, s, c, cnt, s[m - 1])
    ensures FloatingAt(compare, Swapped(s, c, m), i, cnt, m)
  {
    var t, x := Swapped(s, c, m), s[m - 1];
    forall j: nat | i <= j / 2 && j <= cnt && j / 2 != m ensures UnderParent(compare, t, j) {
      if j == c {
        assert NotAbove(compare, s, m, s[c / 2 - 1]);
      } else if j / 2 == c {
        assert NotAbove(compare, s, j, x);
      } else {
        assert UnderParent(compare, s, j);
      }
    }
    forall j: nat | j / 2 == m && j <= cnt ensures NotAbove(compare, t, j, x) {
      assert UnderParent(compare, s, j);
    }
  }

  /** Once no child of `c` is greater than `c`, the heap is restored. */
  lemma FloatedDown<T>(compare: (T, T) -> int, s: seq<T>, i: nat, cnt: nat, c: nat)
    requires cnt <= |s| && 1 <= i <= c <= |s| && FloatingAt(compare, s, i, cnt, c)
    requires ChildrenBelow(compare, s, c, cnt, s[c - 1])
    ensures HeapFrom(compare, s, i, cnt)
  {
    forall j: nat | i <= j / 2 && j <= cnt ensures UnderParent(compare, s, j) {
      if j / 2 == c { assert NotAbove(compare, s, j, s[c - 1]); }
    }
  }

  // ----- permutations of a prefix

  /** `t` has the first `cnt` elements of `s` in some order, and then the others as they are. */
  ghost predicate PrefixShuffled<T>(s: seq<T>, t: seq<T>, cnt: nat) {
    cnt <= |s| == |t| && t[cnt..] == s[cnt..] && multiset(t[..cnt]) == multiset(s[..cnt])
  }

  lemma SwapShuffles<T>(s: seq<T>, a: nat, b: nat, cnt: nat)
    requires 1 <= a <= cnt && 1 <= b <= cnt && cnt <= |s|
    ensures PrefixShuffled(s, Swapped(s, a, b), cnt)
  {
    assert Swapped(s, a, b)[..cnt] == Swapped(s[..cnt], a, b);
  }

  lemma PrefixAll<T>(s: seq<T>, t: seq<T>, cnt: nat)
    requires PrefixShuffled(s, t, cnt)
    ensures multiset(t) == multiset(s)
  {
    assert s == s[..cnt] + s[cnt..] && t == t[..cnt] + t[cnt..];
  }

  /** What is not greater than the rest stays so when shuffled. */
  lemma StillBelow<T(!new)>(compare: (T, T) -> int, s: seq<T>, t: seq<T>, cnt: nat, x: T)
    requires PrefixShuffled(s, t, cnt) && forall p :: 0 <= p < cnt ==> compare(s[p], x) <= 0
    ensures forall p :: 0 <= p < cnt ==> compare(t[p], x) <= 0
  {
    forall p | 0 <= p < cnt ensures compare(t[p], x) <= 0 {
      assert t[..cnt][p] in multiset(t[..cnt]);
      assert t[p] in s[..cnt];
      var q :| 0 <= q < cnt && s[..cnt][q] == t[p];
    }
  }

  // ----- the algorithms

  method Swap<T>(items: array<T>, i: nat, j: nat)
    requires 1 <= i <= items.Length && 1 <= j <= items.Length
    modifies items
    ensures items[..] == Swapped(old(items[..]), i, j)
  {
    items[i - 1], items[j - 1] := items[j - 1], items[i - 1];
  }

  /** The greatest of element `i` and its children */
  method Greatest<T(!new)>(items: array<T>, i: nat, cnt: nat, compare: (T, T) -> int) returns (max: nat)
    requires Ordering(compare) && 1 <= i <= cnt <= items.Length
    ensures i <= max <= cnt && (max != i ==> max / 2 == i && compare(items[max - 1], items[i - 1]) > 0)
    ensures ChildrenBelow(compare, items[..], i, cnt, items[max - 1])
  {
    var left, right := 2 * i, 2 * i + 1;
    max := i;
    if left <= cnt && compare(items[left - 1], items[max - 1]) > 0 {
      max := left;
    }
    ghost var first := max;
    if right <= cnt && compare(items[right - 1], items[max - 1]) > 0 {
      assert Opposite(compare, items[i - 1], items[first - 1]) && Chained(compare, items[right - 1], items[i - 1], items[first - 1]);
      max := right;
    }
    forall j: nat | j / 2 == i && j <= cnt ensures NotAbove(compare, items[..], j, items[max - 1]) {
      assert j == left || j == right;
      assert Opposite(compare, items[j - 1], items[j - 1]) && Opposite(compare, items[max - 1], items[first - 1]);
      assert Chained(compare, items[left - 1], items[first - 1], items[max - 1]);
    }
  }

  /** heapify() floats element `i0` down. */
  method Heapify<T(!new)>(items: array<T>, i0: nat, cnt: nat, compare: (T, T) -> int)
    requires Ordering(compare) && 1 <= i0 <= cnt <= items.Length && HeapFrom(compare, items[..], i0 + 1, cnt)
    modifies items
    ensures HeapFrom(compare, items[..], i0, cnt) && PrefixShuffled(old(items[..]), items[..], cnt)
  {
    var i := i0;
    while true
      invariant i0 <= i <= cnt && FloatingAt(compare, items[..], i0, cnt, i)
      invariant PrefixShuffled(old(items[..]), items[..], cnt)
      decreases cnt - i
    {
      var max := Greatest(items, i, cnt, compare);
      if max == i {
        FloatedDown(compare, items[..], i0, cnt, i);
        break;
      }
      ghost var s := items[..];
      assert Opposite(compare, s[max - 1], s[i - 1]);
      FloatsDown(compare, s, i0, cnt, i, max);
      SwapShuffles(s, i, max, cnt);
      Swap(items, i, max);
      i := max;
    }
  }

  /** A heap of the first `i` elements, and above it the others in order */
  ghost predicate PartSorted<T>(compare: (T, T) -> int, s: seq<T>, i: nat) {
    && i <= |s| && HeapFrom(compare, s, 1, i) && Sorted(compare, s[i..])
    && forall p: nat, q: nat {:trigger InOrder(compare, s, p, q)} :: p < i <= q ==> InOrder(compare, s, p, q)
  }

  /** Taking the root out of the heap: `s` becomes `t` by the swap, and `t` becomes `u` by heapify(). */
  lemma RootTaken<T(!new)>(compare: (T, T) -> int, s: seq<T>, t: seq<T>, u: seq<T>, i: nat)
    requires Ordering(compare) && PartSorted(compare, s, i) && 2 <= i && t == Swapped(s, 1, i)
    requires PrefixShuffled(t, u, i - 1) && HeapFrom(compare, u, 1, i - 1)
    ensures PartSorted(compare, u, i - 1)
  {
    forall q | i - 1 <= q < |s| ensures u[q] == t[q] { assert u[i - 1..][q - (i - 1)] == t[i - 1..][q - (i - 1)]; }
    forall p: nat, q: nat | p < i - 1 <= q ensures InOrder(compare, u, p, q) {
      if q < |s| {
        forall p | 0 <= p < i - 1 ensures compare(t[p], t[q]) <= 0 {
          if q == i - 1 {
            RootIsGreatest(compare, s, i, if p == 0 then i else p + 1);
          } else {
            assert InOrder(compare, s, if p == 0 then i - 1 else p, q);
          }
        }
        StillBelow(compare, t, u, i - 1, t[q]);
      }
    }
    var v, w := u[i - 1..], s[i..];
    forall a: nat, b: nat | a < b ensures InOrder(compare, v, a, b) {
      if b < |v| {
        assert v[b] == w[b - 1] && (a > 0 ==> v[a] == w[a - 1]) && (a == 0 ==> v[a] == s[0]);
        assert a > 0 ==> InOrder(compare, w, a - 1, b - 1);
        assert InOrder(compare, s, 0, i - 1 + b);
      }
    }
  }

  /** Swapping the root with the last element leaves a heap below the root. */
  lemma StillHeap<T>(compare: (T, T) -> int, s: seq<T>, i: nat)
    requires HeapFrom(compare, s, 1, i) && 2 <= i <= |s|
    ensures HeapFrom(compare, Swapped(s, 1, i), 2, i - 1)
  {
    forall j: nat | 2 <= j / 2 && j <= i - 1 ensures UnderParent(compare, Swapped(s, 1, i), j) {
      assert UnderParent(compare, s, j);
    }
  }

  /** One turn of the second loop of sort() */
  method TakeRoot<T(!new)>(items: array<T>, i: nat, compare: (T, T) -> int)
    requires Ordering(compare) && 2 <= i && PartSorted(compare, items[..], i)
    modifies items
    ensures PartSorted(compare, items[..], i - 1) && multiset(items[..]) == multiset(old(items[..]))
  {
    ghost var s := items[..];
    StillHeap(compare, s, i);
    Swap(items, 1, i);
    ghost var t := items[..];
    Heapify(items, 1, i - 1, compare);
    RootTaken(compare, s, t, items[..], i);
    SameElements(s, t, items[..], i);
  }

  lemma SameElements<T>(s: seq<T>, t: seq<T>, u: seq<T>, i: nat)
    requires 1 <= i <= |s| && t == Swapped(s, 1, i) && PrefixShuffled(t, u, i - 1)
    ensures multiset(u) == multiset(s)
  {
    SwapShuffles(s, 1, i, i);
    PrefixAll(s, t, i);
    PrefixAll(t, u, i - 1);
  }

  /** With at most one element left in the heap everything is in order. */
  lemma AllTaken<T>(compare: (T, T) -> int, s: seq<T>, i: nat)
    requires PartSorted(compare, s, i) && i <= 1
    ensures Sorted(compare, s)
  {
    forall a: nat, b: nat | a < b ensures InOrder(compare, s, a, b) {
      if i <= a && b < |s| {
        assert s[a] == s[i..][a - i] && s[b] == s[i..][b - i] && InOrder(compare, s[i..], a - i, b - i);
      }
    }
  }

  /** sort() */
  method Sort<T(!new)>(items: array<T>, compare: (T, T) -> int)
    requires Ordering(compare)
    modifies items
    ensures Sorted(compare, items[..]) && multiset(items[..]) == multiset(old(items[..]))
  {
    var cnt := items.Length;
    var i := cnt / 2;
    while i > 0
      invariant 0 <= i <= cnt / 2 && HeapFrom(compare, items[..], i + 1, cnt)
      invariant multiset(items[..]) == multiset(old(items[..]))
    {
      ghost var s := items[..];
      Heapify(items, i, cnt, compare);
      PrefixAll(s, items[..], cnt);
      i := i - 1;
    }
    i := cnt;
    while i > 1
      invariant 0 <= i <= cnt && PartSorted(compare, items[..], i)
      invariant multiset(items[..]) == multiset(old(items[..]))
    {
      TakeRoot(items, i, compare);
      i := i - 1;
    }
    AllTaken(compare, items[..], i);
  }

  /** binary_search() */
  method BinarySearch<T(!new)>(key: T, items: array<T>, compare: (T, T) -> int) returns (r: Option<nat>)
    requires Ordering(compare) && Sorted(compare, items[..])
    ensures r.Some? ==> r.value < items.Length && compare(key, items[r.value]) == 0
    ensures r.None? ==> forall k :: 0 <= k < items.Length ==> compare(key, items[k]) != 0
  {
    var first, last := 0, items.Length;
    while first < last
      invariant 0 <= first <= last <= items.Length
      invariant forall k :: 0 <= k < first ==> compare(key, items[k]) > 0
      invariant forall k :: last <= k < items.Length ==> compare(key, items[k]) < 0
    {
      var range := last - first;
      var middle := first + range / 2;
      var cmp := compare(key, items[middle]);
      ghost var s := items[..];
      if cmp < 0 {
        forall k | middle <= k < last ensures compare(key, items[k]) < 0 { Further(compare, s, key, middle, k); }
        last := middle;
      } else if cmp > 0 {
        forall k | first <= k <= middle ensures compare(key, items[k]) > 0 { Further(compare, s, key, k, middle); }
        first := middle + 1;
      } else {
        return Some(middle);
      }
    }
    return None;
  }

  /** In a sorted sequence a key below one element is below all later ones, and a key above one is above all earlier. */
  lemma Further<T(!new)>(compare: (T, T) -> int, s: seq<T>, key: T, i: nat, j: nat)
    requires Ordering(compare) && Sorted(compare, s) && i <= j < |s|
    ensures compare(key, s[i]) < 0 ==> compare(key, s[j]) < 0
    ensures compare(key, s[j]) > 0 ==> compare(key, s[i]) > 0
  {
    assert i < j ==> InOrder(compare, s, i, j);
    assert Opposite(compare, key, s[i]) && Opposite(compare, key, s[j]);
    assert Chained(compare, s[i], s[j], key) && Chained(compare, key, s[i], s[j]);
  }
}
