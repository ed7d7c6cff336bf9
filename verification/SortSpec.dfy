/** Sequences under a strict weak order: sortedness, natural runs and stable rearrangement. */
module SortSpec {
  ghost predicate Asymmetric<T>(less: (T, T) -> bool, a: T, b: T) { less(a, b) ==> !less(b, a) }

  ghost predicate Transitive<T>(less: (T, T) -> bool, a: T, b: T, c: T) {
    !less(b, a) && !less(c, b) ==> !less(c, a)
  }

  /** The laws of a `less` function on the elements of `u`: a strict weak order. */
  ghost predicate Order<T>(less: (T, T) -> bool, u: set<T>) {
    && (forall a, b {:trigger Asymmetric(less, a, b)} :: a in u && b in u ==> Asymmetric(less, a, b))
    && (forall a, b, c {:trigger Transitive(less, a, b, c)} ::
          a in u && b in u && c in u ==> Transitive(less, a, b, c))
  }

  ghost predicate Sorted<T>(less: (T, T) -> bool, s: seq<T>) {
    forall i, j :: 0 <= i < j < |s| ==> !less(s[j], s[i])
  }

  /** The elements of `s` that `less` does not tell from `x`, in order. */
  function Class<T>(less: (T, T) -> bool, s: seq<T>, x: T): seq<T> {
    if s == [] then []
    else Class(less, s[..|s| - 1], x)
         + if !less(s[|s| - 1], x) && !less(x, s[|s| - 1]) then [s[|s| - 1]] else []
  }

  ghost predicate SameClass<T>(less: (T, T) -> bool, s: seq<T>, t: seq<T>, x: T) {
    Class(less, s, x) == Class(less, t, x)
  }

  /** Of the elements of `u`, equivalent ones are in `t` the same and in the same order as in `s`. */
  ghost predicate Stable<T>(less: (T, T) -> bool, u: set<T>, s: seq<T>, t: seq<T>) {
    |s| == |t| && forall x {:trigger SameClass(less, s, t, x)} :: x in u ==> SameClass(less, s, t, x)
  }

  // ----- natural runs

  /** The number of maximal nondecreasing runs. */
  function Runs<T>(less: (T, T) -> bool, s: seq<T>): nat {
    if |s| <= 1 then |s|
    else Runs(less, s[..|s| - 1]) + if less(s[|s| - 1], s[|s| - 2]) then 1 else 0
  }

  lemma {:induction false} RunsOfConcat<T>(less: (T, T) -> bool, a: seq<T>, b: seq<T>)
    requires a != [] && b != []
    ensures Runs(less, a + b) == Runs(less, a) + Runs(less, b) - if less(b[0], a[|a| - 1]) then 0 else 1
  {
    var s := a + b;
    if |b| == 1 {
      assert s[..|s| - 1] == a;
    } else {
      var b' := b[..|b| - 1];
      assert s[..|s| - 1] == a + b';
      RunsOfConcat(less, a, b');
    }
  }

  lemma {:induction false} OneRunIsSorted<T>(less: (T, T) -> bool, s: seq<T>, u: set<T>)
    requires Order(less, u) && (forall x :: x in s ==> x in u)
    requires forall k :: 0 < k < |s| ==> !less(s[k], s[k - 1])
    ensures Sorted(less, s)
  {
    if |s| > 1 {
      var t := s[..|s| - 1];
      OneRunIsSorted(less, t, u);
      forall i | 0 <= i < |s| - 1 ensures !less(s[|s| - 1], s[i]) {
        assert s[i] in s && s[|s| - 2] in s && s[|s| - 1] in s;
        assert Asymmetric(less, s[i], s[i]);
        assert i < |s| - 2 ==> !less(t[|s| - 2], t[i]);
        assert Transitive(less, s[i], s[|s| - 2], s[|s| - 1]);
      }
    }
  }

  lemma {:induction false} SortedIsOneRun<T>(less: (T, T) -> bool, s: seq<T>, u: set<T>)
    requires Order(less, u) && (forall x :: x in s ==> x in u)
    ensures Sorted(less, s) <==> Runs(less, s) <= 1
  {
    if |s| > 1 {
      var t := s[..|s| - 1];
      SortedIsOneRun(less, t, u);
      if Runs(less, s) <= 1 {
        RunsPositive(less, t);
        forall k | 0 < k < |s| ensures !less(s[k], s[k - 1]) {
          if k < |s| - 1 { assert t[k] == s[k]; }
        }
        OneRunIsSorted(less, s, u);
      }
    }
  }

  lemma {:induction false} RunsPositive<T>(less: (T, T) -> bool, s: seq<T>)
    ensures s != [] ==> Runs(less, s) > 0
  {
    if |s| > 1 { RunsPositive(less, s[..|s| - 1]); }
  }

  // ----- stable moves

  lemma {:induction false} ClassOfConcat<T>(less: (T, T) -> bool, a: seq<T>, b: seq<T>, x: T)
    ensures Class(less, a + b, x) == Class(less, a, x) + Class(less, b, x)
  {
    if b == [] {
      assert a + b == a;
    } else {
      var b' := b[..|b| - 1];
      assert (a + b)[..|a + b| - 1] == a + b';
      ClassOfConcat(less, a, b', x);
    }
  }

  lemma {:induction false} EmptyClass<T>(less: (T, T) -> bool, s: seq<T>, x: T)
    requires forall k :: 0 <= k < |s| ==> less(s[k], x) || less(x, s[k])
    ensures Class(less, s, x) == []
  {
    if s != [] { EmptyClass(less, s[..|s| - 1], x); }
  }

  lemma LeftMoveKeepsClass<T>(less: (T, T) -> bool, u: set<T>, b: seq<T>, x: T, y: T)
    requires Order(less, u) && x in u && y in u && (forall k :: 0 <= k < |b| ==> b[k] in u && less(x, b[k]))
    ensures Class(less, b, y) + Class(less, [x], y) == Class(less, [x], y) + Class(less, b, y)
  {
    if !less(x, y) && !less(y, x) {
      forall k | 0 <= k < |b| ensures less(y, b[k]) {
        assert Transitive(less, b[k], y, x);
      }
      EmptyClass(less, b, y);
    } else {
      EmptyClass(less, [x], y);
    }
  }

  /** Moving an element to the left over elements that are strictly greater is stable. */
  lemma LeftMoveIsStable<T>(less: (T, T) -> bool, u: set<T>, a: seq<T>, b: seq<T>, x: T, d: seq<T>)
    requires Order(less, u) && (forall y :: y in a + b + [x] + d ==> y in u)
    requires forall k :: 0 <= k < |b| ==> less(x, b[k])
    ensures Stable(less, u, a + b + [x] + d, a + [x] + b + d)
  {
    var s, t := a + b + [x] + d, a + [x] + b + d;
    assert s[|a| + |b|] == x;
    assert forall k :: 0 <= k < |b| ==> b[k] == s[|a| + k];
    forall y | y in u ensures SameClass(less, s, t, y) {
      ClassOf4(less, a, b, [x], d, y);
      ClassOf4(less, a, [x], b, d, y);
      LeftMoveKeepsClass(less, u, b, x, y);
    }
  }

  lemma ClassOf4<T>(less: (T, T) -> bool, a: seq<T>, b: seq<T>, c: seq<T>, d: seq<T>, y: T)
    ensures Class(less, a + b + c + d, y)
         == Class(less, a, y) + (Class(less, b, y) + Class(less, c, y)) + Class(less, d, y)
  {
    ClassOfConcat(less, a + b + c, d, y);
    ClassOfConcat(less, a + b, c, y);
    ClassOfConcat(less, a, b, y);
    Assoc(Class(less, a, y), Class(less, b, y), Class(less, c, y));
  }

  lemma Assoc<T>(a: seq<T>, b: seq<T>, c: seq<T>)
    ensures a + b + c == a + (b + c)
  {
  }

  lemma StableTrans<T>(less: (T, T) -> bool, u: set<T>, r: seq<T>, s: seq<T>, t: seq<T>)
    requires Stable(less, u, r, s) && Stable(less, u, s, t)
    ensures Stable(less, u, r, t)
  {
    forall x | x in u ensures SameClass(less, r, t, x) {
      assert SameClass(less, r, s, x) && SameClass(less, s, t, x);
    }
  }

  lemma CountMore<T>(s: seq<T>, e: T, x: T)
    ensures multiset(s + [e])[x] == multiset(s)[x] + if e == x then 1 else 0
  {
  }

  lemma {:induction false} CountInClass<T>(less: (T, T) -> bool, s: seq<T>, x: T)
    requires !less(x, x)
    ensures multiset(Class(less, s, x))[x] == multiset(s)[x]
  {
    if s != [] {
      var front, e := s[..|s| - 1], s[|s| - 1];
      CountInClass(less, front, x);
      assert s == front + [e];
      CountMore(front, e, x);
      CountMore(Class(less, front, x), e, x);
    }
  }

  /** A stable rearrangement within `u` is a permutation. */
  lemma StableIsPermutation<T>(less: (T, T) -> bool, u: set<T>, s: seq<T>, t: seq<T>)
    requires Order(less, u) && Stable(less, u, s, t) && (forall x :: x in s || x in t ==> x in u)
    ensures multiset(s) == multiset(t)
  {
    forall x | x in u ensures multiset(s)[x] == multiset(t)[x] {
      assert Asymmetric(less, x, x) && SameClass(less, s, t, x);
      CountInClass(less, s, x);
      CountInClass(less, t, x);
    }
  }

  // ----- moving a segment

  ghost predicate DistinctAt<T>(s: seq<T>, i: int, j: int) { 0 <= i < j < |s| ==> s[i] != s[j] }

  ghost predicate Distinct<T>(s: seq<T>) { forall i, j {:trigger DistinctAt(s, i, j)} :: DistinctAt(s, i, j) }

  lemma Differ<T>(s: seq<T>, i: nat, j: nat)
    requires Distinct(s) && i < |s| && j < |s|
    ensures s[i] == s[j] ==> i == j
  {
    assert DistinctAt(s, i, j) && DistinctAt(s, j, i);
  }

  /** Where the element at `x` comes from when those from `j` to `k` (exclusive) go to before `i`. */
  function MovedFrom(i: nat, j: nat, k: nat, x: nat): int
    requires i <= j <= k
  {
    if x < i || k <= x then x else if x < i + k - j then x - i + j else x - (k - j)
  }

  function Moved<T>(s: seq<T>, i: nat, j: nat, k: nat): seq<T>
    requires i <= j <= k <= |s|
  {
    seq(|s|, x requires 0 <= x < |s| => s[MovedFrom(i, j, k, x)])
  }

  lemma MovedNothing<T>(s: seq<T>, i: nat, j: nat)
    requires i <= j <= |s|
    ensures Moved(s, i, j, j) == s
  {
  }

  lemma MovedHasSameElements<T>(s: seq<T>, i: nat, j: nat, k: nat)
    requires i <= j <= k <= |s|
    ensures forall x :: x in Moved(s, i, j, k) ==> x in s
  {
  }

  lemma MovedIsDistinct<T>(s: seq<T>, i: nat, j: nat, k: nat)
    requires i <= j <= k <= |s| && Distinct(s)
    ensures Distinct(Moved(s, i, j, k))
  {
    forall x, y ensures DistinctAt(Moved(s, i, j, k), x, y) {
      if 0 <= x < y < |s| { Differ(s, MovedFrom(i, j, k, x), MovedFrom(i, j, k, y)); }
    }
  }

  // ----- merging two adjacent runs

  /** `c` from `lo` to `hi` is in order, except between its parts from `i` to `j` and from `j` on. */
  ghost predicate Merging<T>(less: (T, T) -> bool, c: seq<T>, lo: nat, i: nat, j: nat, hi: nat) {
    && lo <= i <= j <= hi <= |c|
    && forall x, y :: lo <= x < y < hi && !(i <= x < j <= y) ==> !less(c[y], c[x])
  }

  ghost predicate Within<T>(c: seq<T>, lo: nat, hi: nat, u: set<T>) {
    lo <= hi <= |c| && forall x :: lo <= x < hi ==> c[x] in u
  }

  lemma MergeSkip<T>(less: (T, T) -> bool, u: set<T>, c: seq<T>, lo: nat, i: nat, j: nat, hi: nat)
    requires Order(less, u) && Within(c, lo, hi, u) && Merging(less, c, lo, i, j, hi)
    requires i < j < hi && !less(c[j], c[i])
    ensures Merging(less, c, lo, i + 1, j, hi)
  {
    forall y | j <= y < hi ensures !less(c[y], c[i]) {
      assert y > j ==> !less(c[y], c[j]);
      assert Transitive(less, c[i], c[j], c[y]);
    }
  }

  lemma MergeMoveIsLeast<T>(less: (T, T) -> bool, u: set<T>, c: seq<T>, lo: nat, i: nat, j: nat, hi: nat, k: nat)
    requires Order(less, u) && Within(c, lo, hi, u) && Merging(less, c, lo, i, j, hi)
    requires i <= k < j < hi && less(c[j], c[i])
    ensures less(c[j], c[k])
  {
    assert k > i ==> !less(c[k], c[i]);
    assert Transitive(less, c[i], c[k], c[j]);
  }

  lemma MergeMovePair<T>(less: (T, T) -> bool, u: set<T>, c: seq<T>, lo: nat, i: nat, j: nat, hi: nat, x: nat, y: nat)
    requires Order(less, u) && Within(c, lo, hi, u) && Merging(less, c, lo, i, j, hi)
    requires i < j < hi && less(c[j], c[i])
    requires lo <= x < y < hi && !(i + 1 <= x < j + 1 <= y)
    ensures !less(c[MovedFrom(i, j, j + 1, y)], c[MovedFrom(i, j, j + 1, x)])
  {
    if x == i && y <= j {
      MergeMoveIsLeast(less, u, c, lo, i, j, hi, y - 1);
      assert Asymmetric(less, c[j], c[y - 1]);
    }
  }

  lemma MergeMove<T>(less: (T, T) -> bool, u: set<T>, c: seq<T>, lo: nat, i: nat, j: nat, hi: nat)
    requires Order(less, u) && Within(c, lo, hi, u) && Merging(less, c, lo, i, j, hi)
    requires i < j < hi && less(c[j], c[i])
    ensures Merging(less, Moved(c, i, j, j + 1), lo, i + 1, j + 1, hi)
  {
    var d := Moved(c, i, j, j + 1);
    forall x, y | lo <= x < y < hi && !(i + 1 <= x < j + 1 <= y) ensures !less(d[y], d[x]) {
      MergeMovePair(less, u, c, lo, i, j, hi, x, y);
    }
  }

  lemma MergeMoveIsStable<T>(less: (T, T) -> bool, u: set<T>, c: seq<T>, lo: nat, i: nat, j: nat, hi: nat)
    requires Order(less, u) && 1 <= lo <= i < j < hi < |c| && Within(c, 1, |c| - 1, u)
    requires Merging(less, c, lo, i, j, hi) && less(c[j], c[i])
    ensures Stable(less, u, c[1..|c| - 1], Moved(c, i, j, j + 1)[1..|c| - 1])
  {
    var n := |c| - 1;
    forall k | i <= k < j ensures less(c[j], c[k]) {
      MergeMoveIsLeast(less, u, c, lo, i, j, hi, k);
    }
    MovedInside(c, i, j, n);
    LeftMoveIsStable(less, u, c[1..i], c[i..j], c[j], c[j + 1..n]);
  }

  lemma MovedInside<T>(c: seq<T>, i: nat, j: nat, n: nat)
    requires 1 <= i < j < n <= |c|
    ensures c[1..n] == c[1..i] + c[i..j] + [c[j]] + c[j + 1..n]
    ensures Moved(c, i, j, j + 1)[1..n] == c[1..i] + [c[j]] + c[i..j] + c[j + 1..n]
  {
    var d, r := Moved(c, i, j, j + 1), c[1..i] + [c[j]] + c[i..j] + c[j + 1..n];
    assert |r| == n - 1;
    forall x | 0 <= x < n - 1 ensures d[1..n][x] == r[x] { assert d[1..n][x] == d[x + 1]; }
  }

  // ----- the sort, as functions of the whole chain `c`, whose last element is the tail

  /** The end (exclusive) of the natural run that starts at `i`; find_end_of_run(). */
  function RunEnd<T>(less: (T, T) -> bool, c: seq<T>, i: nat, m: nat): (e: nat)
    requires i < m < |c|
    ensures i < e <= m
    decreases m - i
  {
    if i + 1 == m || less(c[i + 1], c[i]) then i + 1 else RunEnd(less, c, i + 1, m)
  }

  /** The loop of inplace_merge() */
  function Merge<T>(less: (T, T) -> bool, c: seq<T>, i: nat, j: nat, hi: nat): (d: seq<T>)
    requires i <= j <= hi <= |c|
    ensures |d| == |c|
    decreases hi - i
  {
    if i == j || j == hi then c
    else if !less(c[j], c[i]) then Merge(less, c, i + 1, j, hi)
    else Merge(less, Moved(c, i, j, j + 1), i + 1, j + 1, hi)
  }

  lemma MergeStep<T>(less: (T, T) -> bool, c: seq<T>, i: nat, j: nat, hi: nat, d: seq<T>, i': nat, j': nat)
    requires i < j < hi <= |c|
    requires if less(c[j], c[i]) then d == Moved(c, i, j, j + 1) && i' == i + 1 && j' == j + 1
             else d == c && i' == i + 1 && j' == j
    ensures Merge(less, c, i, j, hi) == Merge(less, d, i', j', hi)
  {
  }

  /** A merge rearranges what is before `hi` and invents nothing. */
  lemma {:induction false} MergeKeeps<T>(less: (T, T) -> bool, c: seq<T>, i: nat, j: nat, hi: nat)
    requires i <= j <= hi <= |c|
    ensures var d := Merge(less, c, i, j, hi);
      (forall x :: hi <= x < |c| ==> d[x] == c[x]) && (forall x :: x in d ==> x in c)
    decreases hi - i
  {
    if i == j || j == hi {
    } else if !less(c[j], c[i]) {
      MergeKeeps(less, c, i + 1, j, hi);
    } else {
      MovedHasSameElements(c, i, j, j + 1);
      MergeKeeps(less, Moved(c, i, j, j + 1), i + 1, j + 1, hi);
      MergeStep(less, c, i, j, hi, Moved(c, i, j, j + 1), i + 1, j + 1);
    }
  }

  lemma MovedOneKeeps<T>(c: seq<T>, i: nat, j: nat, d: seq<T>)
    requires i < j < |c| && d == Moved(c, i, j, j + 1)
    ensures |d| == |c| && d[i + 1] == c[i] && (forall x :: j < x < |c| ==> d[x] == c[x])
    ensures forall x :: x in d ==> x in c
  {
  }

  /** The loop of one pass of list_sort() from `p` on, with the number of runs it outputs. */
  function Pass<T>(less: (T, T) -> bool, c: seq<T>, p: nat, out: nat): (r: (seq<T>, nat))
    requires p < |c|
    ensures |r.0| == |c|
    decreases |c| - p
  {
    var m := |c| - 1;
    if p == m then (c, out)
    else
      var e := RunEnd(less, c, p, m);
      if e == m then (c, out + 1)
      else var f := RunEnd(less, c, e, m);
           Pass(less, Merge(less, c, p, e, f), f, out + 1)
  }

  /** `d` is `c` rearranged stably between `lo` and `hi` only. */
  ghost predicate Rearranged<T>(less: (T, T) -> bool, u: set<T>, c: seq<T>, lo: nat, hi: nat, d: seq<T>) {
    && 1 <= lo <= hi < |c| && |d| == |c| && Within(d, 1, |d| - 1, u)
    && (forall x :: 0 <= x < |c| && !(lo <= x < hi) ==> d[x] == c[x])
    && Stable(less, u, c[1..|c| - 1], d[1..|d| - 1])
  }

  lemma RearrangedTrans<T>(less: (T, T) -> bool, u: set<T>, c: seq<T>, lo: nat, hi: nat, d: seq<T>, e: seq<T>)
    requires Rearranged(less, u, c, lo, hi, d) && Rearranged(less, u, d, lo, hi, e)
    ensures Rearranged(less, u, c, lo, hi, e)
  {
    StableTrans(less, u, c[1..|c| - 1], d[1..|d| - 1], e[1..|e| - 1]);
  }

  lemma MergeMoveRearranges<T>(less: (T, T) -> bool, u: set<T>, c: seq<T>, lo: nat, i: nat, j: nat, hi: nat)
    requires Order(less, u) && 1 <= lo <= i < j < hi < |c| && Within(c, 1, |c| - 1, u)
    requires Merging(less, c, lo, i, j, hi) && less(c[j], c[i])
    ensures Rearranged(less, u, c, lo, hi, Moved(c, i, j, j + 1))
  {
    MergeMoveIsStable(less, u, c, lo, i, j, hi);
  }

  lemma {:induction false} MergeSorts<T>(less: (T, T) -> bool, u: set<T>, c: seq<T>, lo: nat, i: nat, j: nat, hi: nat)
    requires Order(less, u) && 1 <= lo <= i <= j <= hi < |c| && Within(c, 1, |c| - 1, u)
    requires Merging(less, c, lo, i, j, hi)
    ensures Rearranged(less, u, c, lo, hi, Merge(less, c, i, j, hi))
    ensures Merging(less, Merge(less, c, i, j, hi), lo, hi, hi, hi)
    decreases hi - i
  {
    if i == j || j == hi {
    } else if !less(c[j], c[i]) {
      MergeSkip(less, u, c, lo, i, j, hi);
      MergeSorts(less, u, c, lo, i + 1, j, hi);
    } else {
      var d := Moved(c, i, j, j + 1);
      MergeMoveRearranges(less, u, c, lo, i, j, hi);
      MergeMove(less, u, c, lo, i, j, hi);
      MergeSorts(less, u, d, lo, i + 1, j + 1, hi);
      RearrangedTrans(less, u, c, lo, hi, d, Merge(less, d, i + 1, j + 1, hi));
    }
  }

  // ----- one pass

  /** RunEnd() delimits exactly one run. */
  lemma {:induction false} RunEndIsRun<T>(less: (T, T) -> bool, c: seq<T>, i: nat, m: nat)
    requires i < m < |c|
    ensures Runs(less, c[i..RunEnd(less, c, i, m)]) == 1
    ensures RunEnd(less, c, i, m) < m ==> less(c[RunEnd(less, c, i, m)], c[RunEnd(less, c, i, m) - 1])
    decreases m - i
  {
    var e := RunEnd(less, c, i, m);
    if i + 1 == m || less(c[i + 1], c[i]) {
      assert e == i + 1 && c[i..i + 1] == [c[i]];
    } else {
      RunEndIsRun(less, c, i + 1, m);
      assert e == RunEnd(less, c, i + 1, m);
      assert c[i..e] == [c[i]] + c[i + 1..e];
      RunsOfConcat(less, [c[i]], c[i + 1..e]);
    }
  }

  lemma TwoRunsMerge<T>(less: (T, T) -> bool, u: set<T>, c: seq<T>, p: nat, e: nat, f: nat)
    requires Order(less, u) && 1 <= p < e < f < |c| && Within(c, 1, |c| - 1, u)
    requires Runs(less, c[p..e]) == 1 && Runs(less, c[e..f]) == 1
    ensures Merging(less, c, p, p, e, f)
  {
    SortedIsOneRun(less, c[p..e], u);
    SortedIsOneRun(less, c[e..f], u);
    forall x, y | p <= x < y < f && !(p <= x < e <= y) ensures !less(c[y], c[x]) {
      if y < e { assert c[p..e][y - p] == c[y] && c[p..e][x - p] == c[x]; }
      else { assert c[e..f][y - e] == c[y] && c[e..f][x - e] == c[x]; }
    }
  }

  lemma MergedIsOneRun<T>(less: (T, T) -> bool, u: set<T>, c: seq<T>, lo: nat, hi: nat)
    requires Order(less, u) && 1 <= lo < hi < |c| && Within(c, 1, |c| - 1, u) && Merging(less, c, lo, hi, hi, hi)
    ensures Runs(less, c[lo..hi]) == 1
  {
    var s := c[lo..hi];
    assert forall k :: 0 <= k < |s| ==> s[k] == c[lo + k];
    assert Sorted(less, s);
    SortedIsOneRun(less, s, u);
    RunsPositive(less, s);
  }

  /** Merging the first two runs: what `Merge` makes of them is one run. */
  lemma MergeTwoRuns<T>(less: (T, T) -> bool, u: set<T>, c: seq<T>, p: nat, e: nat, f: nat)
    requires Order(less, u) && 1 <= p < e < f < |c| && Within(c, 1, |c| - 1, u)
    requires Runs(less, c[p..e]) == 1 && Runs(less, c[e..f]) == 1
    ensures Rearranged(less, u, c, p, f, Merge(less, c, p, e, f))
    ensures Runs(less, Merge(less, c, p, e, f)[p..f]) == 1
  {
    TwoRunsMerge(less, u, c, p, e, f);
    MergeSorts(less, u, c, p, p, e, f);
    MergedIsOneRun(less, u, Merge(less, c, p, e, f), p, f);
  }

  /** The step of the loop of a pass: two runs from `p`, ending at `e` and `f`, become one. */
  ghost predicate TwoRuns<T>(less: (T, T) -> bool, c: seq<T>, p: nat, e: nat, f: nat) {
    && 1 <= p < e < f < |c| && Runs(less, c[p..e]) == 1 && Runs(less, c[e..f]) == 1
    && less(c[e], c[e - 1]) && (f < |c| - 1 ==> less(c[f], c[f - 1]))
  }

  lemma RunsFound<T>(less: (T, T) -> bool, c: seq<T>, p: nat)
    requires 1 <= p < |c| - 1 && RunEnd(less, c, p, |c| - 1) < |c| - 1
    ensures var e := RunEnd(less, c, p, |c| - 1); TwoRuns(less, c, p, e, RunEnd(less, c, e, |c| - 1))
  {
    RunEndIsRun(less, c, p, |c| - 1);
    RunEndIsRun(less, c, RunEnd(less, c, p, |c| - 1), |c| - 1);
  }

  /** The loop body of a pass: the last run is kept, or two runs become one and the pass goes on. */
  lemma PassStep<T>(less: (T, T) -> bool, u: set<T>, c: seq<T>, p: nat, out: nat)
    returns (e: nat, f: nat, d: seq<T>)
    requires Order(less, u) && 1 <= p < |c| - 1 && Within(c, 1, |c| - 1, u)
    ensures e == |c| - 1 ==> Runs(less, c[p..|c| - 1]) == 1 && Pass(less, c, p, out) == (c, out + 1)
    ensures e != |c| - 1 ==>
      && TwoRuns(less, c, p, e, f) && Rearranged(less, u, c, p, f, d) && Runs(less, d[p..f]) == 1
      && Pass(less, c, p, out) == Pass(less, d, f, out + 1)
  {
    var m := |c| - 1;
    e := RunEnd(less, c, p, m);
    f, d := m, c;
    RunEndIsRun(less, c, p, m);
    if e < m {
      f := RunEnd(less, c, e, m);
      RunsFound(less, c, p);
      d := Merge(less, c, p, e, f);
      MergeTwoRuns(less, u, c, p, e, f);
      PassUnfolds(less, c, p, out);
    }
  }

  lemma PassUnfolds<T>(less: (T, T) -> bool, c: seq<T>, p: nat, out: nat)
    requires p < |c| - 1 && RunEnd(less, c, p, |c| - 1) < |c| - 1
    ensures var e := RunEnd(less, c, p, |c| - 1); var f := RunEnd(less, c, e, |c| - 1);
      Pass(less, c, p, out) == Pass(less, Merge(less, c, p, e, f), f, out + 1)
  {
  }

  lemma {:induction false} PassRearranges<T>(less: (T, T) -> bool, u: set<T>, c: seq<T>, p: nat, out: nat)
    requires Order(less, u) && 1 <= p < |c| && Within(c, 1, |c| - 1, u)
    ensures Rearranged(less, u, c, 1, |c| - 1, Pass(less, c, p, out).0)
    decreases |c| - p
  {
    if p < |c| - 1 {
      var e, f, d := PassStep(less, u, c, p, out);
      if e != |c| - 1 {
        PassRearranges(less, u, d, f, out + 1);
        RearrangedWidens(less, u, c, p, f, d);
        RearrangedTrans(less, u, c, 1, |c| - 1, d, Pass(less, d, f, out + 1).0);
      }
    }
  }

  /** A pass outputs half as many runs as it finds, rounding up, and counts them. */
  lemma {:induction false} PassHalvesRuns<T>(less: (T, T) -> bool, u: set<T>, c: seq<T>, p: nat, out: nat)
    requires Order(less, u) && 1 <= p < |c| && Within(c, 1, |c| - 1, u)
    ensures Pass(less, c, p, out).1 == out + (Runs(less, c[p..|c| - 1]) + 1) / 2
    decreases |c| - p
  {
    if p < |c| - 1 {
      var e, f, d := PassStep(less, u, c, p, out);
      if e != |c| - 1 {
        PassHalvesRuns(less, u, d, f, out + 1);
        SuffixRuns(less, c, p, e, f);
        SameSuffix(c, d, f);
      }
    }
  }

  ghost predicate AtMost<T>(less: (T, T) -> bool, r: (seq<T>, nat)) {
    |r.0| >= 2 && Runs(less, r.0[1..|r.0| - 1]) <= r.1
  }

  /** There are at most `out` runs before `p`. */
  ghost predicate Output<T>(less: (T, T) -> bool, c: seq<T>, p: nat, out: nat) {
    1 <= p <= |c| && Runs(less, c[1..p]) <= out
  }

  /** One turn of the loop, as far as it concerns what is output */
  lemma OutputMore<T>(less: (T, T) -> bool, u: set<T>, c: seq<T>, p: nat, out: nat) returns (f: nat, d: seq<T>)
    requires Order(less, u) && p < |c| - 1 && Within(c, 1, |c| - 1, u) && Output(less, c, p, out)
    ensures p < f < |c| == |d| && Within(d, 1, |d| - 1, u) && Output(less, d, f, out + 1)
    ensures Pass(less, c, p, out) == if f == |c| - 1 then (d, out + 1) else Pass(less, d, f, out + 1)
  {
    var e;
    e, f, d := PassStep(less, u, c, p, out);
    if e == |c| - 1 { f, d := |c| - 1, c; }
    PrefixRuns(less, c, p, f, d, out);
  }

  /** No more runs are left than a pass counts. */
  lemma {:induction false} PassLeavesRuns<T>(less: (T, T) -> bool, u: set<T>, c: seq<T>, p: nat, out: nat)
    requires Order(less, u) && p < |c| && Within(c, 1, |c| - 1, u) && Output(less, c, p, out)
    ensures AtMost(less, Pass(less, c, p, out))
    decreases |c| - p
  {
    if p < |c| - 1 {
      var f, d := OutputMore(less, u, c, p, out);
      if f < |c| - 1 { PassLeavesRuns(less, u, d, f, out + 1); }
    }
  }

  lemma SameSuffix<T>(c: seq<T>, d: seq<T>, f: nat)
    requires f < |c| == |d| && forall x :: f <= x < |c| ==> d[x] == c[x]
    ensures d[f..|c| - 1] == c[f..|c| - 1]
  {
  }

  lemma RearrangedWidens<T>(less: (T, T) -> bool, u: set<T>, c: seq<T>, lo: nat, hi: nat, d: seq<T>)
    requires Rearranged(less, u, c, lo, hi, d)
    ensures Rearranged(less, u, c, 1, |c| - 1, d)
  {
  }

  lemma PrefixRuns<T>(less: (T, T) -> bool, c: seq<T>, p: nat, f: nat, d: seq<T>, out: nat)
    requires 1 <= p < f <= |c| == |d| && (forall x :: 0 <= x < p ==> d[x] == c[x]) && Output(less, c, p, out) && Runs(less, d[p..f]) == 1
    ensures Output(less, d, f, out + 1)
  {
    assert d[1..f] == d[1..p] + d[p..f];
    assert d[1..p] == c[1..p];
    if p > 1 { RunsOfConcat(less, d[1..p], d[p..f]); }
  }

  lemma SuffixRuns<T>(less: (T, T) -> bool, c: seq<T>, p: nat, e: nat, f: nat)
    requires TwoRuns(less, c, p, e, f)
    ensures Runs(less, c[p..|c| - 1]) == 2 + Runs(less, c[f..|c| - 1])
  {
    var m := |c| - 1;
    assert c[p..f] == c[p..e] + c[e..f];
    RunsOfConcat(less, c[p..e], c[e..f]);
    assert c[p..m] == c[p..f] + c[f..m];
    if f < m { RunsOfConcat(less, c[p..f], c[f..m]); }
  }

  /** A whole pass: a stable rearrangement that leaves at most the runs it counts, which are half of
      those it found, rounding up. */
  lemma PassSummary<T>(less: (T, T) -> bool, u: set<T>, c: seq<T>)
    requires Order(less, u) && |c| >= 2 && Within(c, 1, |c| - 1, u)
    ensures var r := Pass(less, c, 1, 0);
      && Rearranged(less, u, c, 1, |c| - 1, r.0)
      && Runs(less, r.0[1..|c| - 1]) <= r.1 == (Runs(less, c[1..|c| - 1]) + 1) / 2
  {
    PassRearranges(less, u, c, 1, 0);
    PassHalvesRuns(less, u, c, 1, 0);
    PassLeavesRuns(less, u, c, 1, 0);
  }

  lemma OneRunIsStableSort<T>(less: (T, T) -> bool, u: set<T>, c: seq<T>, d: seq<T>)
    requires Order(less, u) && |c| >= 2 && Within(c, 1, |c| - 1, u) && Rearranged(less, u, c, 1, |c| - 1, d)
    requires Runs(less, d[1..|d| - 1]) <= 1
    ensures d[0] == c[0] && d[|d| - 1] == c[|c| - 1] && Sorted(less, d[1..|d| - 1])
    ensures multiset(d[1..|d| - 1]) == multiset(c[1..|c| - 1])
  {
    SortedIsOneRun(less, d[1..|d| - 1], u);
    StableIsPermutation(less, u, c[1..|c| - 1], d[1..|d| - 1]);
  }

  // ----- the stable sort is unique

  lemma ClassOfFirst<T>(less: (T, T) -> bool, s: seq<T>, x: T)
    requires s != [] && !less(s[0], x) && !less(x, s[0])
    ensures Class(less, s, x) == [s[0]] + Class(less, s[1..], x)
  {
    assert s == [s[0]] + s[1..];
    ClassOfConcat(less, [s[0]], s[1..], x);
  }

  lemma ClassWithoutFirst<T>(less: (T, T) -> bool, s: seq<T>, x: T)
    requires s != [] && (less(s[0], x) || less(x, s[0]))
    ensures Class(less, s, x) == Class(less, s[1..], x)
  {
    assert s == [s[0]] + s[1..];
    ClassOfConcat(less, [s[0]], s[1..], x);
  }

  lemma {:induction false} ClassIsMember<T>(less: (T, T) -> bool, s: seq<T>, x: T)
    ensures forall y :: y in Class(less, s, x) ==> y in s
  {
    if s != [] {
      ClassIsMember(less, s[..|s| - 1], x);
      assert s == s[..|s| - 1] + [s[|s| - 1]];
    }
  }

  lemma SameFirst<T>(less: (T, T) -> bool, u: set<T>, s: seq<T>, t: seq<T>)
    requires Order(less, u) && Stable(less, u, s, t) && (forall x :: x in s || x in t ==> x in u)
    requires Sorted(less, s) && Sorted(less, t) && s != []
    ensures s[0] == t[0]
  {
    var x, y := s[0], t[0];
    assert x in s && y in t;
    assert Asymmetric(less, x, x) && Asymmetric(less, y, y) && SameClass(less, s, t, x) && SameClass(less, s, t, y);
    ClassOfFirst(less, s, x);
    ClassIsMember(less, t, x);
    assert Class(less, t, x)[0] == x;
    assert x in t;
    ClassOfFirst(less, t, y);
    ClassIsMember(less, s, y);
    assert Class(less, s, y)[0] == y;
    assert y in s;
    assert !less(x, y) && !less(y, x);
    ClassOfFirst(less, t, x);
  }

  /** The order and the stability leave no freedom: the result of the sort is determined. */
  lemma {:induction false} StableSortIsUnique<T>(less: (T, T) -> bool, u: set<T>, s: seq<T>, t: seq<T>)
    requires Order(less, u) && Stable(less, u, s, t) && (forall x :: x in s || x in t ==> x in u)
    requires Sorted(less, s) && Sorted(less, t)
    ensures s == t
    decreases |s|
  {
    if s != [] {
      SameFirst(less, u, s, t);
      forall x | x in u ensures SameClass(less, s[1..], t[1..], x) {
        assert SameClass(less, s, t, x);
        if !less(s[0], x) && !less(x, s[0]) {
          ClassOfFirst(less, s, x);
          ClassOfFirst(less, t, x);
          assert Class(less, s[1..], x) == Class(less, s, x)[1..];
          assert Class(less, t[1..], x) == Class(less, t, x)[1..];
        } else {
          ClassWithoutFirst(less, s, x);
          ClassWithoutFirst(less, t, x);
        }
      }
      StableSortIsUnique(less, u, s[1..], t[1..]);
      assert s == [s[0]] + s[1..] && t == [t[0]] + t[1..];
    }
  }
}
