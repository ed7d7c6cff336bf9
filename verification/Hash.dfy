/** A hash table with chaining; hash.c. */
module Hash {
  import opened Common

  // ----- bits of natural numbers

  function And(x: nat, y: nat): nat {
    if x == 0 || y == 0 then 0
    else (if x % 2 == 1 && y % 2 == 1 then 1 else 0) + 2 * And(x / 2, y / 2)
  }

  /** The greatest power of two that is not greater than `x` */
  function HighBit(x: nat): (r: nat)
    requires x > 0
    ensures r <= x < 2 * r
  {
    if x == 1 then 1 else 2 * HighBit(x / 2)
  }

  /** turn_off_least_1bit() and is_power_of_2() */
  function TurnOff(x: nat): nat
    requires x > 0
  {
    And(x, x - 1)
  }

  predicate IsPowerOf2(x: nat) { x != 0 && TurnOff(x) == 0 }

  lemma AndDigit(a: nat, p: nat, b: nat, q: nat)
    requires p <= 1 && q <= 1
    ensures And(2 * a + p, 2 * b + q) == p * q + 2 * And(a, b)
  {
    var x, y := 2 * a + p, 2 * b + q;
    assert x / 2 == a && x % 2 == p && y / 2 == b && y % 2 == q;
  }

  lemma HighBitDigit(a: nat, p: nat)
    requires p <= 1 && a > 0
    ensures HighBit(2 * a + p) == 2 * HighBit(a)
  {
    assert (2 * a + p) / 2 == a;
  }

  lemma {:induction false} AndSelf(x: nat)
    ensures And(x, x) == x
  {
    if x > 0 {
      AndSelf(x / 2);
      AndDigit(x / 2, x % 2, x / 2, x % 2);
    }
  }

  lemma TurnOffEven(a: nat)
    requires a > 0
    ensures TurnOff(2 * a) == 2 * TurnOff(a)
  {
    AndDigit(a, 0, a - 1, 1);
  }

  lemma TurnOffOdd(a: nat)
    ensures TurnOff(2 * a + 1) == 2 * a
  {
    AndSelf(a);
    AndDigit(a, 1, a, 0);
  }

  /** Turning off the lowest bit leaves the highest, unless there is only one. */
  ghost predicate TopStays(x: nat)
    requires x > 0
  {
    var y := TurnOff(x);
    y < x && (y == 0 <==> x == HighBit(x)) && (y > 0 ==> HighBit(y) == HighBit(x))
  }

  lemma TopStaysEven(a: nat)
    requires a > 0 && TopStays(a)
    ensures TopStays(2 * a)
  {
    TurnOffEven(a);
    HighBitDigit(a, 0);
    if TurnOff(a) > 0 { HighBitDigit(TurnOff(a), 0); }
  }

  lemma TopStaysOdd(a: nat)
    requires a > 0
    ensures TopStays(2 * a + 1)
  {
    TurnOffOdd(a);
    HighBitDigit(a, 0);
    HighBitDigit(a, 1);
  }

  lemma {:induction false} TurnedOff(x: nat)
    requires x > 0
    ensures TopStays(x)
  {
    var a := x / 2;
    if a == 0 {
      TurnOffOdd(0);
    } else if x == 2 * a {
      TurnedOff(a);
      TopStaysEven(a);
    } else {
      TopStaysOdd(a);
    }
  }

  lemma RemainderDigit(a: nat, p: nat, m: nat)
    requires p <= 1 && m > 0
    ensures (2 * a + p) % (2 * m) == 2 * (a % m) + p
  {
    var q, r := a / m, a % m;
    assert a == q * m + r;
    assert 2 * a + p == q * (2 * m) + (2 * r + p);
    RemainderIs(2 * a + p, 2 * m, q, 2 * r + p);
  }

  lemma RemainderIs(x: nat, n: nat, q: nat, r: nat)
    requires 0 < n && r < n && x == q * n + r
    ensures x % n == r
  {
    var d := x / n - q;
    assert x % n == r - d * n;
    assert (d >= 1 ==> d * n >= n) && (d <= -1 ==> d * n + n <= 0);
  }

  /** For a power of two, the mask takes the remainder. */
  lemma {:induction false} MaskIsRemainder(h: nat, n: nat)
    requires IsPowerOf2(n)
    ensures And(h, n - 1) == h % n < n
  {
    TurnedOff(n);
    if n > 1 {
      var m := n / 2;
      assert n == 2 * m;
      HighBitDigit(m, 0);
      TurnedOff(m);
      MaskIsRemainder(h / 2, m);
      AndDigit(h / 2, h % 2, m - 1, 1);
      RemainderDigit(h / 2, h % 2, m);
    }
  }

  // ----- elements and keys

  predicate Same<T>(less: (T, T) -> bool, a: T, b: T) { !less(a, b) && !less(b, a) }

  predicate SameLaws<T>(hash: T -> nat, less: (T, T) -> bool, a: T, b: T, c: T) {
    && Same(less, a, a) && (Same(less, a, b) && Same(less, b, c) ==> Same(less, a, c))
    && (Same(less, a, b) ==> hash(a) == hash(b))
  }

  /** Elements that neither precede the other are equal, and equal elements have equal hashes. */
  ghost predicate Laws<T(!new)>(hash: T -> nat, less: (T, T) -> bool) {
    forall a, b, c {:trigger SameLaws(hash, less, a, b, c)} :: SameLaws(hash, less, a, b, c)
  }

  /** No two elements are equal. */
  ghost predicate Unique<T(!new)>(less: (T, T) -> bool, m: multiset<T>) {
    && (forall x {:trigger m[x]} :: m[x] <= 1)
    && (forall x, y {:trigger Same(less, x, y)} :: x in m && y in m && Same(less, x, y) ==> x == y)
  }

  // ----- buckets

  ghost function All<T>(buckets: seq<seq<T>>): multiset<T> {
    if buckets == [] then multiset{} else multiset(buckets[0]) + All(buckets[1..])
  }

  /** The elements in the order of the buckets */
  function Flat<T>(buckets: seq<seq<T>>): seq<T> {
    if buckets == [] then [] else buckets[0] + Flat(buckets[1..])
  }

  lemma {:induction false} FlatHasAll<T>(buckets: seq<seq<T>>)
    ensures multiset(Flat(buckets)) == All(buckets)
  {
    if buckets != [] { FlatHasAll(buckets[1..]); }
  }

  lemma {:induction false} InAll<T>(buckets: seq<seq<T>>, x: T)
    ensures x in All(buckets) <==> exists b :: 0 <= b < |buckets| && x in buckets[b]
  {
    if buckets != [] {
      InAll(buckets[1..], x);
      if exists b :: 0 <= b < |buckets[1..]| && x in buckets[1..][b] {
        var b :| 0 <= b < |buckets[1..]| && x in buckets[1..][b];
        assert x in buckets[b + 1];
      }
      if exists b :: 0 <= b < |buckets| && x in buckets[b] {
        var b :| 0 <= b < |buckets| && x in buckets[b];
        assert b > 0 ==> x in buckets[1..][b - 1];
      }
    }
  }

  /** Changing one bucket */
  lemma {:induction false} AllUpdated<T>(buckets: seq<seq<T>>, b: nat, list: seq<T>)
    requires b < |buckets|
    ensures All(buckets[b := list]) + multiset(buckets[b]) == All(buckets) + multiset(list)
  {
    var after, rest := buckets[b := list], All(buckets[1..]);
    if b > 0 {
      AllUpdated(buckets[1..], b - 1, list);
      assert after[1..] == buckets[1..][b - 1 := list];
      var changed := All(after[1..]);
      assert changed + multiset(buckets[b]) == rest + multiset(list);
      assert (multiset(buckets[0]) + changed) + multiset(buckets[b]) == multiset(buckets[0]) + (changed + multiset(buckets[b]));
      assert (multiset(buckets[0]) + rest) + multiset(list) == multiset(buckets[0]) + (rest + multiset(list));
    } else {
      assert after[1..] == buckets[1..];
      assert (multiset(list) + rest) + multiset(buckets[b]) == (multiset(buckets[b]) + rest) + multiset(list);
    }
  }

  lemma {:induction false} AllAppended<T>(buckets: seq<seq<T>>, list: seq<T>)
    ensures All(buckets + [list]) == All(buckets) + multiset(list)
  {
    if buckets == [] {
      assert [list][1..] == [];
    } else {
      AllAppended(buckets[1..], list);
      assert (buckets + [list])[1..] == buckets[1..] + [list];
    }
  }

  lemma AllPrefix<T>(buckets: seq<seq<T>>, i: nat)
    requires i < |buckets|
    ensures All(buckets[..i + 1]) == All(buckets[..i]) + multiset(buckets[i])
  {
    AllAppended(buckets[..i], buckets[i]);
    assert buckets[..i + 1] == buckets[..i] + [buckets[i]];
  }

  lemma {:induction false} AllEmpty<T>(buckets: seq<seq<T>>)
    requires forall b :: 0 <= b < |buckets| ==> buckets[b] == []
    ensures All(buckets) == multiset{}
  {
    if buckets != [] { AllEmpty(buckets[1..]); }
  }

  // ----- the table

  /** find_bucket() */
  function BucketOf<T>(hash: T -> nat, x: T, n: nat): nat
    requires n > 0
  {
    And(hash(x), n - 1)
  }

  ghost predicate InPlace<T(!new)>(hash: T -> nat, buckets: seq<seq<T>>) {
    forall b: nat, x {:trigger x in buckets[b]} :: b < |buckets| && x in buckets[b] ==> BucketOf(hash, x, |buckets|) == b
  }

  /** `r` is the element of `m` equal to `e`, if there is one. */
  ghost predicate IsFound<T(!new)>(less: (T, T) -> bool, m: multiset<T>, e: T, r: Option<T>) {
    match r
    case None => forall x {:trigger m[x]} :: x in m ==> !Same(less, x, e)
    case Some(x) => x in m && Same(less, x, e)
  }

  /** The number of buckets for `n` elements */
  function Ideal(n: nat): (r: nat)
    ensures n < 4 * r
  {
    HighBit(if n / 2 < 4 then 4 else n / 2)
  }

  /** How rehash() computes it */
  method IdealBuckets(n: nat) returns (cnt: nat)
    ensures cnt == Ideal(n) && cnt >= 4 && IsPowerOf2(cnt)
  {
    cnt := n / 2;
    if cnt < 4 {
      cnt := 4;
    }
    assert HighBit(4) == 4;
    AtLeastFour(cnt);
    while !IsPowerOf2(cnt)
      invariant cnt > 0 && HighBit(cnt) == Ideal(n)
      decreases cnt
    {
      TurnedOff(cnt);
      cnt := TurnOff(cnt);
    }
    TurnedOff(cnt);
  }

  lemma {:induction false} AtLeastFour(x: nat)
    requires x >= 4
    ensures HighBit(x) >= 4
  {
    if x >= 8 { AtLeastFour(x / 2); } else { assert HighBit(x / 2) >= 2; }
  }

  lemma AllPushed<T>(buckets: seq<seq<T>>, b: nat, e: T)
    requires b < |buckets|
    ensures All(buckets[b := [e] + buckets[b]]) == All(buckets) + multiset{e}
  {
    var list := buckets[b];
    AllUpdated(buckets, b, [e] + list);
    assert multiset([e] + list) == multiset{e} + multiset(list);
    var after := All(buckets[b := [e] + list]);
    assert (after + multiset(list)) - multiset(list) == after;
    assert (All(buckets) + (multiset{e} + multiset(list))) - multiset(list) == All(buckets) + multiset{e};
  }

  /** An element goes to the front of its bucket. */
  lemma PushedInPlace<T(!new)>(hash: T -> nat, buckets: seq<seq<T>>, e: T)
    requires InPlace(hash, buckets) && IsPowerOf2(|buckets|)
    ensures var b := BucketOf(hash, e, |buckets|);
      && b < |buckets| && InPlace(hash, buckets[b := [e] + buckets[b]])
      && All(buckets[b := [e] + buckets[b]]) == All(buckets) + multiset{e}
  {
    MaskIsRemainder(hash(e), |buckets|);
    AllPushed(buckets, BucketOf(hash, e, |buckets|), e);
  }

  /** An element goes out of its bucket. */
  lemma RemovedInPlace<T(!new)>(hash: T -> nat, buckets: seq<seq<T>>, b: nat, i: nat)
    requires InPlace(hash, buckets) && b < |buckets| && i < |buckets[b]|
    ensures var rest := buckets[b][..i] + buckets[b][i + 1..];
      InPlace(hash, buckets[b := rest]) && All(buckets[b := rest]) == All(buckets) - multiset{buckets[b][i]}
  {
    var list, x := buckets[b], buckets[b][i];
    var rest := list[..i] + list[i + 1..];
    AllUpdated(buckets, b, rest);
    assert list == list[..i] + [x] + list[i + 1..];
    assert multiset(list) == multiset(rest) + multiset{x};
    var after := buckets[b := rest];
    InAll(buckets, x);
    forall y ensures All(after)[y] == (All(buckets) - multiset{x})[y] {
      assert (All(after) + multiset(list))[y] == (All(buckets) + multiset(rest))[y];
    }
    forall c: nat, y | c < |buckets| && y in after[c] ensures BucketOf(hash, y, |buckets|) == c {
      assert y in buckets[c];
    }
  }

  /** The buckets `to` after the elements of `list` have been put to the front of theirs, one after the other */
  function Moves<T>(hash: T -> nat, to: seq<seq<T>>, list: seq<T>): (r: seq<seq<T>>)
    requires |to| > 0
    ensures |r| == |to|
  {
    if list == [] then to else
    var moved, x := Moves(hash, to, list[..|list| - 1]), list[|list| - 1];
    Pushed(moved, BucketOf(hash, x, |to|), x)
  }

  function Pushed<T>(to: seq<seq<T>>, b: nat, x: T): (r: seq<seq<T>>)
    ensures |r| == |to|
  {
    if b < |to| then to[b := [x] + to[b]] else to
  }

  /** Those of all buckets in `from`, to empty ones */
  function MovesAll<T>(hash: T -> nat, from: seq<seq<T>>, cnt: nat): (r: seq<seq<T>>)
    requires cnt > 0
    ensures |r| == cnt
  {
    if from == [] then seq(cnt, _ => []) else Moves(hash, MovesAll(hash, from[..|from| - 1], cnt), from[|from| - 1])
  }

  class Table<T(!new, ==)> {
    const hash: T -> nat
    const less: (T, T) -> bool
    var buckets: seq<seq<T>>
    var elemCnt: nat

    ghost predicate Valid()
      reads this
    {
      && |buckets| >= 4 && IsPowerOf2(|buckets|) && InPlace(hash, buckets)
      && Unique(less, Elems()) && elemCnt == |Elems()|
    }

    ghost function Elems(): multiset<T>
      reads this
    {
      All(buckets)
    }

    /** At most four elements to a bucket, on average */
    predicate Roomy()
      reads this
    {
      elemCnt < 4 * |buckets|
    }

    /** hash_init(), when there is memory for the buckets */
    constructor (hash: T -> nat, less: (T, T) -> bool)
      ensures Valid() && Elems() == multiset{} && this.hash == hash && this.less == less && Roomy()
    {
      this.hash, this.less := hash, less;
      buckets, elemCnt := [[], [], [], []], 0;
      new;
      TurnedOff(4);
      assert HighBit(4) == 4;
      AllEmpty(buckets);
    }

    /** find_elem(), which gives the place in the bucket */
    method FindElem(bucket: seq<T>, e: T) returns (r: Option<nat>)
      ensures r.Some? ==> r.value < |bucket| && Same(less, bucket[r.value], e)
      ensures r.None? ==> forall i :: 0 <= i < |bucket| ==> !Same(less, bucket[i], e)
    {
      for i := 0 to |bucket|
        invariant forall k :: 0 <= k < i ==> !Same(less, bucket[k], e)
      {
        if Same(less, bucket[i], e) {
          return Some(i);
        }
      }
      return None;
    }

    /** The bucket of `e`, and the place of the element equal to it */
    method Locate(e: T) returns (b: nat, i: Option<nat>)
      requires Valid() && Laws(hash, less)
      ensures b == BucketOf(hash, e, |buckets|) < |buckets| && (i.Some? ==> i.value < |buckets[b]|)
      ensures IsFound(less, Elems(), e, if i.Some? then Some(buckets[b][i.value]) else None)
    {
      b := BucketOf(hash, e, |buckets|);
      MaskIsRemainder(hash(e), |buckets|);
      i := FindElem(buckets[b], e);
      if i.Some? {
        InAll(buckets, buckets[b][i.value]);
      } else {
        forall x | x in Elems() ensures !Same(less, x, e) {
          InAll(buckets, x);
          var c: nat :| c < |buckets| && x in buckets[c];
          assert SameLaws(hash, less, x, e, e);
        }
      }
    }

    /** hash_find() */
    method Find(e: T) returns (r: Option<T>)
      requires Valid() && Laws(hash, less)
      ensures IsFound(less, Elems(), e, r)
    {
      var b, i := Locate(e);
      return if i.Some? then Some(buckets[b][i.value]) else None;
    }

    /** The elements of an old bucket go to the new ones. */
    method MoveBucket(to0: seq<seq<T>>, list: seq<T>) returns (to: seq<seq<T>>)
      requires IsPowerOf2(|to0|) && InPlace(hash, to0)
      ensures to == Moves(hash, to0, list) && InPlace(hash, to) && All(to) == All(to0) + multiset(list)
    {
      to := to0;
      for j := 0 to |list|
        invariant to == Moves(hash, to0, list[..j]) && InPlace(hash, to) && All(to) == All(to0) + multiset(list[..j])
      {
        PushedInPlace(hash, to, list[j]);
        var b := BucketOf(hash, list[j], |to|);
        to := to[b := [list[j]] + to[b]];
        assert list[..j + 1] == list[..j] + [list[j]];
        assert list[..j + 1][..j] == list[..j];
      }
      assert list[..|list|] == list;
    }

    /** All elements go to `cnt` new buckets. */
    method MoveAll(from: seq<seq<T>>, cnt: nat) returns (to: seq<seq<T>>)
      requires IsPowerOf2(cnt)
      ensures to == MovesAll(hash, from, cnt) && InPlace(hash, to) && All(to) == All(from)
    {
      to := seq(cnt, _ => []);
      AllEmpty(to);
      for i := 0 to |from|
        invariant to == MovesAll(hash, from[..i], cnt) && InPlace(hash, to) && All(to) == All(from[..i])
      {
        to := MoveBucket(to, from[i]);
        AllPrefix(from, i);
        assert from[..i + 1][..i] == from[..i];
      }
      assert from[..|from|] == from;
    }

    /** rehash(); `mem` says whether there is memory for new buckets. */
    method Rehash(mem: bool)
      requires Valid()
      modifies this
      ensures Valid() && Elems() == old(Elems()) && elemCnt == old(elemCnt)
      ensures |buckets| == if mem then Ideal(elemCnt) else |old(buckets)|
      ensures buckets == old(buckets) || buckets == MovesAll(hash, old(buckets), |buckets|)
    {
      var cnt := IdealBuckets(elemCnt);
      if cnt == |buckets| || !mem {
        return;
      }
      buckets := MoveAll(buckets, cnt);
    }

    method InsertElem(b: nat, e: T)
      requires Valid() && Laws(hash, less) && b == BucketOf(hash, e, |buckets|) && IsFound(less, Elems(), e, None)
      modifies this
      ensures Valid() && Elems() == old(Elems()) + multiset{e} && |buckets| == |old(buckets)|
    {
      PushedInPlace(hash, buckets, e);
      OneMore(hash, less, Elems(), e);
      elemCnt, buckets := elemCnt + 1, buckets[b := [e] + buckets[b]];
    }

    method RemoveElem(b: nat, i: nat)
      requires Valid() && b < |buckets| && i < |buckets[b]|
      modifies this
      ensures Valid() && Elems() == old(Elems()) - multiset{old(buckets[b][i])} && |buckets| == |old(buckets)|
    {
      RemovedInPlace(hash, buckets, b, i);
      InAll(buckets, buckets[b][i]);
      StillUnique(less, Elems(), buckets[b][i]);
      elemCnt, buckets := elemCnt - 1, buckets[b := buckets[b][..i] + buckets[b][i + 1..]];
    }

    /** hash_insert() */
    method Insert(e: T, mem: bool) returns (was: Option<T>)
      requires Valid() && Laws(hash, less)
      modifies this
      ensures Valid() && IsFound(less, old(Elems()), e, was) && (mem ==> Roomy())
      ensures Elems() == if was.Some? then old(Elems()) else old(Elems()) + multiset{e}
    {
      var b, i := Locate(e);
      was := if i.Some? then Some(buckets[b][i.value]) else None;
      if was.None? {
        InsertElem(b, e);
      }
      Rehash(mem);
    }

    /** hash_replace() */
    method Replace(e: T, mem: bool) returns (was: Option<T>)
      requires Valid() && Laws(hash, less)
      modifies this
      ensures Valid() && IsFound(less, old(Elems()), e, was) && (mem ==> Roomy())
      ensures Elems() == (if was.Some? then old(Elems()) - multiset{was.value} else old(Elems())) + multiset{e}
    {
      var b, i := Locate(e);
      was := if i.Some? then Some(buckets[b][i.value]) else None;
      if was.Some? {
        OneLess(hash, less, Elems(), was.value, e);
        RemoveElem(b, i.value);
      }
      InsertElem(b, e);
      Rehash(mem);
    }

    /** hash_delete() */
    method Delete(e: T, mem: bool) returns (found: Option<T>)
      requires Valid() && Laws(hash, less)
      modifies this
      ensures Valid() && IsFound(less, old(Elems()), e, found) && (mem && (found.Some? || old(Roomy())) ==> Roomy())
      ensures Elems() == if found.Some? then old(Elems()) - multiset{found.value} else old(Elems())
    {
      var b, i := Locate(e);
      found := if i.Some? then Some(buckets[b][i.value]) else None;
      if found.Some? {
        RemoveElem(b, i.value);
        Rehash(mem);
      }
    }
  }

  lemma StillUnique<T(!new)>(less: (T, T) -> bool, m: multiset<T>, e: T)
    requires Unique(less, m)
    ensures Unique(less, m - multiset{e})
  {
    var m' := m - multiset{e};
    forall x ensures m'[x] <= 1 { assert m[x] <= 1; }
  }

  /** An element equal to none other can be added. */
  lemma OneMore<T(!new)>(hash: T -> nat, less: (T, T) -> bool, m: multiset<T>, e: T)
    requires Laws(hash, less) && Unique(less, m) && IsFound(less, m, e, None)
    ensures Unique(less, m + multiset{e})
  {
    assert SameLaws(hash, less, e, e, e);
    assert e !in m;
    var m' := m + multiset{e};
    forall x ensures m'[x] <= 1 { assert m[x] <= 1; }
    forall x, y | x in m' && y in m' && Same(less, x, y) ensures x == y {
      assert x in m || x == e;
      assert y in m || y == e;
    }
  }

  /** Once the element equal to `e` is gone there is none. */
  lemma OneLess<T(!new)>(hash: T -> nat, less: (T, T) -> bool, m: multiset<T>, x: T, e: T)
    requires Laws(hash, less) && Unique(less, m) && x in m && Same(less, x, e)
    ensures IsFound(less, m - multiset{x}, e, None)
  {
    forall y | y in m - multiset{x} ensures !Same(less, y, e) {
      assert m[x] <= 1 && y in m && y != x;
      assert SameLaws(hash, less, x, e, y);
      assert !Same(less, x, y);
    }
  }

  /** hash_init(): whether there is memory for the buckets */
  method Make<T(!new, ==)>(hash: T -> nat, less: (T, T) -> bool, memory: bool) returns (h: Table?<T>)
    ensures h == null <==> !memory
    ensures h != null ==> fresh(h) && h.Valid() && h.Elems() == multiset{} && h.hash == hash && h.less == less && h.Roomy()
  {
    if memory {
      h := new Table(hash, less);
    } else {
      h := null;
    }
  }

  // ----- iteration

  /** hash_iterator: a bucket and a place in it, which starts before the first */
  class HashIterator<T(!new, ==)> {
    const table: Table<T>
    var bucket: nat
    var elem: int

    ghost predicate Valid()
      reads this, table
    {
      bucket < |table.buckets| && -1 <= elem < |table.buckets[bucket]|
    }

    /** The elements still to come */
    ghost function Remaining(): seq<T>
      reads this, table
      requires Valid()
    {
      table.buckets[bucket][elem + 1..] + Flat(table.buckets[bucket + 1..])
    }

    /** hash_first() */
    constructor (h: Table<T>)
      requires h.buckets != []
      ensures Valid() && table == h && Remaining() == Flat(h.buckets)
    {
      table, bucket, elem := h, 0, -1;
    }

    /** hash_next(), which may not be called again once it has returned nothing */
    method Next() returns (r: Option<T>)
      requires Valid()
      modifies this
      ensures old(Remaining()) == [] ==> r == None
      ensures old(Remaining()) != [] ==> Valid() && r == Some(old(Remaining())[0]) && Remaining() == old(Remaining())[1..]
    {
      elem := elem + 1;
      while elem == |table.buckets[bucket]|
        invariant bucket < |table.buckets| && 0 <= elem <= |table.buckets[bucket]|
        invariant old(Remaining()) == table.buckets[bucket][elem..] + Flat(table.buckets[bucket + 1..])
        decreases |table.buckets| - bucket
      {
        if bucket + 1 >= |table.buckets| {
          assert table.buckets[bucket + 1..] == [];
          return None;
        }
        ghost var rest := table.buckets[bucket + 1..];
        assert rest[0] == table.buckets[bucket + 1] && rest[1..] == table.buckets[bucket + 2..];
        bucket, elem := bucket + 1, 0;
      }
      return Some(table.buckets[bucket][elem]);
    }
  }

  /** Iterating gives every element of the table exactly once. */
  method Visit<T(!new, ==)>(h: Table<T>) returns (seen: seq<T>)
    requires h.Valid()
    ensures multiset(seen) == h.Elems() && |seen| == h.elemCnt
  {
    FlatHasAll(h.buckets);
    seen := Walk(h);
  }

  lemma NextOf<T>(s: seq<T>, n: nat)
    requires n < |s|
    ensures s[..n] + [s[n]] == s[..n + 1] && s[n..][0] == s[n] && s[n..][1..] == s[n + 1..]
  {
  }

  method Walk<T(!new, ==)>(h: Table<T>) returns (seen: seq<T>)
    requires h.buckets != []
    ensures seen == Flat(h.buckets)
  {
    var i := new HashIterator(h);
    ghost var flat, n := Flat(h.buckets), 0;
    seen := [];
    while true
      invariant fresh(i) && i.table == h && n <= |flat| && seen == flat[..n] && i.Valid() && i.Remaining() == flat[n..]
      decreases |flat| - n
    {
      var e := i.Next();
      if e.None? {
        assert flat[n..] == [];
        break;
      }
      NextOf(flat, n);
      seen := seen + [e.value];
      n := n + 1;
    }
  }
}
