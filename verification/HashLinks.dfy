/** The loop of rehash() on linked lists: elements are unlinked from their old buckets and linked into the new ones. */
module HashLinks {
  import opened Hash
  import opened LinkedList
  import opened SortSpec

  // ----- sets that are apart

  ghost predicate ApartAt<T>(rs: seq<set<T>>, i: int, j: int) { 0 <= i < |rs| && 0 <= j < |rs| && i != j ==> rs[i] !! rs[j] }

  ghost predicate AllApart<T>(rs: seq<set<T>>) { forall i, j {:trigger ApartAt(rs, i, j)} :: ApartAt(rs, i, j) }

  ghost function Union<T>(rs: seq<set<T>>): set<T> { set i, e | 0 <= i < |rs| && e in rs[i] :: e }

  /** An element goes from one to another. */
  lemma SetsMoved<T>(rs: seq<set<T>>, i: nat, j: nat, e: T)
    requires AllApart(rs) && i < |rs| && j < |rs| && i != j && e in rs[i]
    ensures var rs' := rs[i := rs[i] - {e}][j := rs[j] + {e}]; AllApart(rs') && Union(rs') == Union(rs)
  {
    var rs' := rs[i := rs[i] - {e}][j := rs[j] + {e}];
    forall k, l ensures ApartAt(rs', k, l) { assert ApartAt(rs, k, l) && ApartAt(rs, i, k) && ApartAt(rs, i, l); }
    forall x | x in Union(rs) ensures x in Union(rs') {
      var k :| 0 <= k < |rs| && x in rs[k];
      assert x in rs'[if x == e then j else k];
    }
    forall x | x in Union(rs') ensures x in Union(rs) {
      var k :| 0 <= k < |rs| && x in rs'[k];
      assert x in rs[if x == e then i else k];
    }
  }

  // ----- several lists

  ghost function Reprs(ls: seq<List>): (rs: seq<set<Elem>>)
    reads ls
    ensures |rs| == |ls|
  {
    seq(|ls|, i requires 0 <= i < |ls| reads ls => ls[i].repr)
  }

  ghost function Footprint(ls: seq<List>): set<Elem>
    reads ls
  {
    Union(Reprs(ls))
  }

  lemma InFootprint(ls: seq<List>, i: nat)
    requires i < |ls|
    ensures ls[i].repr <= Footprint(ls)
  {
    forall e | e in ls[i].repr ensures e in Footprint(ls) { assert e in Reprs(ls)[i]; }
  }

  ghost predicate ValidAt(ls: seq<List>, i: int)
    reads ls, Footprint(ls)
  {
    0 <= i < |ls| ==> Owned(ls[i].chain, ls[i].repr) && (InFootprint(ls, i); ls[i].Valid())
  }

  /** They are well linked and have no element in common. */
  ghost predicate Store(ls: seq<List>)
    reads ls, Footprint(ls)
  {
    Distinct(ls) && AllApart(Reprs(ls)) && forall i {:trigger ValidAt(ls, i)} :: ValidAt(ls, i)
  }

  /** What is between the head and the tail */
  ghost function Interior(chain: seq<Elem>): seq<Elem> { if |chain| >= 2 then chain[1..|chain| - 1] else [] }

  /** The elements of each list */
  ghost function Contents(ls: seq<List>): (c: seq<seq<Elem>>)
    reads ls
    ensures |c| == |ls|
  {
    seq(|ls|, i requires 0 <= i < |ls| reads ls => Interior(ls[i].chain))
  }

  /** What is different after one element has gone from list `i` to list `j` */
  ghost predicate MovedOver(was: seq<seq<Elem>>, now: seq<seq<Elem>>, i: nat, j: nat) {
    && i < |was| && j < |was| && i != j && was[i] != []
    && now == was[i := was[i][1..]][j := [was[i][0]] + was[j]]
  }

  /** `elem` is the first element of a list, or its tail when there is none. */
  ghost predicate IsFirst(list: seq<Elem>, elem: Elem, tail: Elem) {
    (elem == tail <==> list == []) && (list != [] ==> elem == list[0])
  }

  /** list_next() and list_remove() of the first element of a list, and list_push_front() to another */
  method Transfer(from: List, to: List, elem: Elem) returns (next: Elem)
    requires from.Valid() && to.Valid() && from != to && from.repr !! to.repr
    requires elem != from.tail && IsFirst(Interior(from.chain), elem, from.tail)
    modifies from, to, from.repr, to.repr
    ensures from.Valid() && to.Valid() && elem in old(from.repr)
    ensures IsFirst(Interior(from.chain), next, from.tail)
    ensures from.repr == old(from.repr) - {elem} && to.repr == old(to.repr) + {elem}
    ensures var was := old(Interior(from.chain));
      Interior(from.chain) == was[1..] && Interior(to.chain) == [elem] + old(Interior(to.chain))
  {
    ghost var before := from.chain;
    assert elem == before[1] && elem in before && elem in from.repr && LinkAt(before, 1);
    next := elem.next;
    var after := from.Remove(elem, 1);
    ghost var c := from.chain;
    assert c == Taken(before, 1, 2) && next == c[1];
    if |c| > 2 { Differ(c, 1, |c| - 1); }
    assert elem !in from.repr && elem !in to.chain;
    to.PushFront(elem);
    assert from.chain == c;
  }

  lemma DifferAll(ls: seq<List>, i: nat)
    requires Distinct(ls) && i < |ls|
    ensures forall k {:trigger ls[k]} :: 0 <= k < |ls| && k != i ==> ls[k] != ls[i]
  {
    forall k | 0 <= k < |ls| && k != i ensures ls[k] != ls[i] { Differ(ls, i, k); }
  }

  // ----- links, remembered

  type Links = map<Elem, (Elem?, Elem?)>

  ghost function LinksOf(all: set<Elem>): Links
    reads all
  {
    map e | e in all :: (e.prev, e.next)
  }

  ghost predicate LinkedByAt(c: seq<Elem>, links: Links, k: int) {
    0 <= k < |c| ==> c[k] in links && links[c[k]] == (Before(c, k), After(c, k))
  }

  /** `c` was linked when the links were those. */
  ghost predicate LinkedBy(c: seq<Elem>, links: Links) { forall k {:trigger LinkedByAt(c, links, k)} :: LinkedByAt(c, links, k) }

  lemma LinkedThen(c: seq<Elem>, all: set<Elem>)
    requires Linked(c) && Owned(c, all)
    ensures LinkedBy(c, LinksOf(all))
  {
    forall k ensures LinkedByAt(c, LinksOf(all), k) { assert LinkAt(c, k); }
  }

  lemma LinkedStill(c: seq<Elem>, links: Links)
    requires LinkedBy(c, links) && Distinct(c) && |c| >= 2 && forall e :: e in c && e in links ==> (e.prev, e.next) == links[e]
    ensures Linked(c)
  {
    forall k ensures LinkAt(c, k) { assert LinkedByAt(c, links, k); }
  }

  /** How all lists were */
  datatype Snapshot = Snapshot(chains: seq<seq<Elem>>, reprs: seq<set<Elem>>, links: Links)

  ghost predicate WasLinked(ls: seq<List>, s: Snapshot, k: nat)
    requires k < |ls| == |s.chains| == |s.reprs|
  {
    var c := s.chains[k];
    && LinkedBy(c, s.links) && Owned(c, s.reprs[k]) && Distinct(c) && |c| >= 2
    && c[0] == ls[k].head && c[|c| - 1] == ls[k].tail
  }

  /** List `k` and the links of its elements are as they were. */
  ghost predicate AsBefore(ls: seq<List>, s: Snapshot, k: nat)
    requires k < |ls| == |s.chains| == |s.reprs|
    reads ls[k], s.reprs[k]
  {
    && ls[k].chain == s.chains[k] && ls[k].repr == s.reprs[k]
    && forall e {:trigger e.prev} {:trigger e.next} :: e in s.reprs[k] && e in s.links ==> (e.prev, e.next) == s.links[e]
  }

  lemma Take(ls: seq<List>) returns (s: Snapshot)
    requires Store(ls)
    ensures |s.chains| == |s.reprs| == |ls| && AllApart(s.reprs)
    ensures Union(s.reprs) == Footprint(ls) && Interiors(s.chains) == Contents(ls)
    ensures forall k {:trigger AsBefore(ls, s, k)} :: 0 <= k < |ls| ==> AsBefore(ls, s, k)
    ensures forall k {:trigger WasLinked(ls, s, k)} :: 0 <= k < |ls| ==> WasLinked(ls, s, k)
  {
    s := Snapshot(seq(|ls|, k requires 0 <= k < |ls| reads ls => ls[k].chain), Reprs(ls), LinksOf(Footprint(ls)));
    forall k | 0 <= k < |ls| ensures AsBefore(ls, s, k) && WasLinked(ls, s, k) {
      assert ValidAt(ls, k);
      InFootprint(ls, k);
      LinkedThen(ls[k].chain, Footprint(ls));
    }
  }

  lemma ValidAgain(ls: seq<List>, s: Snapshot, k: nat)
    requires k < |ls| == |s.chains| == |s.reprs| && WasLinked(ls, s, k) && AsBefore(ls, s, k)
    ensures Owned(ls[k].chain, ls[k].repr) && ls[k].Valid()
  {
    LinkedStill(s.chains[k], s.links);
  }

  /** All lists are in order again once the two are. */
  lemma StoreAgain(ls: seq<List>, s: Snapshot, i: nat, j: nat, elem: Elem)
    requires i < |ls| == |s.chains| == |s.reprs| && j < |ls| && i != j && Distinct(ls) && AllApart(s.reprs)
    requires forall k {:trigger WasLinked(ls, s, k)} :: 0 <= k < |ls| ==> WasLinked(ls, s, k)
    requires forall k {:trigger AsBefore(ls, s, k)} :: 0 <= k < |ls| && k != i && k != j ==> AsBefore(ls, s, k)
    requires ls[i].Valid() && ls[j].Valid() && elem in s.reprs[i]
    requires ls[i].repr == s.reprs[i] - {elem} && ls[j].repr == s.reprs[j] + {elem}
    ensures Store(ls) && Footprint(ls) == Union(s.reprs)
  {
    SetsMoved(s.reprs, i, j, elem);
    forall k | 0 <= k < |ls| ensures Reprs(ls)[k] == s.reprs[i := s.reprs[i] - {elem}][j := s.reprs[j] + {elem}][k] {
      assert k != i && k != j ==> AsBefore(ls, s, k);
    }
    assert Reprs(ls) == s.reprs[i := s.reprs[i] - {elem}][j := s.reprs[j] + {elem}];
    forall k ensures ValidAt(ls, k) {
      if 0 <= k < |ls| && k != i && k != j {
        assert WasLinked(ls, s, k) && AsBefore(ls, s, k);
        ValidAgain(ls, s, k);
      }
    }
  }

  lemma ContentsAgain(ls: seq<List>, s: Snapshot, i: nat, j: nat)
    requires i < |ls| == |s.chains| == |s.reprs| && j < |ls| && i != j
    requires forall k {:trigger AsBefore(ls, s, k)} :: 0 <= k < |ls| && k != i && k != j ==> AsBefore(ls, s, k)
    requires var was := Interior(s.chains[i]);
      was != [] && Interior(ls[i].chain) == was[1..] && Interior(ls[j].chain) == [was[0]] + Interior(s.chains[j])
    ensures MovedOver(Interiors(s.chains), Contents(ls), i, j)
  {
    var was, now := Interiors(s.chains), Contents(ls);
    forall k | 0 <= k < |ls| ensures now[k] == was[i := was[i][1..]][j := [was[i][0]] + was[j]][k] {
      assert k != i && k != j ==> AsBefore(ls, s, k);
    }
  }

  ghost function Interiors(chains: seq<seq<Elem>>): (c: seq<seq<Elem>>)
    ensures |c| == |chains|
  {
    seq(|chains|, i requires 0 <= i < |chains| => Interior(chains[i]))
  }

  /** The first element of list `i` goes to the front of list `j`. */
  method MoveFirst(ls: seq<List>, i: nat, j: nat, elem: Elem) returns (next: Elem)
    requires Store(ls) && i < |ls| && j < |ls| && i != j
    requires IsFirst(Contents(ls)[i], elem, ls[i].tail) && elem != ls[i].tail
    modifies ls, Footprint(ls)
    ensures Footprint(ls) == old(Footprint(ls)) && Store(ls)
    ensures MovedOver(old(Contents(ls)), Contents(ls), i, j) && IsFirst(Contents(ls)[i], next, ls[i].tail)
  {
    ghost var s := Take(ls);
    assert ValidAt(ls, i) && ValidAt(ls, j) && AsBefore(ls, s, i) && AsBefore(ls, s, j) && ApartAt(s.reprs, i, j);
    DifferAll(ls, i);
    DifferAll(ls, j);
    InFootprint(ls, i);
    InFootprint(ls, j);
    next := Transfer(ls[i], ls[j], elem);
    forall k | 0 <= k < |ls| && k != i && k != j ensures AsBefore(ls, s, k) {
      assert old(AsBefore(ls, s, k)) && ApartAt(s.reprs, i, k) && ApartAt(s.reprs, j, k) && ls[k] != ls[i] && ls[k] != ls[j];
    }
    StoreAgain(ls, s, i, j, elem);
    ContentsAgain(ls, s, i, j);
  }

  /** list_begin(): the first element, or the tail when there is none */
  method Begin(ls: seq<List>, i: nat) returns (elem: Elem)
    requires Store(ls) && i < |ls|
    ensures IsFirst(Contents(ls)[i], elem, ls[i].tail)
  {
    assert ValidAt(ls, i);
    ghost var c := ls[i].chain;
    assert LinkAt(c, 0) && Owned(c, ls[i].repr);
    InFootprint(ls, i);
    elem := ls[i].head.next;
    if |c| > 2 { Differ(c, 1, |c| - 1); }
  }

  // ----- rehash()

  /** How far the inner loop is: `n` elements of old bucket `i` are in the new buckets. */
  ghost predicate MovedFew(hash: Elem -> nat, was: seq<seq<Elem>>, now: seq<seq<Elem>>, m: nat, i: nat, n: nat)
    requires i < m < |was|
  {
    n <= |was[i]| && now == was[..m][i := was[i][n..]] + Moves(hash, was[m..], was[i][..n])
  }

  lemma HalvesMoved(olds: seq<seq<Elem>>, i: nat, rest: seq<Elem>, news: seq<seq<Elem>>, b: nat, now: seq<seq<Elem>>)
    requires i < |olds| && b < |news| && MovedOver(olds[i := rest] + news, now, i, |olds| + b)
    ensures now == olds[i := rest[1..]] + Pushed(news, b, rest[0])
  {
    var was := olds[i := rest] + news;
    assert was[i] == rest && was[|olds| + b] == news[b];
    var after := olds[i := rest[1..]] + Pushed(news, b, rest[0]);
    assert |now| == |after|;
    forall k | 0 <= k < |now| ensures now[k] == after[k] { }
  }

  lemma OneMoved(hash: Elem -> nat, was: seq<seq<Elem>>, c: seq<seq<Elem>>, now: seq<seq<Elem>>, m: nat, i: nat, n: nat)
    requires i < m < |was| && n < |was[i]| && IsPowerOf2(|was| - m) && MovedFew(hash, was, c, m, i, n)
    requires MovedOver(c, now, i, m + BucketOf(hash, was[i][n], |was| - m))
    ensures MovedFew(hash, was, now, m, i, n + 1)
  {
    var list, x, news := was[i], was[i][n], Moves(hash, was[m..], was[i][..n]);
    MaskIsRemainder(hash(x), |was| - m);
    HalvesMoved(was[..m], i, list[n..], news, BucketOf(hash, x, |was| - m), now);
    assert list[..n + 1][..n] == list[..n] && list[n..][1..] == list[n + 1..];
  }

  lemma NoneYet(hash: Elem -> nat, was: seq<seq<Elem>>, m: nat, i: nat)
    requires i < m < |was|
    ensures MovedFew(hash, was, was, m, i, 0)
  {
    assert was == was[..m] + was[m..] && was[..m] == was[..m][i := was[i][0..]];
  }

  lemma FewAt(hash: Elem -> nat, was: seq<seq<Elem>>, now: seq<seq<Elem>>, m: nat, i: nat, n: nat)
    requires i < m < |was| && MovedFew(hash, was, now, m, i, n)
    ensures |now| == |was| && now[i] == was[i][n..]
  {
  }

  /** One turn of the inner loop */
  method RelinkOne(ls: seq<List>, m: nat, i: nat, hash: Elem -> nat, elem: Elem, ghost was: seq<seq<Elem>>, ghost n: nat)
    returns (next: Elem)
    requires Store(ls) && i < m < |ls| == |was| && IsPowerOf2(|ls| - m) && MovedFew(hash, was, Contents(ls), m, i, n)
    requires IsFirst(Contents(ls)[i], elem, ls[i].tail) && elem != ls[i].tail
    modifies ls, Footprint(ls)
    ensures Footprint(ls) == old(Footprint(ls)) && Store(ls) && MovedFew(hash, was, Contents(ls), m, i, n + 1)
    ensures IsFirst(Contents(ls)[i], next, ls[i].tail)
  {
    ghost var c := Contents(ls);
    FewAt(hash, was, c, m, i, n);
    MaskIsRemainder(hash(elem), |ls| - m);
    next := MoveFirst(ls, i, m + BucketOf(hash, elem, |ls| - m), elem);
    OneMoved(hash, was, c, Contents(ls), m, i, n);
  }

  /** The inner loop: the elements of an old bucket go to their new ones. The first `m` lists are the old buckets. */
  method Relink(ls: seq<List>, m: nat, i: nat, hash: Elem -> nat)
    requires Store(ls) && i < m < |ls| && IsPowerOf2(|ls| - m)
    modifies ls, Footprint(ls)
    ensures Footprint(ls) == old(Footprint(ls)) && Store(ls)
    ensures MovedFew(hash, old(Contents(ls)), Contents(ls), m, i, |old(Contents(ls))[i]|)
  {
    ghost var was, n := Contents(ls), 0;
    NoneYet(hash, was, m, i);
    var elem := Begin(ls, i);
    while elem != ls[i].tail
      invariant Footprint(ls) == old(Footprint(ls)) && Store(ls) && MovedFew(hash, was, Contents(ls), m, i, n)
      invariant IsFirst(Contents(ls)[i], elem, ls[i].tail)
      decreases |was[i]| - n
    {
      elem := RelinkOne(ls, m, i, hash, elem, was, n);
      n := n + 1;
    }
    FewAt(hash, was, Contents(ls), m, i, n);
  }

  /** How far the outer loop is: the elements of `i` old buckets are in the new ones, which were empty. */
  ghost predicate MovedMany(hash: Elem -> nat, was: seq<seq<Elem>>, now: seq<seq<Elem>>, m: nat, i: nat)
    requires m < |was|
  {
    && i <= m && |now| == |was| && now[i..m] == was[i..m] && now[m..] == MovesAll(hash, was[..i], |was| - m)
    && forall k :: 0 <= k < i ==> now[k] == []
  }

  lemma NoneMoved(hash: Elem -> nat, was: seq<seq<Elem>>, m: nat)
    requires m < |was| && forall k :: m <= k < |was| ==> was[k] == []
    ensures MovedMany(hash, was, was, m, 0)
  {
  }

  lemma BucketMoved(hash: Elem -> nat, was: seq<seq<Elem>>, c: seq<seq<Elem>>, now: seq<seq<Elem>>, m: nat, i: nat)
    requires i < m < |was| == |c| && MovedMany(hash, was, c, m, i) && MovedFew(hash, c, now, m, i, |c[i]|)
    ensures MovedMany(hash, was, now, m, i + 1)
  {
    assert c[i] == c[i..m][0] == was[i..m][0] == was[i];
    assert c[i][..|c[i]|] == c[i];
    assert was[..i + 1][..i] == was[..i];
    assert now[m..] == Moves(hash, c[m..], c[i]);
    assert now[i + 1..m] == c[i..m][1..] == was[i..m][1..];
  }

  ghost predicate PlacedAt(hash: Elem -> nat, buckets: seq<seq<Elem>>, b: nat, k: nat) {
    b < |buckets| && k < |buckets[b]| ==> BucketOf(hash, buckets[b][k], |buckets|) == b
  }

  /** Every element is in its bucket. */
  ghost predicate Placed(hash: Elem -> nat, buckets: seq<seq<Elem>>) {
    forall b: nat, k: nat {:trigger PlacedAt(hash, buckets, b, k)} :: PlacedAt(hash, buckets, b, k)
  }

  lemma {:induction false} MovesPlace(hash: Elem -> nat, to: seq<seq<Elem>>, list: seq<Elem>)
    requires IsPowerOf2(|to|) && Placed(hash, to)
    ensures Placed(hash, Moves(hash, to, list)) && All(Moves(hash, to, list)) == All(to) + multiset(list)
  {
    if list != [] {
      var first, x := list[..|list| - 1], list[|list| - 1];
      MovesPlace(hash, to, first);
      MaskIsRemainder(hash(x), |to|);
      assert list == first + [x];
      PushPlaces(hash, Moves(hash, to, first), BucketOf(hash, x, |to|), x);
    }
  }

  lemma PushPlaces(hash: Elem -> nat, to: seq<seq<Elem>>, b: nat, x: Elem)
    requires b < |to| && b == BucketOf(hash, x, |to|) && Placed(hash, to)
    ensures Placed(hash, Pushed(to, b, x)) && All(Pushed(to, b, x)) == All(to) + multiset{x}
  {
    var after := Pushed(to, b, x);
    forall c: nat, k: nat ensures PlacedAt(hash, after, c, k) {
      if c == b && k > 0 { assert PlacedAt(hash, to, c, k - 1); } else { assert PlacedAt(hash, to, c, k); }
    }
    AllPushed(to, b, x);
  }

  /** The new buckets have the elements of the old ones, each in its place. */
  lemma {:induction false} MovesAllPlace(hash: Elem -> nat, from: seq<seq<Elem>>, cnt: nat)
    requires IsPowerOf2(cnt)
    ensures Placed(hash, MovesAll(hash, from, cnt)) && All(MovesAll(hash, from, cnt)) == All(from)
  {
    if from == [] {
      AllEmpty(MovesAll(hash, from, cnt));
    } else {
      var last := |from| - 1;
      MovesAllPlace(hash, from[..last], cnt);
      MovesPlace(hash, MovesAll(hash, from[..last], cnt), from[last]);
      AllPrefix(from, last);
      assert from[..last + 1] == from;
    }
  }

  /** The outer loop: the new buckets, empty at first, get all elements. */
  method RelinkAll(ls: seq<List>, m: nat, hash: Elem -> nat)
    requires Store(ls) && m < |ls| && IsPowerOf2(|ls| - m)
    requires forall k :: m <= k < |ls| ==> Contents(ls)[k] == []
    modifies ls, Footprint(ls)
    ensures Footprint(ls) == old(Footprint(ls)) && Store(ls)
    ensures Contents(ls)[m..] == MovesAll(hash, old(Contents(ls))[..m], |ls| - m)
    ensures Placed(hash, Contents(ls)[m..]) && All(Contents(ls)[m..]) == All(old(Contents(ls))[..m])
    ensures forall k :: 0 <= k < m ==> Contents(ls)[k] == []
  {
    ghost var was := Contents(ls);
    NoneMoved(hash, was, m);
    MovesAllPlace(hash, was[..m], |ls| - m);
    for i := 0 to m
      invariant Footprint(ls) == old(Footprint(ls)) && Store(ls) && MovedMany(hash, was, Contents(ls), m, i)
    {
      ghost var c := Contents(ls);
      Relink(ls, m, i, hash);
      BucketMoved(hash, was, c, Contents(ls), m, i);
    }
  }
}
