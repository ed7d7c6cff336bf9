/** A bitmap packed into words; bitmap.c. */
module Bitmap {
  import opened Common

  // ----- sequences of bits

  predicate InRange(bits: seq<bool>, start: nat, cnt: nat) { start + cnt <= |bits| }

  predicate AllAre(bits: seq<bool>, start: nat, cnt: nat, value: bool)
    requires InRange(bits, start, cnt)
  {
    forall k {:trigger bits[k]} :: start <= k < start + cnt ==> bits[k] == value
  }

  function WithRange(bits: seq<bool>, start: nat, cnt: nat, value: bool): (r: seq<bool>)
    ensures |r| == |bits|
  {
    seq(|bits|, k requires 0 <= k < |bits| => if start <= k < start + cnt then value else bits[k])
  }

  /** `r` is the first place at or after `start` with `cnt` bits equal to `value`; None if there is none. */
  ghost predicate IsFirstFit(bits: seq<bool>, start: nat, cnt: nat, value: bool, r: Option<nat>) {
    && (r.Some? ==> start <= r.value && InRange(bits, r.value, cnt) && AllAre(bits, r.value, cnt, value))
    && forall i :: start <= i && InRange(bits, i, cnt) && (r.Some? ==> i < r.value) ==> !AllAre(bits, i, cnt, value)
  }

  function FirstFit(bits: seq<bool>, start: nat, cnt: nat, value: bool): (r: Option<nat>)
    ensures IsFirstFit(bits, start, cnt, value, r)
    decreases |bits| - start
  {
    if !InRange(bits, start, cnt) then None
    else if AllAre(bits, start, cnt, value) then Some(start)
    else FirstFit(bits, start + 1, cnt, value)
  }

  /** There is only one first fit. */
  lemma FirstFitIsUnique(bits: seq<bool>, start: nat, cnt: nat, value: bool, r: Option<nat>, q: Option<nat>)
    requires IsFirstFit(bits, start, cnt, value, r) && IsFirstFit(bits, start, cnt, value, q)
    ensures r == q
  {
    assert r.Some? ==> AllAre(bits, r.value, cnt, value);
    assert q.Some? ==> AllAre(bits, q.value, cnt, value);
  }

  /** Flipping a range and setting it back again, as free_map_allocate() does when it cannot write the map. */
  lemma RolledBack(bits: seq<bool>, start: nat, cnt: nat, value: bool)
    requires InRange(bits, start, cnt) && AllAre(bits, start, cnt, value)
    ensures WithRange(WithRange(bits, start, cnt, !value), start, cnt, value) == bits
  {
  }

  // ----- words

  const ELEM_BITS: nat := 32

  /** bit_mask() for a bit within its word */
  function Mask(k: nat): bv32 {
    if k == 0 then 1 else Mask(k - 1) << 1
  }

  lemma {:induction false} MaskIsNotZero(k: nat)
    requires k < ELEM_BITS
    ensures Mask(k) != 0
    decreases ELEM_BITS - k
  {
    if k == 31 {
      assert Mask(8) == 0x100 && Mask(16) == 0x1_0000 && Mask(24) == 0x100_0000 && Mask(31) == 0x8000_0000;
    } else {
      MaskIsNotZero(k + 1);
    }
  }

  lemma ShiftedApart(a: bv32, b: bv32)
    ensures 1 & (a << 1) == 0 && (a << 1) & (b << 1) == (a & b) << 1
  {
  }

  lemma {:induction false} MasksAreDisjoint(j: nat, k: nat)
    requires j < k < ELEM_BITS
    ensures Mask(j) & Mask(k) == 0
  {
    if j == 0 {
      ShiftedApart(Mask(k - 1), 0);
    } else {
      MasksAreDisjoint(j - 1, k - 1);
      ShiftedApart(Mask(j - 1), Mask(k - 1));
    }
  }

  predicate Has(w: bv32, mask: bv32) { w & mask != 0 }

  /** bitmap_mark() or bitmap_reset() on a word */
  function Changed(w: bv32, mask: bv32, value: bool): bv32 {
    if value then w | mask else w & !mask
  }

  lemma ChangedHere(w: bv32, m: bv32, value: bool)
    requires m != 0
    ensures Has(Changed(w, m, value), m) == value
  {
  }

  lemma ChangedElsewhere(w: bv32, m: bv32, n: bv32, value: bool)
    requires m & n == 0
    ensures Has(Changed(w, m, value), n) == Has(w, n)
  {
  }

  lemma MasksApart(j: nat, k: nat)
    requires j < ELEM_BITS && k < ELEM_BITS && j != k
    ensures Mask(j) & Mask(k) == 0
  {
    if j < k {
      MasksAreDisjoint(j, k);
    } else {
      MasksAreDisjoint(k, j);
      Commutes(Mask(j), Mask(k));
    }
  }

  lemma Commutes(a: bv32, b: bv32)
    ensures a & b == b & a
  {
  }

  lemma MaskLaws(j: nat, k: nat)
    requires j < ELEM_BITS && k < ELEM_BITS
    ensures Mask(j) != 0 && (j != k ==> Mask(j) & Mask(k) == 0)
  {
    MaskIsNotZero(j);
    if j != k {
      MasksApart(j, k);
    }
  }

  class Bitmap {
    const bitCnt: nat
    const words: array<bv32>

    ghost predicate Valid() { words.Length == (bitCnt + ELEM_BITS - 1) / ELEM_BITS }

    function Bit(i: nat): bool
      requires i < bitCnt && Valid()
      reads words
    {
      Has(words[i / ELEM_BITS], Mask(i % ELEM_BITS))
    }

    /** What the bitmap is from the outside */
    ghost function Bits(): (s: seq<bool>)
      requires Valid()
      reads words
    {
      seq(bitCnt, i requires 0 <= i < bitCnt && Valid() reads words => Bit(i))
    }

    /** bitmap_create_in_buf() */
    constructor (n: nat)
      ensures Valid() && bitCnt == n && fresh(words)
      ensures Bits() == seq(n, _ => false)
    {
      bitCnt := n;
      words := new bv32[(n + ELEM_BITS - 1) / ELEM_BITS];
      new;
      SetMultiple(0, n, false);
      assert WithRange(Bits(), 0, n, false) == seq(n, _ => false);
    }

    /** bitmap_set(), by bitmap_mark() or bitmap_reset() */
    method Set(i: nat, value: bool)
      requires Valid() && i < bitCnt
      modifies words
      ensures Bits() == old(Bits())[i := value]
    {
      ghost var was := words[..];
      words[i / ELEM_BITS] := Changed(words[i / ELEM_BITS], Mask(i % ELEM_BITS), value);
      forall j | 0 <= j < bitCnt ensures Bit(j) == if j == i then value else old(Bit(j)) {
        MaskLaws(i % ELEM_BITS, j % ELEM_BITS);
        if j % ELEM_BITS == i % ELEM_BITS {
          ChangedHere(was[i / ELEM_BITS], Mask(i % ELEM_BITS), value);
        } else {
          ChangedElsewhere(was[i / ELEM_BITS], Mask(i % ELEM_BITS), Mask(j % ELEM_BITS), value);
        }
        assert j / ELEM_BITS == i / ELEM_BITS && j % ELEM_BITS == i % ELEM_BITS ==> j == i;
        assert words[j / ELEM_BITS] == if j / ELEM_BITS == i / ELEM_BITS
          then Changed(was[j / ELEM_BITS], Mask(i % ELEM_BITS), value) else was[j / ELEM_BITS];
      }
    }

    /** bitmap_set_multiple() */
    method SetMultiple(start: nat, cnt: nat, value: bool)
      requires Valid() && start + cnt <= bitCnt
      modifies words
      ensures Bits() == WithRange(old(Bits()), start, cnt, value)
    {
      for i := 0 to cnt
        invariant Bits() == WithRange(old(Bits()), start, i, value)
      {
        Set(start + i, value);
      }
    }

    /** bitmap_contains() */
    method Contains(start: nat, cnt: nat, value: bool) returns (found: bool)
      requires Valid() && start + cnt <= bitCnt
      ensures found == !AllAre(Bits(), start, cnt, !value)
    {
      for i := 0 to cnt
        invariant AllAre(Bits(), start, i, !value)
      {
        if Bit(start + i) == value {
          assert Bits()[start + i] == value;
          return true;
        }
      }
      return false;
    }

    /** bitmap_scan() */
    method Scan(start: nat, cnt: nat, value: bool) returns (r: Option<nat>)
      requires Valid() && start <= bitCnt
      ensures IsFirstFit(Bits(), start, cnt, value, r)
    {
      if cnt <= bitCnt {
        var last, i := bitCnt - cnt, start;
        while i <= last
          invariant start <= i
          invariant forall k :: start <= k < i && InRange(Bits(), k, cnt) ==> !AllAre(Bits(), k, cnt, value)
        {
          var other := Contains(i, cnt, !value);
          if !other {
            return Some(i);
          }
          i := i + 1;
        }
      }
      return None;
    }

    /** bitmap_scan_and_flip() */
    method ScanAndFlip(start: nat, cnt: nat, value: bool) returns (r: Option<nat>)
      requires Valid() && start <= bitCnt
      modifies words
      ensures IsFirstFit(old(Bits()), start, cnt, value, r)
      ensures Bits() == if r.Some? then WithRange(old(Bits()), r.value, cnt, !value) else old(Bits())
    {
      r := Scan(start, cnt, value);
      if r.Some? {
        SetMultiple(r.value, cnt, !value);
      }
    }
  }
  /** bitmap_create(): whether there is memory for the header and for the bits */
  method Make(n: nat, header: bool, bits: bool) returns (b: Bitmap?)
    ensures b == null <==> !header || (!bits && n > 0)
    ensures b != null ==> fresh(b) && b.Valid() && fresh(b.words) && b.bitCnt == n && b.Bits() == seq(n, _ => false)
  {
    if header && (bits || n == 0) {
      b := new Bitmap(n);
    } else {
      b := null;
    }
  }
}
