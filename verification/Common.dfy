module Common {
  datatype Option<+T> = None | Some(value: T)

  type Byte = x: int | 0 <= x < 256

  /** The size of a page of memory */
  const PGSIZE: nat := 4096

  function Min(a: int, b: int): int { if a < b then a else b }

  lemma {:induction false} Smaller<T>(a: set<T>, b: set<T>)
    requires a <= b
    ensures |a| <= |b| && (|a| == |b| ==> a == b)
  {
    if a != {} {
      var x :| x in a;
      Smaller(a - {x}, b - {x});
      assert a == (a - {x}) + {x} && b == (b - {x}) + {x};
    }
  }

  /** A C string is what comes before the first null byte. */
  function CString(b: seq<Byte>): seq<Byte> {
    if b == [] || b[0] == 0 then [] else [b[0]] + CString(b[1..])
  }

  predicate IsName(name: seq<Byte>) { forall i :: 0 <= i < |name| ==> name[i] != 0 }

  lemma {:induction false} CStringOf(name: seq<Byte>, rest: seq<Byte>)
    requires IsName(name)
    ensures CString(name + [0] + rest) == name
  {
    var b := name + [0] + rest;
    if name != [] {
      assert b[1..] == name[1..] + [0] + rest;
      CStringOf(name[1..], rest);
    }
  }

  // ----- 32-bit words in memory, least significant byte first

  const WORD: nat := 0x1_0000_0000

  /** The `n` low bytes of `x` */
  function LittleEndian(x: nat, n: nat): (b: seq<Byte>)
    ensures |b| == n
  {
    if n == 0 then [] else [x % 256] + LittleEndian(x / 256, n - 1)
  }

  function Number(b: seq<Byte>): nat {
    if b == [] then 0 else b[0] + 256 * Number(b[1..])
  }

  function Bound(n: nat): nat { if n == 0 then 1 else 256 * Bound(n - 1) }

  lemma {:induction false} NumberOf(x: nat, n: nat)
    requires x < Bound(n)
    ensures Number(LittleEndian(x, n)) == x
  {
    if n > 0 {
      NumberOf(x / 256, n - 1);
      assert LittleEndian(x, n)[1..] == LittleEndian(x / 256, n - 1);
    }
  }

  function Le32(x: nat): (b: seq<Byte>)
    ensures |b| == 4
  {
    LittleEndian(x, 4)
  }

  function Word(b: seq<Byte>, i: nat): nat
    requires i + 4 <= |b|
  {
    Number(b[i..i + 4])
  }

  lemma WordRoundTrip(x: nat, pre: seq<Byte>, post: seq<Byte>)
    requires x < WORD
    ensures Word(pre + Le32(x) + post, |pre|) == x
  {
    assert (pre + Le32(x) + post)[|pre|..|pre| + 4] == Le32(x);
    assert Bound(4) == 256 * (256 * (256 * 256)) by { assert Bound(2) == 256 * 256; }
    NumberOf(x, 4);
  }
}
