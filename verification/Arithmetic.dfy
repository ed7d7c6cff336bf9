/** 64-bit division out of the 64-by-32-bit DIVL instruction; arithmetic.c.

    Machine words are naturals below a power of two, and every operation that can leave that range
    is reduced explicitly. */
module Arithmetic {
  const B: nat := 0x1_0000_0000
  const B2: nat := 0x1_0000_0000_0000_0000

  function Pow2(k: nat): (r: nat)
    ensures r > 0
  {
    if k == 0 then 1 else 2 * Pow2(k - 1)
  }

  lemma {:induction false} Pow2Adds(a: nat, b: nat)
    ensures Pow2(a + b) == Pow2(a) * Pow2(b)
  {
    if a > 0 { Pow2Adds(a - 1, b); }
  }

  lemma Pow2Is()
    ensures Pow2(1) == 2 && Pow2(2) == 4 && Pow2(4) == 0x10 && Pow2(8) == 0x100 && Pow2(16) == 0x1_0000
    ensures Pow2(31) == 0x8000_0000 && Pow2(32) == B && Pow2(33) == 2 * B
  {
    assert Pow2(2) == 4;
    Pow2Adds(2, 2);
    Pow2Adds(4, 4);
    Pow2Adds(8, 8);
    Pow2Adds(16, 16);
  }

  /** DIVL, which traps if the quotient does not fit in 32 bits. */
  method Divl(n: nat, d: nat) returns (q: nat)
    requires n < B2 && 0 < d < B && n / d < B
    ensures q == n / d
  {
    q := n / d;
  }

  /** The number of leading zero bits of a 32-bit word. */
  function LeadingZeros(x: nat): nat
    requires 0 < x < B
    decreases B - x
  {
    if x >= 0x8000_0000 then 0 else 1 + LeadingZeros(2 * x)
  }

  lemma {:induction false} LeadingZerosBounds(x: nat)
    requires 0 < x < B
    ensures var s := LeadingZeros(x); s < 32 && Pow2(31 - s) <= x < Pow2(32 - s)
    decreases B - x
  {
    Pow2Is();
    if x < 0x8000_0000 { LeadingZerosBounds(2 * x); }
  }

  lemma {:induction false} LeadingZerosShift(x: nat, k: nat, p: nat)
    requires p == Pow2(k) && 0 < x && x * p < B
    ensures 0 < x < B && LeadingZeros(x) == k + LeadingZeros(x * p)
    decreases k
  {
    if k > 0 {
      Halves(x, p, Pow2(k - 1));
      LeadingZerosShift(2 * x, k - 1, Pow2(k - 1));
    }
  }

  lemma Halves(x: nat, p: nat, h: nat)
    requires p == 2 * h && h > 0
    ensures x * p == 2 * x * h && x * p >= 2 * x
  {
    assert x * (2 * h) == 2 * x * h;
    MulLe(1, h, 2 * x);
  }

  /** One test of nlz(): shifting `x` left by `k` zero bits. */
  lemma SkipZeros(x: nat, k: nat, p: nat)
    requires (k == 16 && p == 0x1_0000) || (k == 8 && p == 0x100) || (k == 4 && p == 0x10) || (k == 2 && p == 4)
    requires 0 < x && 0 < x * p < B
    ensures x < B && x * p % B == x * p && LeadingZeros(x) == k + LeadingZeros(x * p)
  {
    Pow2Is();
    LeadingZerosShift(x, k, p);
  }

  /** nlz() */
  method Nlz(x0: nat) returns (n: nat)
    requires 0 < x0 < B
    ensures n == LeadingZeros(x0)
  {
    var x := x0;
    n := 0;
    if x <= 0x0000_FFFF {
      SkipZeros(x, 16, 0x1_0000);
      n, x := n + 16, x * 0x1_0000 % B;
    }
    assert 0x1_0000 <= x < B && n + LeadingZeros(x) == LeadingZeros(x0);
    if x <= 0x00FF_FFFF {
      SkipZeros(x, 8, 0x100);
      n, x := n + 8, x * 0x100 % B;
    }
    assert 0x100_0000 <= x < B && n + LeadingZeros(x) == LeadingZeros(x0);
    if x <= 0x0FFF_FFFF {
      SkipZeros(x, 4, 0x10);
      n, x := n + 4, x * 0x10 % B;
    }
    assert 0x1000_0000 <= x < B && n + LeadingZeros(x) == LeadingZeros(x0);
    if x <= 0x3FFF_FFFF {
      SkipZeros(x, 2, 4);
      n, x := n + 2, x * 4 % B;
    }
    assert 0x4000_0000 <= x < B && n + LeadingZeros(x) == LeadingZeros(x0);
    if x <= 0x7FFF_FFFF {
      n := n + 1;
    }
  }

  // ----- unsigned division

  /** The small divisor: the two digits of the quotient, as in the comment of udiv64(). */
  lemma TwoDigits(n: nat, d: nat, n1: nat, n0: nat, r: nat)
    requires 0 < d < B && n1 == n / B && n0 == n % B && r == B * (n1 % d) + n0
    ensures r < B2 && r / d < B && r / d + B * (n1 / d) == n / d
  {
    DivIsNat(n1, d);
    var q1, r1 := n1 / d, n1 % d;
    assert n1 == d * q1 + r1 && n == B * n1 + n0;
    TwoDigitsCore(n, d, n1, n0, q1, r1, r);
    DivPlus(r, d, B * q1);
    DivLess(r, d, B);
  }

  lemma TwoDigitsCore(n: nat, d: nat, n1: nat, n0: nat, q1: nat, r1: nat, r: nat)
    requires d < B && n == B * n1 + n0 && n0 < B && n1 == d * q1 + r1 && r1 < d && r == B * r1 + n0
    ensures n == r + d * (B * q1) && r < d * B && r < B2
  {
    assert B * (d * q1) == d * (B * q1);
  }

  lemma DivPlus(r: nat, d: nat, k: nat)
    requires d > 0
    ensures (r + d * k) / d == r / d + k
  {
    DivIsNat(r, d);
    var q := r / d;
    assert r == d * q + r % d;
    assert d * (q + k) == d * q + d * k;
    DivIs(r + d * k, d, q + k);
  }

  lemma MulLe(a: nat, b: nat, c: nat)
    requires a <= b
    ensures a * c <= b * c && c * a <= c * b
  {
  }

  lemma CancelLess(c: nat, a: nat, b: nat)
    requires c * a < c * b
    ensures a < b
  {
    assert b <= a ==> c * b <= c * a;
  }

  lemma DivIsNat(a: nat, b: nat)
    requires b > 0
    ensures a / b >= 0
  {
    var q: int := a / b;
    assert a == b * q + a % b;
    assert q < 0 ==> b * q + b <= 0;
  }

  lemma DivLess(r: nat, d: nat, k: nat)
    requires d > 0 && r < d * k
    ensures r / d < k
  {
    var q := r / d;
    assert r == d * q + r % d;
    CancelLess(d, q, k);
  }

  /** The quotient is what leaves a remainder below the divisor. */
  lemma DivIs(n: nat, d: nat, q: nat)
    requires d > 0 && d * q <= n < d * q + d
    ensures n / d == q
  {
    var p := n / d;
    assert n == d * p + n % d;
    CancelLess(d, p, q + 1);
    CancelLess(d, q, p + 1);
  }

  /** Dividing by a product at once, or by its factors in turn. */
  lemma DivDiv(n: nat, a: nat, b: nat)
    requires a > 0 && b > 0
    ensures a * b > 0 && n / a / b == n / (a * b)
  {
    DivIsNat(n, a);
    var p := n / a;
    DivIsNat(p, b);
    var q := p / b;
    assert n == a * p + n % a && p == b * q + p % b;
    Nested(a, b, q, n % a, p % b);
    DivIs(n, a * b, q);
  }

  lemma Nested(a: nat, b: nat, q: nat, x: nat, y: nat)
    requires x < a && y < b
    ensures a * (b * q + y) + x == a * b * q + (a * y + x) && a * y + x < a * b
  {
    assert a * (b * q + y) == a * b * q + a * y;
    MulLe(y, b - 1, a);
    assert a * (b - 1) == a * b - a;
  }

  lemma DivMono(n: nat, d: nat, w: nat)
    requires 0 < w <= d
    ensures n / d <= n / w
  {
    var f, q := n / d, n / w;
    assert n == d * f + n % d && n == w * q + n % w;
    MulLe(w, d, f);
    CancelLess(w, f, q + 1);
  }

  lemma DivPositive(n: nat, d: nat)
    requires 0 < d <= n
    ensures n / d >= 1
  {
    assert n == d * (n / d) + n % d;
    CancelLess(d, 0, n / d);
  }

  lemma OneLessFits(n: nat, d: nat, w: nat, q: nat)
    requires 0 < w <= d && q >= 1 && w * q <= n && (q - 1) * (d - w) <= w
    ensures (q - 1) * d <= n
  {
    assert (q - 1) * d == (q - 1) * w + (q - 1) * (d - w);
    assert (q - 1) * w + w == w * q;
  }

  lemma FitsIsAtMost(n: nat, d: nat, k: nat)
    requires d > 0 && k * d <= n
    ensures k <= n / d
  {
    assert n == d * (n / d) + n % d;
    CancelLess(d, k, n / d + 1);
  }

  /** The estimate for a large divisor: if `w` is not much less than `d`, then the quotient by `w` is
      that by `d`, or one more. */
  lemma EstimateIsClose(n: nat, d: nat, w: nat, q: nat)
    requires 0 < w <= d <= n && q == n / w && (q - 1) * (d - w) <= w
    ensures n / d <= q <= n / d + 1 && q >= 1 && (q - 1) * d <= n
  {
    DivMono(n, d, w);
    DivPositive(n, d);
    assert n == w * q + n % w;
    OneLessFits(n, d, w, q);
    FitsIsAtMost(n, d, q - 1);
  }

  /** With the divisor normalised to 64 bits, its top word v1 in its place is `w`, and what is cut
      off is too little for the estimate to be wrong by more than one. */
  lemma EstimateError(n: nat, d: nat, a: nat, b: nat, v1: nat, w: nat, q: nat)
    requires a * b == 2 * B && a >= 2 && (b == 2 || b >= 4)
    requires d <= n < B2 && 0x8000_0000 <= v1 && w == v1 * b && w <= d < w + b && 0 < w && q == n / w
    ensures (q - 1) * (d - w) <= w
  {
    var h := 0x8000_0000 * b;
    MulLe(0x8000_0000, v1, b);
    assert n == w * q + n % w;
    MulLe(h, w, q);
    assert h * a == 0x8000_0000 * (a * b);
    CancelLess(h, q, a);
    ErrorBound(a, b, q, d - w);
  }

  lemma ErrorBound(a: nat, b: nat, q: nat, e: nat)
    requires a * b == 2 * B && q < a && e < b && b >= 1 && a >= 2
    ensures (q - 1) * e <= 2 * B - a - 2 * b + 2
  {
    if q >= 1 {
      MulLe(q - 1, a - 2, e);
      MulLe(e, b - 1, a - 2);
    }
    assert (a - 2) * (b - 1) == a * b - a - 2 * b + 2;
    MulLe(0, a - 2, b - 1);
  }

  lemma ShiftFactors(s: nat)
    requires s < 32
    ensures Pow2(s + 1) * Pow2(32 - s) == 2 * B && Pow2(s + 1) >= 2 && (Pow2(32 - s) == 2 || Pow2(32 - s) >= 4)
    ensures Pow2(32 - s) == 2 * Pow2(31 - s) && Pow2(s) * Pow2(32 - s) == B
  {
    Pow2Is();
    Pow2Adds(s + 1, 32 - s);
    Pow2Adds(s, 32 - s);
    assert s < 31 ==> Pow2(32 - s) == 4 * Pow2(30 - s);
  }

  lemma DivCancel(d: nat, b: nat, p: nat)
    requires b > 0 && p > 0
    ensures p * b > 0 && d * p / (p * b) == d / b
  {
    var q := d / b;
    assert d == b * q + d % b;
    MulLe(b * q, d, p);
    assert p * b * q == b * q * p;
    MulLe(d + 1, b * q + b, p);
    assert (d + 1) * p == d * p + p && (b * q + b) * p == p * b * q + p * b;
    DivIs(d * p, p * b, q);
  }

  lemma ShiftFits(d: nat, p: nat, h: nat)
    requires p > 0 && h * p == 0x8000_0000 && B * h <= d < B * (2 * h)
    ensures B * 0x8000_0000 <= d * p < B2
  {
    MulLe(B * h, d, p);
    assert B * h * p == B * (h * p);
    MulLe(d + 1, B * (2 * h), p);
    assert B * (2 * h) * p == 2 * B * (h * p);
    assert (d + 1) * p == d * p + p;
  }

  lemma NormalisedCore(d: nat, p: nat, b: nat, h: nat)
    requires p > 0 && b > 0 && p * b == B && h * p == 0x8000_0000 && B * h <= d < B * (2 * h)
    ensures var v1 := d * p / B; d * p < B2 && 0x8000_0000 <= v1 < B && v1 * b <= d < v1 * b + b
  {
    ShiftFits(d, p, h);
    DivCancel(d, b, p);
    assert d == b * (d / b) + d % b;
  }

  /** A 64-bit divisor with `s` leading zeros, shifted left by `s` and cut down to its top word. */
  lemma Normalised(d: nat, s: nat)
    requires B <= d < B2 && s == LeadingZeros(d / B)
    ensures s < 32
    ensures var v1, b := d * Pow2(s) / B, Pow2(32 - s);
      d * Pow2(s) < B2 && 0x8000_0000 <= v1 < B && v1 * b <= d < v1 * b + b
  {
    LeadingZerosBounds(d / B);
    ShiftFactors(s);
    HalfFactors(s);
    TopWord(d, Pow2(31 - s));
    NormalisedCore(d, Pow2(s), Pow2(32 - s), Pow2(31 - s));
  }

  lemma HalfFactors(s: nat)
    requires s < 32
    ensures Pow2(31 - s) * Pow2(s) == 0x8000_0000
  {
    Pow2Is();
    Pow2Adds(31 - s, s);
  }

  lemma TopWord(d: nat, h: nat)
    requires h <= d / B < 2 * h
    ensures B * h <= d < B * (2 * h)
  {
    assert d == B * (d / B) + d % B;
  }

  lemma LargeDivisor(n: nat, d: nat, s: nat, v1: nat, q: nat)
    requires d <= n < B2 && s < 32 && 0x8000_0000 <= v1 < B
    requires v1 * Pow2(32 - s) <= d < v1 * Pow2(32 - s) + Pow2(32 - s)
    requires q == n / 2 / v1 / Pow2(31 - s)
    ensures n / d <= q <= n / d + 1 && q >= 1 && (q - 1) * d <= n
  {
    var w := v1 * Pow2(32 - s);
    ShiftFactors(s);
    DivDiv(n, 2, v1);
    DivDiv(n, 2 * v1, Pow2(31 - s));
    assert 2 * v1 * Pow2(31 - s) == w;
    EstimateError(n, d, Pow2(s + 1), Pow2(32 - s), v1, w, q);
    EstimateIsClose(n, d, w, q);
  }

  lemma TestEstimate(n: nat, d: nat, q: nat)
    requires 0 < d && n < B2 && n / d <= q <= n / d + 1 && q >= 1 && (q - 1) * d <= n
    ensures (q - 1) * d % B2 == (q - 1) * d
    ensures n / d == if n - (q - 1) * d < d then q - 1 else q
  {
    if n - (q - 1) * d < d {
      DivIs(n, d, q - 1);
    } else {
      assert q * d == (q - 1) * d + d;
      FitsIsAtMost(n, d, q);
    }
  }

  lemma DivlFits(n: nat, v1: nat)
    requires n < B2 && 0x8000_0000 <= v1 < B
    ensures n / 2 < B2 && n / 2 / v1 < B
  {
    DivLess(n / 2, v1, B);
  }

  /** The branch of udiv64() for divisors of more than 32 bits. */
  method UdivLarge(n: nat, d: nat) returns (r: nat)
    requires d <= n < B2 && B <= d < B2
    ensures r == n / d
  {
    var s := Nlz(d / B);
    Normalised(d, s);
    var v1 := d * Pow2(s) % B2 / B;
    assert v1 == d * Pow2(s) / B;
    DivlFits(n, v1);
    var q1 := Divl(n / 2, v1);
    DivIsNat(q1, Pow2(31 - s));
    var q := q1 / Pow2(31 - s);
    LargeDivisor(n, d, s, v1, q);
    r := Adjust(n, d, q);
  }

  method Adjust(n: nat, d: nat, q: nat) returns (r: nat)
    requires 0 < d && n < B2 && n / d <= q <= n / d + 1 && q >= 1 && (q - 1) * d <= n
    ensures r == n / d
  {
    TestEstimate(n, d, q);
    var m := (n - (q - 1) * d % B2) % B2;
    assert m == n - (q - 1) * d;
    r := if m < d then q - 1 else q;
  }

  /** The branch for divisors of at most 32 bits. */
  method UdivSmall(n: nat, d: nat) returns (r: nat)
    requires n < B2 && 0 < d < B
    ensures r == n / d
  {
    var n1, n0 := n / B, n % B;
    var low := B * (n1 % d) + n0;
    TwoDigits(n, d, n1, n0, low);
    var q := Divl(low, d);
    DivIsNat(n1, d);
    r := q + B * (n1 / d);
  }

  /** udiv64().  Divl() is called only where the instruction does not trap. */
  method Udiv64(n: nat, d: nat) returns (r: nat)
    requires n < B2 && 0 < d < B2
    ensures r == n / d
  {
    if d / B == 0 {
      r := UdivSmall(n, d);
    } else if n < d {
      r := 0;
      DivIs(n, d, 0);
    } else {
      r := UdivLarge(n, d);
    }
  }

  // ----- signed division and the remainders

  const H2: int := 0x8000_0000_0000_0000
  const H: int := 0x8000_0000

  /** A 64-bit or 32-bit word read as a signed number. */
  function Signed64(x: int): (r: int)
    ensures -H2 <= r < H2
  {
    (x + H2) % B2 - H2
  }

  function Signed32(x: int): (r: int)
    ensures -H <= r < H
  {
    (x + H) % B - H
  }

  function Abs(x: int): nat { if x >= 0 then x else -x }

  /** C's quotient and remainder, which truncate towards zero. */
  function Quot(n: int, d: int): int
    requires d != 0
  {
    var q := Abs(n) / Abs(d);
    if (n < 0) == (d < 0) then q else -q
  }

  function Rem(n: int, d: int): int
    requires d != 0
  {
    n - d * Quot(n, d)
  }

  lemma QuotFits(n: int, d: int)
    requires -H2 <= n < H2 && d != 0
    ensures -H2 <= Quot(n, d) <= H2 && (Quot(n, d) == H2 <==> n == -H2 && d == -1)
  {
    var a, b := Abs(n), Abs(d);
    DivIsNat(a, b);
    var q := a / b;
    assert a == b * q + a % b;
    MulLe(1, b, q);
    assert q <= a;
    if b >= 2 { MulLe(2, b, q); }
  }

  lemma RemIsSmall(n: int, d: int)
    requires d != 0
    ensures Abs(Rem(n, d)) == Abs(n) % Abs(d) && (n >= 0 ==> Rem(n, d) >= 0) && (n <= 0 ==> Rem(n, d) <= 0)
  {
    var a: int, b: int := Abs(n), Abs(d);
    var q: int := a / b;
    assert a == b * q + a % b;
    assert d < 0 ==> d * q == 0 - b * q;
    assert d * -q == 0 - d * q;
  }

  lemma Signed64Is(x: int)
    ensures -H2 <= x < H2 ==> Signed64(x) == x
    ensures Signed64(H2) == -H2
  {
  }

  lemma Signed32Is(x: int)
    ensures -H <= x < H ==> Signed32(x) == x
    ensures Signed32(H) == -H
  {
  }

  /** The absolute value of a signed 64-bit number, as an unsigned one. */
  function UAbs(x: int): (r: nat)
    requires -H2 <= x < H2
    ensures r == Abs(x)
  {
    if x >= 0 then x else -x % B2
  }

  /** sdiv64(): the truncated quotient, which wraps for the most negative number over -1 only. */
  method Sdiv64(n: int, d: int) returns (r: int)
    requires -H2 <= n < H2 && -H2 <= d < H2 && d != 0
    ensures r == if n == -H2 && d == -1 then -H2 else Quot(n, d)
  {
    QuotFits(n, d);
    var q: int := Udiv64(UAbs(n), UAbs(d));
    assert Quot(n, d) == if (n < 0) == (d < 0) then q else -q;
    Signed64Is(q);
    Signed64Is(-Signed64(q));
    r := if (n < 0) == (d < 0) then Signed64(q) else Signed64(-Signed64(q));
  }

  /** umod64(), which returns only 32 bits */
  method Umod64(n: nat, d: nat) returns (r: nat)
    requires n < B2 && 0 < d < B2
    ensures r == n % d % B
  {
    var q := Udiv64(n, d);
    assert n == d * q + n % d;
    r := (n - d * q) % B2 % B;
  }

  /** smod64(), which returns only 32 bits */
  method Smod64(n: int, d: int) returns (r: int)
    requires -H2 <= n < H2 && -H2 <= d < H2 && d != 0
    ensures r == Signed32(Rem(n, d))
  {
    var q := Sdiv64(n, d);
    if n == -H2 && d == -1 {
      assert Rem(n, d) == 0;
      assert n - d * q + B2 == 0;
    }
    r := Signed32(n - d * q);
  }

  lemma ModSmall(x: nat, m: nat)
    requires x < m
    ensures x % m == x
  {
    assert x == m * (x / m) + x % m;
    DivIs(x, m, 0);
  }

  /** umod64() is the remainder for every dividend exactly if the divisor is at most 2^32. */
  lemma UmodExact(d: nat)
    requires 0 < d < B2
    ensures (forall n: nat :: n < B2 ==> n % d % B == n % d) <==> d <= B
  {
    if d <= B {
      forall n: nat | n < B2 ensures n % d % B == n % d { ModSmall(n % d, B); }
    } else {
      var n: nat := B;
      ModSmall(n, d);
      assert n % d % B != n % d;
    }
  }

  /** smod64() is the remainder for every dividend exactly if the divisor is at most 2^31 in size. */
  lemma SmodExact(d: int)
    requires -H2 <= d < H2 && d != 0
    ensures (forall n: int :: -H2 <= n < H2 ==> Signed32(Rem(n, d)) == Rem(n, d)) <==> Abs(d) <= H
  {
    if Abs(d) <= H {
      forall n: int | -H2 <= n < H2 ensures Signed32(Rem(n, d)) == Rem(n, d) {
        RemIsSmall(n, d);
        Signed32Is(Rem(n, d));
      }
    } else {
      var n: int := H;
      RemIsSmall(n, d);
      ModSmall(n, Abs(d));
      Signed32Is(H);
      assert Signed32(Rem(n, d)) != Rem(n, d);
    }
  }
}
