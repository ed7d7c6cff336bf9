/** Archive headers in the "ustar" format of the pax utility; ustar.c, with the octal conversion of stdio.c. */
module Ustar {
  import opened Common

  const HEADER_SIZE: nat := 512
  const ULONG_MAX: nat := 0xffff_ffff
  const INT_MAX: nat := 0x7fff_ffff
  const SLASH: Byte := 47
  const DOT: Byte := 46
  const SPACE: Byte := 32

  type Str = seq<Byte>

  // ----- octal numbers

  /** `v` in exactly `n` octal digits */
  function Octal(v: nat, n: nat): (s: Str)
    ensures |s| == n
    ensures forall i :: 0 <= i < n ==> 48 <= s[i] <= 55
  {
    if n == 0 then [] else Octal(v / 8, n - 1) + [48 + v % 8]
  }

  function EightTo(n: nat): nat { if n == 0 then 1 else 8 * EightTo(n - 1) }

  /** The digits of `v` from the last to the first, none for 0 */
  function Reversed(v: nat): Str { if v == 0 then [] else [48 + v % 8] + Reversed(v / 8) }

  /** What format_integer() puts out for the "%0No" conversion: digits come from the buffer in reverse. */
  function Backwards(s: Str): Str { if s == [] then [] else Backwards(s[1..]) + [s[0]] }

  lemma {:induction false} BackwardsSize(s: Str)
    ensures |Backwards(s)| == |s|
  {
    if s != [] { BackwardsSize(s[1..]); }
  }

  /** Padding with zeros to the width makes the fixed number of digits. */
  lemma {:induction false} PaddedIsOctal(v: nat, n: nat)
    requires v < EightTo(n)
    ensures |Reversed(v)| <= n && seq(n - |Reversed(v)|, _ => 48 as Byte) + Backwards(Reversed(v)) == Octal(v, n)
  {
    BackwardsSize(Reversed(v));
    if n > 0 {
      PaddedIsOctal(v / 8, n - 1);
      BackwardsSize(Reversed(v / 8));
      if v == 0 {
        assert Octal(0, n) == Octal(0, n - 1) + [48];
      } else {
        assert Reversed(v)[1..] == Reversed(v / 8);
      }
    }
  }

  method Digits(value: nat) returns (buf: Str)
    ensures buf == Reversed(value)
  {
    var v := value;
    buf := [];
    while v > 0
      invariant buf + Reversed(v) == Reversed(value)
    {
      buf := buf + [48 + v % 8];
      v := v / 8;
    }
  }

  method OutputReversed(out0: Str, buf0: Str) returns (out: Str)
    ensures out == out0 + Backwards(buf0)
  {
    var buf := buf0;
    out := out0;
    while buf != []
      invariant out + Backwards(buf) == out0 + Backwards(buf0)
    {
      BackwardsLast(buf);
      out := out + [buf[|buf| - 1]];
      buf := buf[..|buf| - 1];
    }
  }

  lemma {:induction false} EightToGrows(m: nat, n: nat)
    requires m <= n
    ensures EightTo(m) <= EightTo(n)
  {
    if m < n { EightToGrows(m, n - 1); }
  }

  /** There are as many digits as `v` needs. */
  lemma {:induction false} ReversedSize(v: nat)
    ensures v < EightTo(|Reversed(v)|) && (v > 0 ==> EightTo(|Reversed(v)| - 1) <= v)
  {
    if v > 0 { ReversedSize(v / 8); }
  }

  /** format_integer() for the conversion "%0No", N being `width`: as many digits as that, or as the number needs */
  method FormatOctal(value: nat, width: nat) returns (out: Str)
    ensures |out| >= width && |out| >= 1 && value < EightTo(|out|) && out == Octal(value, |out|)
    ensures |out| > width && |out| > 1 ==> EightTo(|out| - 1) <= value
    ensures value < EightTo(width) && width >= 1 ==> |out| == width
  {
    var buf := Digits(value);
    ReversedSize(value);
    ghost var n := if |buf| > width then |buf| else if width > 1 then width else 1;
    EightToGrows(|buf|, n);
    PaddedIsOctal(value, n);
    if |buf| < 1 {
      buf := [48];
      assert seq(n, _ => 48 as Byte) == seq(n - 1, _ => 48 as Byte) + [48];
    }
    var pad := if width > |buf| then width - |buf| else 0;
    BackwardsSize(buf);
    out := OutputReversed(seq(pad, _ => 48), buf);
    if |out| > width >= 1 { EightToGrows(width, |out| - 1); }
  }

  lemma {:induction false} BackwardsLast(s: Str)
    requires s != []
    ensures Backwards(s) == [s[|s| - 1]] + Backwards(s[..|s| - 1])
  {
    if |s| > 1 {
      BackwardsLast(s[1..]);
      assert s[1..][..|s| - 2] == s[..|s| - 1][1..];
    }
  }

  /** parse_octal_field(): `value` is what the first `ofs` digits have given. */
  function ParseOctal(s: Str, ofs: nat, value: nat): Option<nat>
    requires ofs <= |s|
    decreases |s| - ofs
  {
    if ofs == |s| then None
    else if 48 <= s[ofs] <= 55 then
      if value > ULONG_MAX / 8 then None else ParseOctal(s, ofs + 1, s[ofs] - 48 + value * 8)
    else if s[ofs] == SPACE || s[ofs] == 0 then if ofs > 0 then Some(value) else None
    else None
  }

  method ParseOctalField(s: Str) returns (r: Option<nat>)
    ensures r == ParseOctal(s, 0, 0) == FieldValue(s)
  {
    ParsesExactly(s, 0);
    assert s[..0] == [];
    var value: nat := 0;
    for ofs := 0 to |s|
      invariant ParseOctal(s, 0, 0) == ParseOctal(s, ofs, value) && value <= ULONG_MAX
    {
      var c := s[ofs];
      if 48 <= c <= 55 {
        if value > ULONG_MAX / 8 {
          return None;
        }
        value := c - 48 + value * 8;
      } else if c == SPACE || c == 0 {
        return if ofs > 0 then Some(value) else None;
      } else {
        return None;
      }
    }
    return None;
  }

  predicate AllDigits(s: Str) { forall i :: 0 <= i < |s| ==> 48 <= s[i] <= 55 }

  /** The number that octal digits stand for */
  function Value(s: Str): nat
    requires AllDigits(s)
  {
    if s == [] then 0 else Value(s[..|s| - 1]) * 8 + (s[|s| - 1] - 48)
  }

  lemma {:induction false} ValueOfOctal(v: nat, n: nat)
    requires v < EightTo(n)
    ensures Value(Octal(v, n)) == v
  {
    if n > 0 {
      ValueOfOctal(v / 8, n - 1);
      assert Octal(v, n)[..n - 1] == Octal(v / 8, n - 1);
    }
  }

  lemma {:induction false} ValueGrows(s: Str, k: nat)
    requires AllDigits(s) && k <= |s|
    ensures Value(s[..k]) <= Value(s)
  {
    if k == |s| {
      assert s[..k] == s;
    } else {
      ValueGrows(s[..|s| - 1], k);
      assert s[..|s| - 1][..k] == s[..k];
    }
  }

  /** How many octal digits there are at the beginning */
  function DigitRun(s: Str): (n: nat)
    ensures n <= |s| && AllDigits(s[..n]) && (n < |s| ==> !(48 <= s[n] <= 55))
  {
    if s == [] || !(48 <= s[0] <= 55) then 0 else 1 + DigitRun(s[1..])
  }

  /** What a field means: a number if there are digits, followed by a space or a null byte, that stand for one which is
      not too large. */
  function FieldValue(s: Str): Option<nat> {
    var n := DigitRun(s);
    if 0 < n < |s| && (s[n] == SPACE || s[n] == 0) && Value(s[..n]) <= ULONG_MAX then Some(Value(s[..n])) else None
  }

  lemma ValueNext(s: Str, ofs: nat)
    requires ofs < |s| && AllDigits(s[..ofs + 1])
    ensures AllDigits(s[..ofs]) && Value(s[..ofs + 1]) == Value(s[..ofs]) * 8 + (s[ofs] - 48)
  {
    assert s[..ofs + 1][..ofs] == s[..ofs];
  }

  lemma {:induction false} ParsesExactly(s: Str, ofs: nat)
    requires ofs <= |s| && ofs <= DigitRun(s) && AllDigits(s[..ofs]) && Value(s[..ofs]) <= ULONG_MAX
    ensures ParseOctal(s, ofs, Value(s[..ofs])) == FieldValue(s)
    decreases |s| - ofs
  {
    var n := DigitRun(s);
    if ofs < n {
      assert s[..n][ofs] == s[ofs] && s[..n][..ofs + 1] == s[..ofs + 1];
      ValueNext(s, ofs);
      ValueGrows(s[..n], ofs + 1);
      if Value(s[..ofs]) <= ULONG_MAX / 8 { ParsesExactly(s, ofs + 1); }
    }
  }

  /** Digits followed by a null byte are read as their value. */
  lemma {:induction false} ParsesDigits(digits: Str, rest: Str, ofs: nat)
    requires AllDigits(digits) && Value(digits) <= ULONG_MAX && ofs <= |digits| && digits != []
    ensures ParseOctal(digits + [0] + rest, ofs, Value(digits[..ofs])) == Some(Value(digits))
    decreases |digits| - ofs
  {
    var s := digits + [0] + rest;
    if ofs == |digits| {
      assert digits[..ofs] == digits;
    } else {
      assert s[ofs] == digits[ofs] && digits[..ofs + 1][..ofs] == digits[..ofs];
      assert Value(digits[..ofs + 1]) == Value(digits[..ofs]) * 8 + (digits[ofs] - 48);
      ValueGrows(digits, ofs + 1);
      ParsesDigits(digits, rest, ofs + 1);
    }
  }

  /** A number printed in octal is read back. */
  lemma OctalRoundTrip(v: nat, n: nat, rest: Str)
    requires v < EightTo(n) && v <= ULONG_MAX && n > 0
    ensures ParseOctal(Octal(v, n) + [0] + rest, 0, 0) == Some(v)
  {
    ValueOfOctal(v, n);
    assert Octal(v, n)[..0] == [];
    ParsesDigits(Octal(v, n), rest, 0);
  }

  // ----- file names

  /** What strip_antisocial_prefixes() takes away in one turn */
  predicate Antisocial(name: Str) {
    || (|name| >= 1 && name[0] == SLASH)
    || (|name| >= 2 && name[0] == DOT && name[1] == SLASH)
    || (|name| >= 3 && name[0] == DOT && name[1] == DOT && name[2] == SLASH)
  }

  /** The place of the first slash, which strchr() finds */
  function SlashAt(name: Str): nat
    requires Antisocial(name)
  {
    if name[0] == SLASH then 0 else if name[1] == SLASH then 1 else 2
  }

  function Strip(name: Str): Str {
    if Antisocial(name) then Strip(name[SlashAt(name) + 1..])
    else if name == [] || name == [DOT, DOT] then [DOT]
    else name
  }

  method StrChr(s: Str, c: Byte) returns (i: nat)
    requires c in s
    ensures i < |s| && s[i] == c && c !in s[..i]
  {
    i := 0;
    while s[i] != c
      invariant i < |s| && c !in s[..i] && c in s[i..]
      decreases |s| - i
    {
      i := i + 1;
    }
  }

  /** strip_antisocial_prefixes() */
  method StripPrefixes(fileName: Str) returns (r: Str)
    ensures r == Strip(fileName)
  {
    var name := fileName;
    while Antisocial(name)
      invariant Strip(name) == Strip(fileName)
      decreases |name|
    {
      assert name[SlashAt(name)] == SLASH;
      var i := StrChr(name, SLASH);
      assert i == SlashAt(name);
      name := name[i + 1..];
    }
    return if name == [] || name == [DOT, DOT] then [DOT] else name;
  }

  /** A stripped name leads nowhere but down from where it is used, and is not stripped any further. */
  lemma {:induction false} StrippedIsSafe(name: Str)
    requires IsName(name)
    ensures var r := Strip(name); IsName(r) && r != [] && !Antisocial(r) && r != [DOT, DOT] && Strip(r) == r
  {
    if Antisocial(name) {
      StrippedIsSafe(name[SlashAt(name) + 1..]);
    }
  }

  /** Nothing but slashes, and dots before slashes */
  predicate OnlyPrefixes(s: Str) { s == [] || (Antisocial(s) && OnlyPrefixes(s[SlashAt(s) + 1..])) }

  /** And nothing but that is taken away, as much as there is: what is left is the name, unless that is empty or dot-dot. */
  lemma {:induction false} StripTakes(name: Str) returns (k: nat)
    ensures k <= |name| && OnlyPrefixes(name[..k]) && !Antisocial(name[k..])
    ensures Strip(name) == if name[k..] == [] || name[k..] == [46, 46] then [46] else name[k..]
  {
    if Antisocial(name) {
      var n := SlashAt(name) + 1;
      k := StripTakes(name[n..]);
      k := k + n;
      assert name[n..][..k - n] == name[..k][n..] && name[n..][k - n..] == name[k..];
    } else {
      k := 0;
    }
  }

  // ----- headers

  datatype Kind = Regular | Directory

  function TypeFlag(kind: Kind): Byte { if kind.Regular? then 48 else 53 }

  function Mode(kind: Kind): nat { if kind.Regular? then 420 else 493 }

  const MTIME: nat := 1136102400
  const USTAR: Str := [117, 115, 116, 97, 114]
  const ROOT: Str := [114, 111, 111, 116]
  const NO_ID: Str := [48, 48, 48, 48, 48, 48, 48]

  /** Byte `j` of a field that holds `s` and then null bytes */
  function Cell(s: Str, j: int): Byte { if 0 <= j < |s| then s[j] else 0 }

  /** Byte `i` of a header, given the text of its checksum */
  function HeaderByte(name: Str, kind: Kind, size: nat, chksum: Str, i: nat): Byte {
    if i < 100 then Cell(name, i)
    else if i < 108 then Cell(Octal(Mode(kind), 7), i - 100)
    else if i < 116 then Cell(NO_ID, i - 108)
    else if i < 124 then Cell(NO_ID, i - 116)
    else if i < 136 then Cell(Octal(size, 11), i - 124)
    else if i < 148 then Cell(Octal(MTIME, 11), i - 136)
    else if i < 156 then Cell(chksum, i - 148)
    else if i < 157 then TypeFlag(kind)
    else if i < 257 then 0
    else if i < 263 then Cell(USTAR, i - 257)
    else if i < 265 then 48
    else if i < 297 then Cell(ROOT, i - 265)
    else if i < 329 then Cell(ROOT, i - 297)
    else 0
  }

  function HeaderWith(name: Str, kind: Kind, size: nat, chksum: Str): (h: Str)
    ensures |h| == HEADER_SIZE
  {
    seq(HEADER_SIZE, i requires 0 <= i < HEADER_SIZE => HeaderByte(name, kind, size, chksum, i))
  }

  /** The checksum counts its own field as spaces. */
  predicate InChksum(i: nat) { 148 <= i < 156 }

  function Chksum(h: Str, n: nat): nat
    requires n <= |h|
  {
    if n == 0 then 0 else Chksum(h, n - 1) + if InChksum(n - 1) then 32 else h[n - 1]
  }

  /** calculate_chksum() */
  method CalculateChksum(h: Str) returns (sum: nat)
    requires |h| == HEADER_SIZE
    ensures sum == Chksum(h, HEADER_SIZE)
  {
    sum := 0;
    for i := 0 to HEADER_SIZE
      invariant sum == Chksum(h, i)
    {
      sum := sum + if 148 <= i < 156 then 32 else h[i];
    }
  }

  /** The sum of bytes */
  function Sum(s: Str): nat { if s == [] then 0 else Sum(s[..|s| - 1]) + s[|s| - 1] }

  /** What it is: the sum of all bytes before and after the field, and of eight spaces. */
  lemma ChksumIs(h: Str)
    requires |h| == HEADER_SIZE
    ensures Chksum(h, HEADER_SIZE) == Sum(h[..148]) + 8 * 32 + Sum(h[156..])
  {
    ChksumBefore(h, 148);
    ChksumField(h, 156);
    ChksumAfter(h, HEADER_SIZE);
    assert h[156..HEADER_SIZE] == h[156..];
  }

  lemma {:induction false} ChksumBefore(h: Str, n: nat)
    requires n <= |h| && n <= 148
    ensures Chksum(h, n) == Sum(h[..n])
  {
    if n > 0 {
      ChksumBefore(h, n - 1);
      assert h[..n][..n - 1] == h[..n - 1];
    }
  }

  lemma {:induction false} ChksumField(h: Str, n: nat)
    requires 148 <= n <= 156 <= |h|
    ensures Chksum(h, n) == Chksum(h, 148) + 32 * (n - 148)
  {
    if n > 148 { ChksumField(h, n - 1); }
  }

  lemma {:induction false} ChksumAfter(h: Str, n: nat)
    requires 156 <= n <= |h|
    ensures Chksum(h, n) == Chksum(h, 156) + Sum(h[156..n])
  {
    if n > 156 {
      ChksumAfter(h, n - 1);
      assert h[156..n][..n - 157] == h[156..n - 1];
    }
  }

  lemma {:induction false} ChksumBound(h: Str, n: nat)
    requires n <= |h|
    ensures Chksum(h, n) <= 255 * n
  {
    if n > 0 { ChksumBound(h, n - 1); }
  }

  /** Only bytes outside the field matter. */
  lemma {:induction false} ChksumSame(h: Str, g: Str, n: nat)
    requires n <= |h| && n <= |g| && forall i :: 0 <= i < n && !InChksum(i) ==> h[i] == g[i]
    ensures Chksum(h, n) == Chksum(g, n)
  {
    if n > 0 { ChksumSame(h, g, n - 1); }
  }

  lemma {:induction false} ChksumChanged(h: Str, i: nat, x: Byte, n: nat)
    requires i < n <= |h| && !InChksum(i)
    ensures Chksum(h[i := x], n) == Chksum(h, n) - h[i] + x
  {
    if i == n - 1 {
      ChksumSame(h, h[i := x], n - 1);
    } else {
      ChksumChanged(h, i, x, n - 1);
    }
  }

  /** The header that ustar_make_header() composes for a name that is stripped already */
  function Header(name: Str, kind: Kind, size: nat): Str {
    HeaderWith(name, kind, size, Octal(Chksum(HeaderWith(name, kind, size, []), HEADER_SIZE), 7))
  }

  // ----- composing a header

  /** strlcpy() or snprintf() into a field that has room */
  method PutField(header: array<Byte>, ofs: nat, width: nat, s: Str)
    requires |s| < width && ofs + width <= header.Length
    modifies header
    ensures forall i :: 0 <= i < header.Length ==>
      header[i] == if ofs <= i < ofs + |s| then s[i - ofs] else if i == ofs + |s| then 0 else old(header[i])
  {
    for k := 0 to |s|
      invariant forall i :: 0 <= i < header.Length ==> header[i] == if ofs <= i < ofs + k then s[i - ofs] else old(header[i])
    {
      header[ofs + k] := s[k];
    }
    header[ofs + |s|] := 0;
  }

  /** An int as printf() takes it for an unsigned conversion */
  function Unsigned(x: int): (u: nat)
    requires -0x8000_0000 <= x <= INT_MAX
    ensures u <= ULONG_MAX && (x >= 0 ==> u == x) && (x < 0 ==> u > INT_MAX)
  {
    if x >= 0 then x else x + ULONG_MAX + 1
  }

  lemma EnoughDigits()
    ensures ULONG_MAX < EightTo(11) && 255 * HEADER_SIZE < EightTo(7) && MTIME < EightTo(11) && 493 < EightTo(7)
  {
    assert EightTo(4) == 4096 && EightTo(7) == 2097152 && EightTo(11) == 8589934592;
  }

  /** The name and the numbers */
  method FillNumbers(name: Str, kind: Kind, size: nat, header: array<Byte>)
    requires header.Length == HEADER_SIZE && |name| <= 99 && size <= ULONG_MAX
    modifies header
    ensures forall i :: 0 <= i < HEADER_SIZE ==> header[i] == if i < 148 then HeaderByte(name, kind, size, [], i) else 0
  {
    EnoughDigits();
    forall i | 0 <= i < HEADER_SIZE { header[i] := 0; }
    PutField(header, 0, 100, name);
    var mode := FormatOctal(Mode(kind), 7);
    PutField(header, 100, 8, mode);
    PutField(header, 108, 8, NO_ID);
    PutField(header, 116, 8, NO_ID);
    var digits := FormatOctal(size, 11);
    PutField(header, 124, 12, digits);
    var mtime := FormatOctal(MTIME, 11);
    PutField(header, 136, 12, mtime);
  }

  /** Everything but the checksum */
  method FillHeader(name: Str, kind: Kind, size: nat, header: array<Byte>)
    requires header.Length == HEADER_SIZE && |name| <= 99 && size <= ULONG_MAX
    modifies header
    ensures header[..] == HeaderWith(name, kind, size, [])
  {
    FillNumbers(name, kind, size, header);
    header[156] := TypeFlag(kind);
    PutField(header, 257, 6, USTAR);
    header[263], header[264] := 48, 48;
    PutField(header, 297, 32, ROOT);
    PutField(header, 265, 32, ROOT);
  }

  /** ustar_make_header(), which fails only if the name is too long */
  method MakeHeader(fileName: Str, kind: Kind, size: int, header: array<Byte>) returns (ok: bool)
    requires header.Length == HEADER_SIZE && -0x8000_0000 <= size <= INT_MAX
    modifies header
    ensures ok == (|Strip(fileName)| <= 99)
    ensures ok ==> header[..] == Header(Strip(fileName), kind, Unsigned(size))
    ensures !ok ==> header[..] == old(header[..])
  {
    var name := StripPrefixes(fileName);
    if |name| > 99 {
      return false;
    }
    FillHeader(name, kind, Unsigned(size), header);
    var sum := CalculateChksum(header[..]);
    ChksumBound(header[..], HEADER_SIZE);
    EnoughDigits();
    var s := FormatOctal(sum, 7);
    PutField(header, 148, 8, s);
    return true;
  }

  // ----- parsing a header

  datatype Entry = EndOfArchive | File(name: Str, kind: Kind, size: nat)

  datatype Result = Ok(entry: Entry) | Bad(message: string)

  predicate AllZeros(h: Str) { forall i :: 0 <= i < |h| ==> h[i] == 0 }

  /** ustar_parse_header() */
  function Parse(h: Str): Result
    requires |h| == HEADER_SIZE
  {
    if AllZeros(h) then Ok(EndOfArchive)
    else if h[257..263] != USTAR + [0] then Bad("not a ustar archive")
    else if h[263] != 48 || h[264] != 48 then Bad("invalid ustar version")
    else match ParseOctal(h[148..156], 0, 0)
      case None => Bad("corrupt chksum field")
      case Some(chksum) =>
        if chksum != Chksum(h, HEADER_SIZE) then Bad("checksum mismatch")
        else if h[99] != 0 || h[345] != 0 then Bad("file name too long")
        else if h[156] == TypeFlag(Regular) then
          match ParseOctal(h[124..136], 0, 0)
          case None => Bad("corrupt file size field")
          case Some(size) =>
            if size > INT_MAX then Bad("file too large") else Ok(File(Strip(CString(h[..100])), Regular, size))
        else if h[156] == TypeFlag(Directory) then Ok(File(Strip(CString(h[..100])), Directory, 0))
        else Bad("unimplemented file type")
  }

  method IsAllZeros(h: Str) returns (r: bool)
    ensures r == AllZeros(h)
  {
    for i := 0 to |h|
      invariant forall k :: 0 <= k < i ==> h[k] == 0
    {
      if h[i] != 0 {
        return false;
      }
    }
    return true;
  }

  method ParseHeader(h: Str) returns (r: Result)
    requires |h| == HEADER_SIZE
    ensures r == Parse(h)
  {
    var zeros := IsAllZeros(h);
    if zeros {
      return Ok(EndOfArchive);
    }
    if h[257..263] != USTAR + [0] {
      return Bad("not a ustar archive");
    } else if h[263] != 48 || h[264] != 48 {
      return Bad("invalid ustar version");
    }
    var chksum := ParseOctalField(h[148..156]);
    if chksum.None? {
      return Bad("corrupt chksum field");
    }
    var sum := CalculateChksum(h);
    if chksum.value != sum {
      return Bad("checksum mismatch");
    } else if h[99] != 0 || h[345] != 0 {
      return Bad("file name too long");
    } else if h[156] != TypeFlag(Regular) && h[156] != TypeFlag(Directory) {
      return Bad("unimplemented file type");
    }
    var size := 0;
    if h[156] == TypeFlag(Regular) {
      var field := ParseOctalField(h[124..136]);
      if field.None? {
        return Bad("corrupt file size field");
      } else if field.value > INT_MAX {
        return Bad("file too large");
      }
      size := field.value;
    }
    var name := StripPrefixes(CString(h[..100]));
    return Ok(File(name, if h[156] == TypeFlag(Regular) then Regular else Directory, size));
  }

  // ----- what a header is for

  /** The fields of a composed header, as the parser takes them */
  lemma HeaderFields(name: Str, kind: Kind, size: nat)
    requires IsName(name) && |name| <= 99 && size <= ULONG_MAX
    ensures var h := Header(name, kind, size); var sum := Chksum(h, HEADER_SIZE);
      && h[257..263] == USTAR + [0] && h[263] == h[264] == 48 && h[156] == TypeFlag(kind) && h[99] == h[345] == 0
      && sum <= 255 * HEADER_SIZE && h[148..156] == Octal(sum, 7) + [0] && h[124..136] == Octal(size, 11) + [0]
  {
    var empty := HeaderWith(name, kind, size, []);
    var s := Octal(Chksum(empty, HEADER_SIZE), 7);
    var h := HeaderWith(name, kind, size, s);
    ChksumSame(empty, h, HEADER_SIZE);
    ChksumBound(h, HEADER_SIZE);
  }

  /** A number in octal, with its null byte, is a field of that value. */
  lemma FieldOf(s: Str, v: nat, n: nat)
    requires v < EightTo(n) && v <= ULONG_MAX && n > 0 && s == Octal(v, n) + [0]
    ensures FieldValue(s) == Some(v)
  {
    OctalRoundTrip(v, n, []);
    assert s + [] == s && s[..0] == [];
    ParsesExactly(s, 0);
  }

  /** What a reader of the format finds in a composed header: the numbers */
  lemma HeaderNumbers(name: Str, kind: Kind, size: nat)
    requires IsName(name) && |name| <= 99 && size <= ULONG_MAX
    ensures var h := Header(name, kind, size);
      && FieldValue(h[100..108]) == Some(if kind.Regular? then 6 * 64 + 4 * 8 + 4 else 7 * 64 + 5 * 8 + 5)
      && FieldValue(h[108..116]) == FieldValue(h[116..124]) == Some(0)
      && FieldValue(h[124..136]) == Some(size) && FieldValue(h[136..148]) == Some(1136102400)
      && FieldValue(h[148..156]) == Some(Sum(h[..148]) + 8 * 32 + Sum(h[156..]))
  {
    HeaderMode(name, kind, size);
    HeaderIds(name, kind, size);
    HeaderSize(name, kind, size);
    HeaderTime(name, kind, size);
    HeaderSum(name, kind, size);
  }

  lemma HeaderMode(name: Str, kind: Kind, size: nat)
    ensures FieldValue(Header(name, kind, size)[100..108]) == Some(Mode(kind))
  {
    EnoughDigits();
    FieldOf(Header(name, kind, size)[100..108], Mode(kind), 7);
  }

  lemma HeaderIds(name: Str, kind: Kind, size: nat)
    ensures var h := Header(name, kind, size); FieldValue(h[108..116]) == FieldValue(h[116..124]) == Some(0)
  {
    ZeroField();
    var h := Header(name, kind, size);
    assert h[108..116] == NO_ID + [0] && h[116..124] == NO_ID + [0];
  }

  lemma ZeroField()
    ensures FieldValue(NO_ID + [0]) == Some(0)
  {
    EnoughDigits();
    assert Octal(0, 7) == NO_ID;
    FieldOf(NO_ID + [0], 0, 7);
  }

  lemma HeaderSize(name: Str, kind: Kind, size: nat)
    requires size <= ULONG_MAX
    ensures FieldValue(Header(name, kind, size)[124..136]) == Some(size)
  {
    EnoughDigits();
    FieldOf(Header(name, kind, size)[124..136], size, 11);
  }

  lemma HeaderTime(name: Str, kind: Kind, size: nat)
    ensures FieldValue(Header(name, kind, size)[136..148]) == Some(MTIME)
  {
    EnoughDigits();
    FieldOf(Header(name, kind, size)[136..148], MTIME, 11);
  }

  lemma HeaderSum(name: Str, kind: Kind, size: nat)
    requires IsName(name) && |name| <= 99 && size <= ULONG_MAX
    ensures var h := Header(name, kind, size); FieldValue(h[148..156]) == Some(Sum(h[..148]) + 8 * 32 + Sum(h[156..]))
  {
    var h := Header(name, kind, size);
    HeaderFields(name, kind, size);
    EnoughDigits();
    ChksumIs(h);
    FieldOf(h[148..156], Chksum(h, HEADER_SIZE), 7);
  }

  /** And the texts: the name, the type, the magic and the version, "root" for user and group, and nothing else */
  lemma HeaderTexts(name: Str, kind: Kind, size: nat)
    requires |name| <= 99
    ensures var h := Header(name, kind, size);
      && h[..100] == name + seq(100 - |name|, _ => 0) && h[156] == (if kind.Regular? then 48 else 53)
      && h[157..257] == seq(100, _ => 0) && h[257..265] == [117, 115, 116, 97, 114, 0, 48, 48]
      && h[265..297] == h[297..329] == [114, 111, 111, 116] + seq(28, _ => 0) && h[329..] == seq(183, _ => 0)
  {
  }

  /** A header is accepted for a file exactly if it is not all zeros and has the magic, the version, its own checksum, a
      name that ends in its field and no prefix, and says that it is for this file. */
  lemma ParsedExactly(h: Str, name: Str, kind: Kind, size: nat)
    requires |h| == HEADER_SIZE
    ensures Parse(h) == Ok(File(name, kind, size)) <==>
      && !AllZeros(h) && h[257..265] == [117, 115, 116, 97, 114, 0, 48, 48]
      && FieldValue(h[148..156]) == Some(Sum(h[..148]) + 8 * 32 + Sum(h[156..])) && h[99] == h[345] == 0
      && name == Strip(CString(h[..100]))
      && match kind
         case Regular => h[156] == 48 && FieldValue(h[124..136]) == Some(size) && size <= 0x7fff_ffff
         case Directory => h[156] == 53 && size == 0
  {
    ChksumIs(h);
    MagicAndVersion(h);
    FieldIs(h[148..156]);
    FieldIs(h[124..136]);
  }

  lemma FieldIs(s: Str)
    ensures ParseOctal(s, 0, 0) == FieldValue(s)
  {
    assert s[..0] == [];
    ParsesExactly(s, 0);
  }

  lemma MagicAndVersion(h: Str)
    requires |h| == HEADER_SIZE
    ensures h[257..265] == [117, 115, 116, 97, 114, 0, 48, 48] <==> h[257..263] == USTAR + [0] && h[263] == h[264] == 48
  {
    var m := h[257..265];
    assert m[..6] == h[257..263] && m[6] == h[263] && m[7] == h[264] && m == m[..6] + [m[6], m[7]];
    assert [117, 115, 116, 97, 114, 0, 48, 48] == USTAR + [0] + [48, 48];
  }

  lemma HeaderName(name: Str, kind: Kind, size: nat)
    requires IsName(name) && |name| <= 99
    ensures CString(Header(name, kind, size)[..100]) == name
  {
    var b, zeros := Header(name, kind, size)[..100], seq(99 - |name|, _ => 0 as Byte);
    assert b == name + [0] + zeros;
    CStringOf(name, zeros);
  }

  /** Parsing a composed header gives the stripped name, the type, and the size unless it is a directory. */
  lemma HeaderRoundTrip(fileName: Str, kind: Kind, size: int)
    requires IsName(fileName) && |Strip(fileName)| <= 99 && -0x8000_0000 <= size <= INT_MAX
    ensures var h := Header(Strip(fileName), kind, Unsigned(size));
      Parse(h) == if kind.Directory? then Ok(File(Strip(fileName), kind, 0))
                  else if size < 0 then Bad("file too large")
                  else Ok(File(Strip(fileName), kind, size))
  {
    var name, u := Strip(fileName), Unsigned(size);
    var h := Header(name, kind, u);
    StrippedIsSafe(fileName);
    HeaderFields(name, kind, u);
    HeaderName(name, kind, u);
    EnoughDigits();
    var sum := Chksum(h, HEADER_SIZE);
    OctalRoundTrip(sum, 7, []);
    OctalRoundTrip(u, 11, []);
    assert Octal(sum, 7) + [0] + [] == Octal(sum, 7) + [0] && Octal(u, 11) + [0] + [] == Octal(u, 11) + [0];
    assert h[156] != 0;
  }

  /** Any header that can be parsed cannot be parsed any more once a byte outside the checksum field is different. */
  lemma DamageIsDetected(h: Str, i: nat, x: Byte)
    requires |h| == HEADER_SIZE && Parse(h).Ok? && i < HEADER_SIZE && !InChksum(i) && x != h[i]
    ensures Parse(h[i := x]).Bad?
  {
    var g := h[i := x];
    if AllZeros(h) {
      assert g[i] != 0;
      assert g[257..263][0] != USTAR[0] || g[257..263][1] != USTAR[1];
    } else {
      ChksumChanged(h, i, x, HEADER_SIZE);
      assert g[148..156] == h[148..156];
      assert h[148] != 0 by { assert h[148..156][0] == h[148]; }
      assert g[148] == h[148];
    }
  }
}
