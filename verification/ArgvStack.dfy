/** The stack page that setup_stack() prepares, and what main() finds there; process.c. */
module ArgvStack {
  import opened Common
  import opened Argv

  /** Where the stack page begins, one page below PHYS_BASE */
  const BASE: nat := 0xc000_0000 - 0x1000

  // ----- tokens in the packed page

  /** Where token `i` begins */
  function StartOf(ts: seq<Str>, i: nat): nat
    requires i <= |ts|
  {
    |Joined(ts[..i])|
  }

  lemma StartNext(ts: seq<Str>, i: nat)
    requires i < |ts|
    ensures StartOf(ts, i + 1) == StartOf(ts, i) + |ts[i]| + 1
  {
    assert ts[..i + 1][..i] == ts[..i];
  }

  lemma StartEnds(ts: seq<Str>)
    ensures StartOf(ts, 0) == 0 && StartOf(ts, |ts|) == |Joined(ts)|
  {
    assert ts[..|ts|] == ts;
  }

  lemma {:induction false} JoinedPrefix(ts: seq<Str>, i: nat)
    requires i <= |ts|
    ensures StartOf(ts, i) <= |Joined(ts)| && Joined(ts)[..StartOf(ts, i)] == Joined(ts[..i])
  {
    if i == |ts| {
      assert ts[..i] == ts;
    } else {
      var front := ts[..|ts| - 1];
      JoinedPrefix(front, i);
      assert front[..i] == ts[..i];
      assert Joined(ts)[..StartOf(ts, i)] == Joined(front)[..StartOf(ts, i)];
    }
  }

  /** Byte `j` of token `i`, or its null byte */
  lemma TokenByte(ts: seq<Str>, i: nat, j: nat)
    requires i < |ts| && j <= |ts[i]|
    ensures StartOf(ts, i) + j < |Joined(ts)|
    ensures Joined(ts)[StartOf(ts, i) + j] == if j < |ts[i]| then ts[i][j] else 0
  {
    JoinedPrefix(ts, i + 1);
    StartNext(ts, i);
    var head := ts[..i + 1];
    assert head[..i] == ts[..i] && head[i] == ts[i];
    assert Joined(head) == Joined(ts[..i]) + ts[i] + [0];
    assert Joined(ts)[..StartOf(ts, i + 1)][StartOf(ts, i) + j] == Joined(head)[StartOf(ts, i) + j];
  }

  /** A null byte is the end of the token it is in. */
  lemma ZeroEnds(ts: seq<Str>, i: nat, p: nat)
    requires AreTokens(ts) && i < |ts| && StartOf(ts, i) <= p < StartOf(ts, i + 1)
    ensures p < |Joined(ts)| && (Joined(ts)[p] == 0 <==> p == StartOf(ts, i + 1) - 1)
  {
    StartNext(ts, i);
    TokenByte(ts, i, p - StartOf(ts, i));
    assert IsToken(ts[i]);
  }

  lemma {:induction false} TokenOf(ts: seq<Str>, p: nat, n: nat) returns (i: nat)
    requires n <= |ts| && p < StartOf(ts, n)
    ensures i < n && StartOf(ts, i) <= p < StartOf(ts, i + 1)
  {
    if StartOf(ts, n - 1) <= p {
      i := n - 1;
    } else {
      i := TokenOf(ts, p, n - 1);
    }
  }

  lemma NoDouble(ts: seq<Str>, p: nat)
    requires AreTokens(ts) && 0 < p < |Joined(ts)|
    ensures !(Joined(ts)[p] == 0 && Joined(ts)[p - 1] == 0)
  {
    StartEnds(ts);
    var i := TokenOf(ts, p, |ts|);
    StartNext(ts, i);
    ZeroEnds(ts, i, p);
    assert IsToken(ts[i]);
    if StartOf(ts, i) < p { ZeroEnds(ts, i, p - 1); }
  }

  // ----- how many bytes there are

  /** The first place with two null bytes in a row, counted up to the second */
  method ArgsLength(args: seq<Byte>) returns (idx: nat)
    requires |args| == PGSIZE
    ensures idx <= PGSIZE && (idx < PGSIZE ==> 0 < idx && args[idx] == args[idx - 1] == 0)
    ensures forall p :: 0 < p < idx ==> !(args[p] == 0 && args[p - 1] == 0)
  {
    idx := 0;
    while idx < PGSIZE
      invariant idx <= PGSIZE && forall p :: 0 < p < idx ==> !(args[p] == 0 && args[p - 1] == 0)
    {
      if idx > 0 && args[idx] == 0 && args[idx - 1] == 0 {
        break;
      }
      idx := idx + 1;
    }
  }

  /** The page that Tokenise() makes */
  function ArgPage(ts: seq<Str>): seq<Byte>
    requires |Joined(ts)| <= PGSIZE
  {
    Joined(ts) + seq(PGSIZE - |Joined(ts)|, _ => 0)
  }

  /** For at least one token, that is where the tokens end. */
  lemma LengthIsAll(ts: seq<Str>, idx: nat)
    requires AreTokens(ts) && ts != [] && |Joined(ts)| <= PGSIZE && idx <= PGSIZE
    requires idx < PGSIZE ==> 0 < idx && ArgPage(ts)[idx] == ArgPage(ts)[idx - 1] == 0
    requires forall p :: 0 < p < idx ==> !(ArgPage(ts)[p] == 0 && ArgPage(ts)[p - 1] == 0)
    ensures idx == |Joined(ts)|
  {
    var all, t := Joined(ts), |Joined(ts)|;
    StartEnds(ts);
    StartNext(ts, |ts| - 1);
    TokenByte(ts, |ts| - 1, |ts[|ts| - 1]|);
    assert t > 0 && all[t - 1] == 0;
    if 0 < idx < t { NoDouble(ts, idx); }
    assert t < PGSIZE ==> ArgPage(ts)[t] == 0 && ArgPage(ts)[t - 1] == 0;
  }

  // ----- words in the stack page

  /** A 32-bit word, least significant byte first */
  method PutWord(stack: array<Byte>, at: nat, x: nat)
    requires at + 4 <= stack.Length && x < WORD
    modifies stack
    ensures Word(stack[..], at) == x
    ensures forall i :: 0 <= i < stack.Length && !(at <= i < at + 4) ==> stack[i] == old(stack[i])
  {
    ghost var before := stack[..];
    var b := Le32(x);
    stack[at], stack[at + 1], stack[at + 2], stack[at + 3] := b[0], b[1], b[2], b[3];
    assert stack[..] == before[..at] + b + before[at + 4..];
    WordRoundTrip(x, before[..at], before[at + 4..]);
  }

  lemma WordStays(before: seq<Byte>, after: seq<Byte>, at: nat)
    requires at + 4 <= |before| == |after| && forall i :: at <= i < at + 4 ==> after[i] == before[i]
    ensures Word(after, at) == Word(before, at)
  {
    assert after[at..at + 4] == before[at..at + 4];
  }

  // ----- what main() finds

  /** argv[i] points at token `i` in the stack page. */
  ghost predicate ArgAt(stack: seq<Byte>, argv: nat, ts: seq<Str>, i: nat)
    requires i < |ts| && argv + 4 * |ts| <= |stack|
  {
    var p := Word(stack, argv + 4 * i);
    BASE <= p < BASE + PGSIZE && StringAt(stack, p - BASE, ts[i])
  }

  /** From `esp` on there are a return address, argc and argv, all on word boundaries. The return address is never
      written, and need not be in the page. */
  ghost predicate Decodes(stack: seq<Byte>, esp: int, ts: seq<Str>) {
    && |stack| == PGSIZE && esp % 4 == 0 && -4 <= esp && esp + 12 + 4 * |ts| <= PGSIZE
    && Word(stack, esp + 4) == |ts| && Word(stack, esp + 8) == BASE + esp + 12
    && forall i {:trigger ts[i]} :: 0 <= i < |ts| ==> ArgAt(stack, esp + 12, ts, i)
  }

  // ----- setup_stack()

  /** The bytes for alignment below the strings */
  function Remain(t: nat): nat { 4 - t % 4 }

  /** The place of the last pointer of argv */
  function LastPointer(t: nat): int { PGSIZE - t - Remain(t) - 8 }

  /** The place of argc, the lowest word to be written, relative to the beginning of the stack page */
  function Lowest(ts: seq<Str>): int { LastPointer(|Joined(ts)|) - 4 * |ts| - 4 }

  /** How setup_stack() ends: it refuses the arguments, it writes to the page below the stack page, or the stack is built. */
  datatype Stack = Refused | LeftPage | Built(esp: int)

  /** The strings are at the top of the page, with a null byte below. */
  ghost predicate StringsOnTop(stack: seq<Byte>, all: seq<Byte>) {
    && |stack| == PGSIZE && |all| < PGSIZE && stack[PGSIZE - |all| - 1] == 0
    && forall p {:trigger all[p]} :: 0 <= p < |all| ==> stack[PGSIZE - |all| + p] == all[p]
  }

  /** The strings and the alignment */
  method PutStrings(stack: array<Byte>, args: seq<Byte>, t: nat) returns (inside: bool)
    requires stack.Length == PGSIZE && t <= |args| == PGSIZE
    modifies stack
    ensures inside == (t + Remain(t) <= PGSIZE) && (inside ==> StringsOnTop(stack[..], args[..t]))
  {
    var idx := t;
    while idx > 0
      invariant 0 <= idx <= t
      invariant forall p {:trigger args[p]} :: 0 <= p < t - idx ==> stack[PGSIZE - t + p] == args[p]
    {
      stack[PGSIZE - idx] := args[t - idx];
      idx := idx - 1;
    }
    var remain := Remain(t);
    if t + remain > PGSIZE {
      return false;
    }
    inside := true;
    while remain > 0
      invariant 0 <= remain <= Remain(t)
      invariant forall p {:trigger args[p]} :: 0 <= p < t ==> stack[PGSIZE - t + p] == args[p]
      invariant remain == 0 ==> stack[PGSIZE - t - 1] == 0
    {
      stack[PGSIZE - t - remain] := 0;
      remain := remain - 1;
    }
  }

  /** Where the search for the beginnings of the strings stands: those from token `k` on have their pointers, and byte `j`
      of the strings is the next to be looked at. */
  ghost predicate Found(ts: seq<Str>, k: nat, j: int) {
    && k <= |ts| && j >= -2
    && (k < |ts| ==> j < StartOf(ts, k) - 1) && (k > 0 ==> StartOf(ts, k - 1) - 1 <= j)
  }

  /** The pointers from token `k` on, argv being at `argv` */
  ghost predicate Pointers(stack: seq<Byte>, argv: int, ts: seq<Str>, k: nat)
    requires argv + 4 * |ts| <= |stack|
  {
    forall i: nat {:trigger StartOf(ts, i)} :: k <= i < |ts| ==>
      argv + 4 * i >= 0 && Word(stack, argv + 4 * i) == BASE + (PGSIZE - |Joined(ts)|) + StartOf(ts, i)
  }

  /** A null byte means a token begins after it, otherwise none does. */
  lemma Boundary(ts: seq<Str>, k: nat, j: int)
    requires AreTokens(ts) && Found(ts, k, j) && -1 <= j <= |Joined(ts)| - 2
    ensures k > 0
    ensures if j == -1 || Joined(ts)[j] == 0 then j == StartOf(ts, k - 1) - 1 && Found(ts, k - 1, j - 1)
            else Found(ts, k, j - 1)
  {
    StartEnds(ts);
    if k == |ts| { assert StartOf(ts, k) == |Joined(ts)|; }
    StartNext(ts, k - 1);
    if j >= StartOf(ts, k - 1) { ZeroEnds(ts, k - 1, j); }
    if k >= 2 {
      StartNext(ts, k - 2);
      if j == StartOf(ts, k - 1) - 1 { ZeroEnds(ts, k - 2, j); }
      assert IsToken(ts[k - 2]);
    }
  }

  /** Writing below the strings leaves them alone, and writing a pointer leaves the others alone. */
  lemma PointerAdded(before: seq<Byte>, after: seq<Byte>, argv: int, ts: seq<Str>, k: nat, at: nat)
    requires at == argv + 4 * (k - 1) && 0 < k <= |ts| && |after| == |before| == PGSIZE && argv + 4 * |ts| + 4 <= PGSIZE - |Joined(ts)| - 1
    requires StringsOnTop(before, Joined(ts)) && Pointers(before, argv, ts, k)
    requires Word(after, at) == BASE + (PGSIZE - |Joined(ts)|) + StartOf(ts, k - 1)
    requires forall i :: 0 <= i < PGSIZE && !(at <= i < at + 4) ==> after[i] == before[i]
    ensures StringsOnTop(after, Joined(ts)) && Pointers(after, argv, ts, k - 1)
  {
    forall i: nat | k - 1 <= i < |ts|
      ensures argv + 4 * i >= 0 && Word(after, argv + 4 * i) == BASE + (PGSIZE - |Joined(ts)|) + StartOf(ts, i)
    {
      assert i >= k ==> argv + 4 * i >= 0 && Word(before, argv + 4 * i) == BASE + (PGSIZE - |Joined(ts)|) + StartOf(ts, i);
      if i >= k { WordStays(before, after, argv + 4 * i); }
    }
  }

  /** Room for the pointers below the strings */
  ghost predicate Layout(t: nat, n: nat, argv: int) {
    argv + 4 * (n - 1) == LastPointer(t)
  }

  /** One turn of the loop below */
  method OnePointer(stack: array<Byte>, t: nat, idx: nat, cpp: int, ghost ts: seq<Str>, ghost argv: int, ghost k: nat)
    returns (found: bool, inside: bool)
    requires stack.Length == PGSIZE && AreTokens(ts) && t == |Joined(ts)| && Layout(t, |ts|, argv) && 2 <= idx <= t + 1
    requires Found(ts, k, t - idx) && cpp == argv + 4 * (k - 1)
    requires StringsOnTop(stack[..], Joined(ts)) && Pointers(stack[..], argv, ts, k)
    modifies stack
    ensures inside || argv < 0
    ensures inside ==> StringsOnTop(stack[..], Joined(ts))
    ensures inside ==> if found then k > 0 && Found(ts, k - 1, t - idx - 1) && Pointers(stack[..], argv, ts, k - 1)
                       else Found(ts, k, t - idx - 1) && Pointers(stack[..], argv, ts, k)
  {
    Boundary(ts, k, t - idx);
    assert stack[PGSIZE - idx] == if idx == t + 1 then 0 else Joined(ts)[t - idx];
    found, inside := stack[PGSIZE - idx] == 0, true;
    if found {
      if cpp < 0 {
        return true, false;
      }
      ghost var before := stack[..];
      PutWord(stack, cpp, BASE + (PGSIZE - idx + 1));
      PointerAdded(before, stack[..], argv, ts, k, cpp);
    }
  }

  /** The loop that puts the pointers on the stack, the last one first */
  method PutPointers(stack: array<Byte>, t: nat, ghost ts: seq<Str>, ghost argv: int) returns (inside: bool, cpp: int, argc: nat)
    requires stack.Length == PGSIZE && AreTokens(ts) && ts != [] && t == |Joined(ts)| && StringsOnTop(stack[..], Joined(ts))
    requires Layout(t, |ts|, argv)
    modifies stack
    ensures inside == (argv >= 0)
    ensures inside ==> argc == |ts| && cpp == argv - 4 && StringsOnTop(stack[..], Joined(ts)) && Pointers(stack[..], argv, ts, 0)
  {
    ghost var k: nat := |ts|;
    inside, cpp, argc := true, LastPointer(t), 0;
    FoundNone(ts);
    var idx := 2;
    while idx <= t + 1
      invariant 2 <= idx <= t + 2 && Found(ts, k, t - idx) && argc == |ts| - k && cpp == argv + 4 * (k - 1) && inside
      invariant StringsOnTop(stack[..], Joined(ts)) && Pointers(stack[..], argv, ts, k)
    {
      var found;
      found, inside := OnePointer(stack, t, idx, cpp, ts, argv, k);
      if !inside {
        return;
      }
      if found {
        cpp, argc, k := cpp - 4, argc + 1, k - 1;
      }
      idx := idx + 1;
    }
    assert StartOf(ts, 0) == 0;
  }

  lemma FoundNone(ts: seq<Str>)
    requires AreTokens(ts) && ts != []
    ensures |Joined(ts)| >= 2 && Found(ts, |ts|, |Joined(ts)| - 2)
  {
    StartEnds(ts);
    StartNext(ts, |ts| - 1);
    assert IsToken(ts[|ts| - 1]);
  }

  /** argv and argc go below the pointers. */
  lemma DecodesAll(before: seq<Byte>, after: seq<Byte>, ts: seq<Str>, argv: nat)
    requires AreTokens(ts) && |after| == |before| == PGSIZE && StringsOnTop(before, Joined(ts))
    requires argv >= 8 && Layout(|Joined(ts)|, |ts|, argv) && Pointers(before, argv, ts, 0)
    requires Word(after, argv - 4) == BASE + argv && Word(after, argv - 8) == |ts|
    requires forall i :: argv <= i < PGSIZE ==> after[i] == before[i]
    ensures Decodes(after, argv - 12, ts)
  {
    assert StringsOnTop(after, Joined(ts));
    forall i | 0 <= i < |ts| ensures ArgAt(after, argv, ts, i) {
      assert Word(before, argv + 4 * i) == BASE + (PGSIZE - |Joined(ts)|) + StartOf(ts, i);
      WordStays(before, after, argv + 4 * i);
      PointsAtToken(after, ts, argv, i);
    }
  }

  lemma PointsAtToken(stack: seq<Byte>, ts: seq<Str>, argv: nat, i: nat)
    requires AreTokens(ts) && StringsOnTop(stack, Joined(ts)) && i < |ts| && argv + 4 * |ts| <= |stack| == PGSIZE
    requires Word(stack, argv + 4 * i) == BASE + (PGSIZE - |Joined(ts)|) + StartOf(ts, i)
    ensures ArgAt(stack, argv, ts, i)
  {
    StringOnTop(stack, ts, i);
  }

  lemma StringOnTop(stack: seq<Byte>, ts: seq<Str>, i: nat)
    requires AreTokens(ts) && StringsOnTop(stack, Joined(ts)) && i < |ts|
    ensures var start := PGSIZE - |Joined(ts)| + StartOf(ts, i); start < PGSIZE && StringAt(stack, start, ts[i])
  {
    var start := PGSIZE - |Joined(ts)| + StartOf(ts, i);
    TokenByte(ts, i, |ts[i]|);
    assert IsToken(ts[i]);
    forall j | 0 <= j < |ts[i]| ensures stack[start + j] == ts[i][j] { TokenByte(ts, i, j); }
  }

  /** setup_stack(), given a page of packed tokens, which refuses them if they take more than `limit` bytes. Places are
      relative to the beginning of the stack page. The writes stay in the page exactly if the lowest of them does. */
  method SetupStack(stack: array<Byte>, args: seq<Byte>, limit: nat, ghost ts: seq<Str>) returns (r: Stack)
    requires stack.Length == PGSIZE && AreTokens(ts) && ts != [] && |Joined(ts)| <= PGSIZE && args == ArgPage(ts)
    modifies stack
    ensures r.Refused? <==> |Joined(ts)| > limit
    ensures r.Refused? ==> stack[..] == old(stack[..])
    ensures r.LeftPage? <==> |Joined(ts)| <= limit && Lowest(ts) < 0
    ensures r.Built? ==> r.esp == Lowest(ts) - 4 && Decodes(stack[..], r.esp, ts)
  {
    var t := ArgsLength(args);
    LengthIsAll(ts, t);
    if limit < t {
      return Refused;
    }
    var inside := PutStrings(stack, args, t);
    if !inside {
      return LeftPage;
    }
    assert args[..t] == Joined(ts);
    r := PutArgv(stack, t, ts);
  }

  /** What setup_stack() writes below the strings */
  method PutArgv(stack: array<Byte>, t: nat, ghost ts: seq<Str>) returns (r: Stack)
    requires stack.Length == PGSIZE && AreTokens(ts) && ts != [] && t == |Joined(ts)| && StringsOnTop(stack[..], Joined(ts))
    modifies stack
    ensures if Lowest(ts) < 0 then r == LeftPage else r == Built(Lowest(ts) - 4) && Decodes(stack[..], r.esp, ts)
  {
    ghost var argv := LastPointer(t) - 4 * (|ts| - 1);
    var inside, cpp, argc := PutPointers(stack, t, ts, argv);
    if !inside || cpp < 4 {
      return LeftPage;
    }
    ghost var before := stack[..];
    PutWord(stack, cpp, BASE + cpp + 4);
    ghost var between := stack[..];
    PutWord(stack, cpp - 4, argc);
    WordStays(between, stack[..], cpp);
    DecodesAll(before, stack[..], ts, argv);
    return Built(cpp - 8);
  }

  /** From the command line to the stack of the new process: main() gets the words of the line, of which at most one page
      is looked at. */
  method Arguments(line: Str, stack: array<Byte>, limit: nat) returns (r: Stack)
    requires stack.Length == PGSIZE && IsName(line) && Tokens(line[..Min(|line|, PGSIZE - 1)]) != []
    modifies stack
    ensures var ts := Tokens(line[..Min(|line|, PGSIZE - 1)]);
      match r
      case Refused => |Joined(ts)| > limit
      case LeftPage => |Joined(ts)| <= limit && Lowest(ts) < 0
      case Built(esp) => |Joined(ts)| <= limit && esp == Lowest(ts) - 4 && Decodes(stack[..], esp, ts)
  {
    ghost var ts := Tokens(line[..Min(|line|, PGSIZE - 1)]);
    TokensAreTokens(line[..Min(|line|, PGSIZE - 1)]);
    var page := new Byte[PGSIZE];
    Tokenise(line, page);
    r := SetupStack(stack, page[..], limit, ts);
  }

  // ----- short words need more room for their pointers than for themselves

  const LETTER: Byte := 97

  /** `n` words of one letter, one blank between two of them */
  function ShortWords(n: nat): seq<Str> { seq(n, _ => [LETTER]) }

  function ShortLine(n: nat): Str
    requires n > 0
  {
    Spread(ShortWords(n), [0] + seq(n - 1, _ => 1) + [0])
  }

  lemma {:induction false} ShortJoined(n: nat)
    ensures |Joined(ShortWords(n))| == 2 * n
  {
    if n > 0 {
      assert ShortWords(n)[..n - 1] == ShortWords(n - 1);
      ShortJoined(n - 1);
    }
  }

  lemma {:induction false} SpreadLength(ts: seq<Str>, gaps: seq<nat>)
    requires |gaps| == |ts| + 1 && forall i :: 0 <= i < |ts| ==> ts[i] == [LETTER]
    requires forall i :: 0 <= i < |gaps| ==> gaps[i] <= 1
    ensures |Spread(ts, gaps)| <= 2 * |ts| + gaps[0] && IsName(Spread(ts, gaps))
    decreases |ts|
  {
    if ts != [] {
      SpreadLength(ts[1..], gaps[1..]);
      var rest := Spread(ts[1..], gaps[1..]);
      assert Spread(ts, gaps) == Blanks(gaps[0]) + (ts[0] + rest);
    }
  }

  /** A line of words of one letter that is within the limit leaves the page exactly if there are 681 words or more. */
  lemma ShortWordsLeave(n: nat, limit: nat)
    requires 0 < n <= 2000 && 2 * n <= limit
    ensures var line := ShortLine(n); |line| < PGSIZE && IsName(line)
    ensures var ts := Tokens(ShortLine(n)[..Min(|ShortLine(n)|, PGSIZE - 1)]);
      ts == ShortWords(n) && |Joined(ts)| <= limit && (Lowest(ts) < 0 <==> n >= 681)
  {
    var ts, gaps := ShortWords(n), [0] + seq(n - 1, _ => 1) + [0];
    SpreadLength(ts, gaps);
    TokensOfSpread(ts, gaps);
    ShortJoined(n);
    var line := ShortLine(n);
    assert line[..Min(|line|, PGSIZE - 1)] == line;
  }
}
