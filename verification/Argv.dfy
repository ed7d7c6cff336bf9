/** From a command line to the arguments of main(): tokenising and the first stack page; process.c, with strtok_r(). */
module Argv {
  import opened Common

  const BLANK: Byte := 32

  type Str = seq<Byte>

  // ----- words of a line

  function SkipBlanks(s: Str): (r: Str)
    ensures |r| <= |s| && (r != [] ==> r[0] != BLANK)
  {
    if s != [] && s[0] == BLANK then SkipBlanks(s[1..]) else s
  }

  /** How long the word at the beginning is */
  function WordLength(s: Str): (n: nat)
    ensures n <= |s| && (n < |s| ==> s[n] == BLANK) && BLANK !in s[..n] && (s != [] && s[0] != BLANK ==> n > 0)
  {
    if s == [] || s[0] == BLANK then 0 else 1 + WordLength(s[1..])
  }

  function Tokens(s: Str): seq<Str>
    decreases |s|
  {
    var r := SkipBlanks(s);
    if r == [] then [] else [r[..WordLength(r)]] + Tokens(r[WordLength(r)..])
  }

  /** Non-empty, and without blanks or null bytes */
  predicate IsToken(t: Str) { t != [] && BLANK !in t && IsName(t) }

  predicate AreTokens(ts: seq<Str>) { forall i :: 0 <= i < |ts| ==> IsToken(ts[i]) }

  function Blanks(n: nat): Str { seq(n, _ => BLANK) }

  /** The words `ts` with blanks before, between and after them */
  function Spread(ts: seq<Str>, gaps: seq<nat>): Str
    requires |gaps| == |ts| + 1
  {
    Blanks(gaps[0]) + if ts == [] then [] else ts[0] + Spread(ts[1..], gaps[1..])
  }

  /** There is a blank between any two words. */
  predicate Apart(ts: seq<Str>, gaps: seq<nat>) {
    |gaps| == |ts| + 1 && forall i :: 0 < i < |ts| ==> gaps[i] > 0
  }

  lemma {:induction false} SkipsBlanks(n: nat, s: Str)
    requires s != [] ==> s[0] != BLANK
    ensures SkipBlanks(Blanks(n) + s) == s
  {
    var t := Blanks(n) + s;
    if n > 0 {
      assert t[1..] == Blanks(n - 1) + s;
      SkipsBlanks(n - 1, s);
    } else {
      assert t == s;
    }
  }

  lemma {:induction false} WordEnds(w: Str, s: Str)
    requires BLANK !in w && (s != [] ==> s[0] == BLANK)
    ensures WordLength(w + s) == |w|
  {
    if w != [] {
      assert (w + s)[1..] == w[1..] + s;
      WordEnds(w[1..], s);
    } else {
      assert w + s == s;
    }
  }

  lemma {:induction false} BlanksSkipped(s: Str)
    ensures s == Blanks(|s| - |SkipBlanks(s)|) + SkipBlanks(s)
  {
    if s != [] && s[0] == BLANK { BlanksSkipped(s[1..]); }
  }

  lemma {:induction false} SkippedName(s: Str)
    requires IsName(s)
    ensures IsName(SkipBlanks(s))
  {
    if s != [] && s[0] == BLANK { SkippedName(s[1..]); }
  }

  lemma {:induction false} TokensAreTokens(s: Str)
    requires IsName(s)
    ensures AreTokens(Tokens(s))
    decreases |s|
  {
    var r := SkipBlanks(s);
    SkippedName(s);
    if r != [] {
      var n := WordLength(r);
      assert IsToken(r[..n]);
      TokensAreTokens(r[n..]);
    }
  }

  /** Words separated by blanks are the tokens of the line they make up. */
  lemma {:induction false} TokensOfSpread(ts: seq<Str>, gaps: seq<nat>)
    requires Apart(ts, gaps) && forall i :: 0 <= i < |ts| ==> ts[i] != [] && BLANK !in ts[i]
    ensures Tokens(Spread(ts, gaps)) == ts
    decreases |ts|
  {
    if ts == [] {
      SkipsBlanks(gaps[0], []);
    } else {
      var rest := Spread(ts[1..], gaps[1..]);
      SkipsBlanks(gaps[0], ts[0] + rest);
      WordEnds(ts[0], rest);
      TokensOfSpread(ts[1..], gaps[1..]);
      assert (ts[0] + rest)[..|ts[0]|] == ts[0] && (ts[0] + rest)[|ts[0]|..] == rest;
    }
  }

  /** One more word before the others, with at least one blank between unless there are none */
  lemma SpreadMore(gap: nat, w: Str, rest: Str, ts: seq<Str>, more: seq<nat>)
    requires Apart(ts, more) && Spread(ts, more) == rest && (ts != [] ==> more[0] > 0)
    ensures Apart([w] + ts, [gap] + more) && Spread([w] + ts, [gap] + more) == Blanks(gap) + (w + rest)
  {
    assert ([w] + ts)[1..] == ts && ([gap] + more)[1..] == more;
    forall i | 0 < i < |[w] + ts| ensures ([gap] + more)[i] > 0 {
      assert ([gap] + more)[i] == more[i - 1];
    }
  }

  /** `s` is made up of `ts` in this way. */
  ghost predicate MadeOf(s: Str, ts: seq<Str>, gaps: seq<nat>) {
    Apart(ts, gaps) && Spread(ts, gaps) == s && (s != [] && s[0] == BLANK ==> gaps[0] > 0)
  }

  lemma OnlyBlanks(s: Str)
    requires SkipBlanks(s) == []
    ensures MadeOf(s, [], [|s|])
  {
    BlanksSkipped(s);
  }

  lemma MadeOfMore(s: Str, w: Str, rest: Str, ts: seq<Str>, gap: nat, more: seq<nat>)
    requires s == Blanks(gap) + (w + rest) && w != [] && w[0] != BLANK && MadeOf(rest, ts, more)
    requires if rest == [] then ts == [] else rest[0] == BLANK
    ensures MadeOf(s, [w] + ts, [gap] + more)
  {
    SpreadMore(gap, w, rest, ts, more);
    assert gap == 0 ==> s == w + rest;
  }

  lemma WordAndRest(s: Str)
    ensures var r := SkipBlanks(s); var n := WordLength(r); s == Blanks(|s| - |r|) + (r[..n] + r[n..])
  {
    BlanksSkipped(s);
    InTwo(SkipBlanks(s), WordLength(SkipBlanks(s)));
  }

  lemma InTwo(r: Str, n: nat)
    requires n <= |r|
    ensures r[..n] + r[n..] == r
  {
  }

  /** Every line is made up of its tokens in this way, so that nothing but blanks is dropped. */
  lemma {:induction false} SpreadOfTokens(s: Str) returns (gaps: seq<nat>)
    ensures MadeOf(s, Tokens(s), gaps)
    decreases |s|
  {
    var r := SkipBlanks(s);
    if r == [] {
      OnlyBlanks(s);
      gaps := [|s|];
    } else {
      var n := WordLength(r);
      var more := SpreadOfTokens(r[n..]);
      WordAndRest(s);
      MadeOfMore(s, r[..n], r[n..], Tokens(r[n..]), |s| - |r|, more);
      gaps := [|s| - |r|] + more;
    }
  }

  /** The tokens one after the other, each with its null byte */
  function Joined(ts: seq<Str>): Str { if ts == [] then [] else Joined(ts[..|ts| - 1]) + ts[|ts| - 1] + [0] }

  // ----- strtok_r() and process_execute()

  /** There is the string `s` at place `at` of the page. */
  ghost predicate StringAt(page: seq<Byte>, at: nat, s: Str) {
    at + |s| < |page| && page[at + |s|] == 0 && IsName(s) && forall i {:trigger s[i]} :: 0 <= i < |s| ==> page[at + i] == s[i]
  }

  method SkipDelimiters(page: array<Byte>, s0: nat, ghost rest: Str) returns (s: nat)
    requires StringAt(page[..], s0, rest)
    ensures var r := SkipBlanks(rest); s == s0 + (|rest| - |r|) && StringAt(page[..], s, r)
  {
    s := s0;
    ghost var left := rest;
    Peek(page[..], s, left);
    while page[s] == BLANK
      invariant |left| <= |rest| && s == s0 + (|rest| - |left|) && SkipBlanks(left) == SkipBlanks(rest)
      invariant StringAt(page[..], s, left)
      decreases |left|
    {
      Peek(page[..], s, left);
      s, left := s + 1, left[1..];
    }
    Peek(page[..], s, left);
  }

  method ScanWord(page: array<Byte>, s0: nat, ghost word: Str) returns (s: nat)
    requires StringAt(page[..], s0, word)
    ensures s == s0 + WordLength(word) && s < page.Length && (page[s] == 0 <==> WordLength(word) == |word|)
  {
    s := s0;
    ghost var left := word;
    Peek(page[..], s, left);
    while page[s] != 0 && page[s] != BLANK
      invariant |left| <= |word| && s == s0 + (|word| - |left|) && WordLength(word) == |word| - |left| + WordLength(left)
      invariant StringAt(page[..], s, left)
      decreases |left|
    {
      Peek(page[..], s, left);
      s, left := s + 1, left[1..];
    }
    Peek(page[..], s, left);
  }

  /** The next byte of a string in the page */
  lemma Peek(page: seq<Byte>, at: nat, s: Str)
    requires StringAt(page, at, s)
    ensures at < |page| && (page[at] == 0 <==> s == [])
    ensures s != [] ==> page[at] == s[0] && StringAt(page, at + 1, s[1..])
  {
    if s != [] {
      assert page[at] == s[0];
      forall i | 0 <= i < |s[1..]| ensures page[at + 1 + i] == s[1..][i] { assert s[1..][i] == s[i + 1]; }
    }
  }

  /** What strtok_r() leaves to be broken up */
  function Rest(s: Str): Str {
    var r := SkipBlanks(s);
    var n := WordLength(r);
    if n < |r| then r[n + 1..] else []
  }

  lemma TokensOne(s: Str)
    requires SkipBlanks(s) != []
    ensures var r := SkipBlanks(s); Tokens(s) == [r[..WordLength(r)]] + Tokens(Rest(s)) && |Rest(s)| < |s|
  {
    var r := SkipBlanks(s);
    var n := WordLength(r);
    if n < |r| {
      assert r[n..][1..] == r[n + 1..];
      assert SkipBlanks(r[n..]) == SkipBlanks(r[n + 1..]);
    }
  }

  /** What is left of a string after the word at its beginning and the blank after it */
  function LeftOf(r: Str, n: nat): Str { if n < |r| then r[n + 1..] else [] }

  /** The page after strtok_r(): the word, and what is left */
  lemma WordCut(page: seq<Byte>, at: nat, r: Str, n: nat, after: seq<Byte>)
    requires StringAt(page, at, r) && n <= |r| && after == page[at + n := 0]
    ensures StringAt(after, at, r[..n]) && after[..at] == page[..at]
    ensures StringAt(after, if n < |r| then at + n + 1 else at + n, LeftOf(r, n))
  {
    var word := r[..n];
    forall i | 0 <= i < n ensures after[at + i] == word[i] { assert word[i] == r[i]; }
    if n < |r| {
      var left := LeftOf(r, n);
      forall i | 0 <= i < |left| ensures after[at + n + 1 + i] == left[i] { assert left[i] == r[n + 1 + i]; }
    }
  }

  /** The first word of a string, and what is left after it */
  ghost predicate NextToken(s: Str, word: Str, left: Str) {
    var r := SkipBlanks(s);
    r != [] && word == r[..WordLength(r)] && left == Rest(s)
  }

  /** strtok_r() with the delimiter " "; `rest` is what there is still to be broken up. */
  method StrTok(page: array<Byte>, s0: nat, ghost rest: Str)
    returns (token: Option<nat>, save: nat, ghost word: Str, ghost left: Str)
    requires StringAt(page[..], s0, rest)
    modifies page
    ensures token.None? ==> page[..] == old(page[..]) && SkipBlanks(rest) == []
    ensures token.Some? ==> var at := token.value;
      && NextToken(rest, word, left) && s0 <= at <= page.Length && word != [] && page[..at] == old(page[..])[..at]
      && StringAt(page[..], at, word) && StringAt(page[..], save, left) && at + |word| + (if left == [] then 0 else 1) <= save
  {
    var s := SkipDelimiters(page, s0, rest);
    Peek(page[..], s, SkipBlanks(rest));
    if page[s] == 0 {
      return None, s, [], [];
    }
    token := Some(s);
    save, word, left := CutWord(page, s, SkipBlanks(rest));
  }

  /** The second half of strtok_r(), from the beginning of a word */
  method CutWord(page: array<Byte>, at: nat, ghost r: Str) returns (save: nat, ghost word: Str, ghost left: Str)
    requires StringAt(page[..], at, r)
    modifies page
    ensures word == r[..WordLength(r)] && left == LeftOf(r, |word|)
    ensures page[..at] == old(page[..])[..at] && StringAt(page[..], at, word) && StringAt(page[..], save, left)
    ensures at + |word| + (if left == [] then 0 else 1) <= save
  {
    ghost var before, n := page[..], WordLength(r);
    var s := ScanWord(page, at, r);
    save := if page[s] != 0 then s + 1 else s;
    page[s] := 0;
    word, left := r[..n], LeftOf(r, n);
    WordCut(before, at, r, n, page[..]);
  }

  ghost predicate MovedAt(before: seq<Byte>, after: seq<Byte>, to: nat, from: nat, n: nat, i: nat)
    requires to <= from && from + n < |before| == |after|
  {
    i < |after| ==> after[i] == if to <= i < to + n then before[from + (i - to)] else if i == to + n then 0 else before[i]
  }

  /** The `n` bytes from `from` on are now from `to` on, with a null byte after them. */
  ghost predicate Moved(before: seq<Byte>, after: seq<Byte>, to: nat, from: nat, n: nat) {
    && to <= from && from + n < |before| == |after|
    && forall i: nat {:trigger MovedAt(before, after, to, from, n, i)} :: MovedAt(before, after, to, from, n, i)
  }

  /** strlcpy() of a string of `n` bytes to a place before it in the same page */
  method MoveDown(page: array<Byte>, to: nat, from: nat, n: nat)
    requires to <= from && from + n < page.Length
    modifies page
    ensures Moved(old(page[..]), page[..], to, from, n)
  {
    for k := 0 to n
      invariant forall i :: 0 <= i < page.Length ==> page[i] == if to <= i < to + k then old(page[from + (i - to)]) else old(page[i])
    {
      page[to + k] := page[from + k];
    }
    page[to + n] := 0;
  }

  method StrLen(page: array<Byte>, at: nat, ghost s: Str) returns (n: nat)
    requires StringAt(page[..], at, s)
    ensures n == |s|
  {
    n := 0;
    ghost var left := s;
    Peek(page[..], at, left);
    while page[at + n] != 0
      invariant n <= |s| && left == s[n..] && StringAt(page[..], at + n, left)
      decreases |left|
    {
      Peek(page[..], at + n, left);
      n, left := n + 1, left[1..];
    }
    Peek(page[..], at + n, left);
  }

  /** Where the loop of process_execute() stands: the tokens so far are packed at the beginning, and the rest of the line
      begins at `save`. */
  ghost predicate Packed(page: seq<Byte>, indexer: nat, save: nat, done: seq<Str>, rest: Str) {
    && indexer == |Joined(done)| <= |page| && page[..indexer] == Joined(done)
    && StringAt(page, save, rest) && (rest != [] ==> indexer <= save)
  }

  /** One token moves down: `cut` is the page with a null byte after the word, `after` has the word in its place. */
  lemma PackedOne(cut: seq<Byte>, after: seq<Byte>, indexer: nat, done: seq<Str>, at: nat, word: Str)
    requires indexer == |Joined(done)| && Moved(cut, after, indexer, at, |word|)
    requires cut[..indexer] == Joined(done) && StringAt(cut, at, word)
    ensures indexer + |word| + 1 == |Joined(done + [word])| && after[..indexer + |word| + 1] == Joined(done + [word])
  {
    assert (done + [word])[..|done|] == done;
    var all := Joined(done) + word + [0];
    assert Joined(done + [word]) == all;
    forall i: nat | i < |all| ensures after[i] == all[i] {
      assert MovedAt(cut, after, indexer, at, |word|, i);
      if i < indexer {
        assert cut[..indexer][i] == cut[i];
      } else if i < indexer + |word| {
        assert cut[at + (i - indexer)] == word[i - indexer];
      }
    }
  }

  /** What comes after the word is not touched. */
  lemma RestStays(cut: seq<Byte>, after: seq<Byte>, indexer: nat, at: nat, n: nat, save: nat, left: Str)
    requires Moved(cut, after, indexer, at, n) && at + n <= save && (left != [] ==> at + n < save)
    requires StringAt(cut, save, left)
    ensures StringAt(after, save, left)
  {
    forall i | 0 <= i < |left| ensures after[save + i] == left[i] {
      assert MovedAt(cut, after, indexer, at, n, save + i) && cut[save + i] == left[i];
    }
    assert MovedAt(cut, after, indexer, at, n, save + |left|);
  }

  /** The tokens of `text` are those in `done` and those of `rest`. */
  ghost predicate Progress(text: Str, done: seq<Str>, rest: Str) { Tokens(text) == done + Tokens(rest) }

  lemma ProgressOne(text: Str, done: seq<Str>, rest: Str, word: Str, left: Str)
    requires Progress(text, done, rest) && NextToken(rest, word, left)
    ensures Progress(text, done + [word], left) && |left| < |rest|
  {
    TokensOne(rest);
    assert done + ([word] + Tokens(left)) == (done + [word]) + Tokens(left);
  }

  lemma ProgressDone(text: Str, done: seq<Str>, rest: Str)
    requires Progress(text, done, rest) && SkipBlanks(rest) == []
    ensures done == Tokens(text)
  {
    assert done + [] == done;
  }

  /** One turn of the loop of process_execute() */
  method TakeToken(page: array<Byte>, indexer: nat, save: nat, ghost text: Str, ghost done: seq<Str>, ghost rest: Str)
    returns (found: bool, indexer': nat, save': nat, ghost done': seq<Str>, ghost rest': Str)
    requires Packed(page[..], indexer, save, done, rest) && Progress(text, done, rest)
    modifies page
    ensures !found ==> page[..] == old(page[..]) && indexer' == indexer && done == Tokens(text)
    ensures found ==> Packed(page[..], indexer', save', done', rest') && Progress(text, done', rest') && |rest'| < |rest|
  {
    ghost var before := page[..];
    var token, next, word, left := StrTok(page, save, rest);
    if token.None? {
      ProgressDone(text, done, rest);
      return false, indexer, save, done, rest;
    }
    ProgressOne(text, done, rest, word, left);
    ghost var cut := page[..];
    assert cut[..indexer] == before[..indexer] by { assert cut[..token.value][..indexer] == before[..token.value][..indexer]; }
    var length := StrLen(page, token.value, word);
    MoveDown(page, indexer, token.value, length);
    PackedOne(cut, page[..], indexer, done, token.value, word);
    RestStays(cut, page[..], indexer, token.value, length, next, left);
    return true, indexer + length + 1, next, done + [word], left;
  }

  /** The part of process_execute() that breaks up the command line in its page */
  method Tokenise(line: Str, page: array<Byte>)
    requires page.Length == PGSIZE && IsName(line)
    modifies page
    ensures var ts := Tokens(line[..Min(|line|, PGSIZE - 1)]);
      |Joined(ts)| <= PGSIZE && page[..] == Joined(ts) + seq(PGSIZE - |Joined(ts)|, _ => 0)
  {
    ghost var text := line[..Min(|line|, PGSIZE - 1)];
    CopyLine(line, page);
    ghost var done: seq<Str>, rest := [], text;
    var indexer: nat, save: nat, found := 0, 0, true;
    assert Progress(text, done, rest) by { assert [] + Tokens(text) == Tokens(text); }
    while found
      invariant if found then Packed(page[..], indexer, save, done, rest) && Progress(text, done, rest)
                else done == Tokens(text) && indexer == |Joined(done)| <= PGSIZE && page[..indexer] == Joined(done)
      decreases found, |rest|
    {
      ghost var was := done;
      found, indexer, save, done, rest := TakeToken(page, indexer, save, text, done, rest);
      if !found {
        done := was;
      }
    }
    ZeroFill(page, indexer);
  }

  /** strlcpy() of the command line to the page */
  method CopyLine(line: Str, page: array<Byte>)
    requires page.Length == PGSIZE && IsName(line)
    modifies page
    ensures StringAt(page[..], 0, line[..Min(|line|, PGSIZE - 1)])
  {
    var len := Min(|line|, PGSIZE - 1);
    forall i | 0 <= i < len { page[i] := line[i]; }
    page[len] := 0;
  }

  method ZeroFill(page: array<Byte>, from: nat)
    requires from <= page.Length
    modifies page
    ensures page[..] == old(page[..])[..from] + seq(page.Length - from, _ => 0)
  {
    var indexer := from;
    while indexer != page.Length
      invariant from <= indexer <= page.Length && page[..from] == old(page[..])[..from]
      invariant forall i :: from <= i < indexer ==> page[i] == 0
      decreases page.Length - indexer
    {
      page[indexer] := 0;
      indexer := indexer + 1;
    }
  }
}
