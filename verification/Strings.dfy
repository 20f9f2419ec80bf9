/** The parts of Python's `str` API the versioning tool relies on, over
    `string` (a sequence of Unicode scalar values). */
module Strings {
  import opened Wrappers
  import opened Seqs

  /** Python's `str.isspace()`: the characters that `strip()`, `rstrip()`
      and the argument-less `split()` treat as whitespace. */
  predicate IsSpace(c: char) {
    || c == ' '
    || ('\t' <= c <= '\r')
    || ('\U{1c}' <= c <= '\U{1f}')
    || c == '\U{85}' || c == '\U{a0}' || c == '\U{1680}'
    || ('\U{2000}' <= c <= '\U{200a}')
    || c == '\U{2028}' || c == '\U{2029}' || c == '\U{202f}' || c == '\U{205f}'
    || c == '\U{3000}'
  }

  /** The line boundaries of Python's `str.splitlines()` ("\r\n" counts as one). */
  predicate IsLineBreak(c: char) {
    || c == '\n' || c == '\r' || c == '\U{0b}' || c == '\U{0c}'
    || ('\U{1c}' <= c <= '\U{1e}')
    || c == '\U{85}' || c == '\U{2028}' || c == '\U{2029}'
  }

  predicate IsBlank(s: string) {
    forall i :: 0 <= i < |s| ==> IsSpace(s[i])
  }

  predicate StartsWith(s: string, p: string) {
    |p| <= |s| && s[..|p|] == p
  }

  /** Python's `s.endswith(p)`. */
  predicate EndsWith(s: string, p: string) {
    |p| <= |s| && s[|s| - |p|..] == p
  }

  /** `p` occurs in `s` starting at index `i`. */
  predicate OccursAt(s: string, p: string, i: int) {
    0 <= i && i + |p| <= |s| && s[i..i + |p|] == p
  }

  /** Python's `p in s` for strings. */
  predicate Contains(s: string, p: string) {
    exists i | 0 <= i <= |s| - |p| :: OccursAt(s, p, i)
  }

  /** Python's `s.find(p, from)`, with `None` for -1: the lowest index at or
      after `from` where `p` occurs. */
  function FindFrom(s: string, p: string, from: nat): (r: Option<nat>)
    ensures r.Some? ==> from <= r.value && OccursAt(s, p, r.value)
    ensures r.Some? ==> forall j :: from <= j < r.value ==> !OccursAt(s, p, j)
    ensures r.None? ==> forall j :: from <= j ==> !OccursAt(s, p, j)
    decreases |s| - from
  {
    if from + |p| > |s| then None
    else if s[from..from + |p|] == p then Some(from)
    else FindFrom(s, p, from + 1)
  }

  /** Python's `s.lstrip(chars)`, the stripped characters given by `drop`. */
  function TrimLeft(s: string, drop: char -> bool): (r: string)
    ensures |r| <= |s| && r == s[|s| - |r|..]
    ensures forall i :: 0 <= i < |s| - |r| ==> drop(s[i])
    ensures r == [] || !drop(r[0])
  {
    if |s| > 0 && drop(s[0]) then TrimLeft(s[1..], drop) else s
  }

  /** Python's `s.rstrip(chars)`, the stripped characters given by `drop`. */
  function TrimRight(s: string, drop: char -> bool): (r: string)
    ensures |r| <= |s| && r == s[..|r|]
    ensures forall i :: |r| <= i < |s| ==> drop(s[i])
    ensures r == [] || !drop(r[|r| - 1])
  {
    if |s| > 0 && drop(s[|s| - 1]) then TrimRight(s[..|s| - 1], drop) else s
  }

  /** Python's `s.strip(chars)`. */
  function StripBy(s: string, drop: char -> bool): string {
    TrimRight(TrimLeft(s, drop), drop)
  }

  /** Python's `s.strip()`. */
  function Strip(s: string): string {
    StripBy(s, IsSpace)
  }

  /** Python's `s.rstrip()`. */
  function RStrip(s: string): string {
    TrimRight(s, IsSpace)
  }

  /** Python's `s.replace(pat, rep)`: leftmost non-overlapping occurrences,
      scanning left to right. */
  function ReplaceAll(s: string, pat: string, rep: string): string
    requires |pat| > 0
    decreases |s|
  {
    if |s| < |pat| then s
    else if s[..|pat|] == pat then rep + ReplaceAll(s[|pat|..], pat, rep)
    else [s[0]] + ReplaceAll(s[1..], pat, rep)
  }

  /** Python's `sep.join(parts)`. */
  function Join(parts: seq<string>, sep: string): string {
    if |parts| == 0 then ""
    else if |parts| == 1 then parts[0]
    else parts[0] + sep + Join(parts[1..], sep)
  }

  /** Python's `s.split(sep)` for a non-empty separator. */
  function Split(s: string, sep: string): (r: seq<string>)
    requires |sep| > 0
    ensures |r| >= 1
    decreases |s|
  {
    match FindFrom(s, sep, 0)
    case None => [s]
    case Some(i) => [s[..i]] + Split(s[i + |sep|..], sep)
  }

  /** Length of the longest prefix of `s` whose characters all satisfy `keep`. */
  function Span(s: string, keep: char -> bool): (n: nat)
    ensures n <= |s|
    ensures forall i :: 0 <= i < n ==> keep(s[i])
    ensures n == |s| || !keep(s[n])
    ensures |s| > 0 && keep(s[0]) ==> n > 0
  {
    if |s| > 0 && keep(s[0]) then 1 + Span(s[1..], keep) else 0
  }

  /** A non-empty run of non-whitespace characters. */
  predicate IsWord(w: string) {
    w != [] && forall j :: 0 <= j < |w| ==> !IsSpace(w[j])
  }

  predicate NotSpace(c: char) {
    !IsSpace(c)
  }

  /** Python's `s.split()` with no argument: the maximal runs of
      non-whitespace characters, in order. */
  function Words(s: string): seq<string>
    decreases |s|
  {
    var t := TrimLeft(s, IsSpace);
    if t == [] then []
    else
      assert NotSpace(t[0]);
      var n := Span(t, NotSpace);
      [t[..n]] + Words(t[n..])
  }

  /** Every piece of `split()` is a non-empty run of non-whitespace. */
  lemma {:induction false} WordsAreWords(s: string)
    ensures forall i :: 0 <= i < |Words(s)| ==> IsWord(Words(s)[i])
    decreases |s|
  {
    var t := TrimLeft(s, IsSpace);
    if t != [] {
      var n := FirstWord(s);
      WordsAreWords(t[n..]);
      AllCons(t[..n], Words(t[n..]), IsWord);
    }
  }

  /** The first piece of `split()` and where the rest starts. */
  lemma FirstWord(s: string) returns (n: nat)
    requires TrimLeft(s, IsSpace) != []
    ensures var t := TrimLeft(s, IsSpace);
      && n <= |t| && IsWord(t[..n]) && Words(s) == [t[..n]] + Words(t[n..])
  {
    var t := TrimLeft(s, IsSpace);
    n := Span(t, NotSpace);
    var w := t[..n];
    forall j | 0 <= j < |w|
      ensures !IsSpace(w[j])
    {
      assert w[j] == t[j] && NotSpace(t[j]);
    }
  }

  /** Python's `s.splitlines()`: lines without their terminators; a final
      terminator does not start another line. */
  function SplitLines(s: string): (r: seq<string>)
    ensures forall i, j :: 0 <= i < |r| && 0 <= j < |r[i]| ==> !IsLineBreak(r[i][j])
    decreases |s|
  {
    if s == [] then []
    else
      var n := Span(s, c => !IsLineBreak(c));
      if n == |s| then [s]
      else
        var skip := if s[n] == '\r' && n + 1 < |s| && s[n + 1] == '\n' then 2 else 1;
        [s[..n]] + SplitLines(s[n + skip..])
  }

  // ---------------------------------------------------------------------
  // Lemmas

  lemma ContainsTail(s: string, p: string)
    requires |s| > 0 && Contains(s[1..], p)
    ensures Contains(s, p)
  {
    var i :| 0 <= i <= |s[1..]| - |p| && OccursAt(s[1..], p, i);
    assert s[1..][i..i + |p|] == s[i + 1..i + 1 + |p|];
    assert OccursAt(s, p, i + 1);
  }

  /** Replacing a pattern that does not occur leaves the text unchanged. */
  lemma {:induction false} ReplaceAbsent(s: string, pat: string, rep: string)
    requires |pat| > 0 && !Contains(s, pat)
    ensures ReplaceAll(s, pat, rep) == s
    decreases |s|
  {
    if |s| < |pat| {
    } else {
      assert !OccursAt(s, pat, 0);
      if |s| > 0 && Contains(s[1..], pat) {
        ContainsTail(s, pat);
      }
      ReplaceAbsent(s[1..], pat, rep);
      assert [s[0]] + s[1..] == s;
    }
  }

  /** A leading occurrence is replaced and scanning resumes after it. */
  lemma {:induction false} ReplaceLeading(s: string, pat: string, rep: string)
    requires |pat| > 0
    ensures ReplaceAll(pat + s, pat, rep) == rep + ReplaceAll(s, pat, rep)
  {
    assert (pat + s)[..|pat|] == pat;
    assert (pat + s)[|pat|..] == s;
  }

  /** Splitting and joining with the same separator gives back the text. */
  lemma {:induction false} SplitJoin(s: string, sep: string)
    requires |sep| > 0
    ensures Join(Split(s, sep), sep) == s
    decreases |s|
  {
    var f := FindFrom(s, sep, 0);
    if f.Some? {
      var i := f.value;
      var head, rest := s[..i], s[i + |sep|..];
      var tail := Split(rest, sep);
      SplitJoin(rest, sep);
      assert Split(s, sep) == [head] + tail;
      JoinCons(head, tail, sep);
      assert s[i..i + |sep|] == sep;
      assert s == head + s[i..i + |sep|] + rest;
    }
  }

  lemma {:induction false} JoinCons(head: string, tail: seq<string>, sep: string)
    requires |tail| >= 1
    ensures Join([head] + tail, sep) == head + sep + Join(tail, sep)
  {
    assert ([head] + tail)[1..] == tail;
  }

  /** A join of at least three pieces is at least as long as its first
      three pieces and the two separators between them. */
  lemma {:induction false} JoinLonger(a: string, b: string, rest: seq<string>, sep: string)
    requires rest != []
    ensures |Join([a, b] + rest, sep)| >= |a| + |b| + 2 * |sep| + |rest[0]|
  {
    assert [a, b] + rest == [a] + ([b] + rest);
    JoinCons(a, [b] + rest, sep);
    JoinCons(b, rest, sep);
    JoinPrefix(rest, sep);
  }

  /** A join opens with its first piece, the separator, and whatever the
      second piece opens with. */
  lemma {:induction false} JoinStarts(lines: seq<string>, sep: string, p: string)
    requires |lines| >= 2 && StartsWith(lines[1], p)
    ensures StartsWith(Join(lines, sep), lines[0] + sep + p)
  {
    var rest := Join(lines[1..], sep);
    JoinPrefix(lines[1..], sep);
    assert rest[..|p|] == lines[1][..|p|];
    var h := lines[0] + sep;
    assert Join(lines, sep) == h + rest;
    assert (h + rest)[..|h| + |p|] == h + rest[..|p|];
  }

  /** No piece produced by `Split` contains the separator. */
  lemma {:induction false} SplitPiecesFree(s: string, sep: string)
    requires |sep| > 0
    ensures forall k :: 0 <= k < |Split(s, sep)| ==> !Contains(Split(s, sep)[k], sep)
    decreases |s|
  {
    match FindFrom(s, sep, 0)
    case None =>
      if Contains(s, sep) {
        var j :| 0 <= j <= |s| - |sep| && OccursAt(s, sep, j);
      }
    case Some(i) =>
      SplitPiecesFree(s[i + |sep|..], sep);
      var head := s[..i];
      if Contains(head, sep) {
        var j :| 0 <= j <= |head| - |sep| && OccursAt(head, sep, j);
        assert head[j..j + |sep|] == s[j..j + |sep|];
        assert OccursAt(s, sep, j);
      }
      assert Split(s, sep) == [head] + Split(s[i + |sep|..], sep);
  }

  /** The joined text starts with the first part. */
  lemma {:induction false} JoinPrefix(parts: seq<string>, sep: string)
    requires |parts| >= 1
    ensures |Join(parts, sep)| >= |parts[0]|
    ensures Join(parts, sep)[..|parts[0]|] == parts[0]
  {
  }

  /** `FindFrom` returns the first occurrence at or after `from`, whichever
      way that occurrence is given. */
  lemma {:induction false} FindFirst(s: string, p: string, from: nat, k: nat)
    requires from <= k && OccursAt(s, p, k)
    requires forall j :: from <= j < k ==> !OccursAt(s, p, j)
    ensures FindFrom(s, p, from) == Some(k)
  {
  }

  lemma {:induction false} FindNone(s: string, p: string, from: nat)
    requires forall j :: from <= j ==> !OccursAt(s, p, j)
    ensures FindFrom(s, p, from) == None
  {
  }

  /** An occurrence inside a prefix the two texts share is an occurrence in
      both. */
  lemma OccursInCommonPrefix(s: string, t: string, p: string, n: nat, j: nat)
    requires n <= |s| && n <= |t| && s[..n] == t[..n]
    requires j + |p| <= n
    ensures OccursAt(s, p, j) <==> OccursAt(t, p, j)
  {
    assert s[j..j + |p|] == s[..n][j..j + |p|];
    assert t[j..j + |p|] == t[..n][j..j + |p|];
  }

  /** Right-trimming a concatenation trims into the left part only when the
      right part is dropped entirely. */
  lemma {:induction false} TrimRightAppend(a: string, b: string, drop: char -> bool)
    ensures (forall i :: 0 <= i < |b| ==> drop(b[i])) ==> TrimRight(a + b, drop) == TrimRight(a, drop)
    ensures (exists i :: 0 <= i < |b| && !drop(b[i])) ==> TrimRight(a + b, drop) == a + TrimRight(b, drop)
    decreases |b|
  {
    if b == [] {
      assert a + b == a;
    } else {
      var b' := b[..|b| - 1];
      assert (a + b)[..|a + b| - 1] == a + b';
      TrimRightAppend(a, b', drop);
      if !drop(b[|b| - 1]) {
        assert TrimRight(a + b, drop) == a + b;
      } else if exists i :: 0 <= i < |b| && !drop(b[i]) {
        var i :| 0 <= i < |b| && !drop(b[i]);
        assert b'[i] == b[i];
      }
    }
  }

  /** Where the text `strip` keeps begins. */
  function StripStart(s: string, drop: char -> bool): (n: nat)
    ensures n <= |s|
  {
    |s| - |TrimLeft(s, drop)|
  }

  /** Where the text `strip` keeps ends. */
  function StripEnd(s: string, drop: char -> bool): nat {
    StripStart(s, drop) + |StripBy(s, drop)|
  }

  /** What `strip` keeps is a slice of the text, and a non-empty result
      begins and ends with a kept character. */
  lemma StripSlice(s: string, drop: char -> bool)
    ensures StripStart(s, drop) <= StripEnd(s, drop) <= |s|
    ensures StripBy(s, drop) == s[StripStart(s, drop)..StripEnd(s, drop)]
    ensures StripStart(s, drop) < StripEnd(s, drop) ==>
      !drop(s[StripStart(s, drop)]) && !drop(s[StripEnd(s, drop) - 1])
  {
    var t := TrimLeft(s, drop);
    var i := |s| - |t|;
    var u := TrimRight(t, drop);
    assert StripBy(s, drop) == u && StripStart(s, drop) == i && StripEnd(s, drop) == i + |u|;
    assert t == s[i..] && u == t[..|u|];
    assert s[i..i + |u|] == t[..|u|];
    if |u| > 0 {
      assert s[i] == t[0] && s[i + |u| - 1] == u[|u| - 1];
    }
  }

  /** Everything `strip` removes, before and after what it keeps, is
      dropped. */
  lemma StripDropped(s: string, drop: char -> bool)
    ensures StripStart(s, drop) <= StripEnd(s, drop) <= |s|
    ensures forall k :: 0 <= k < StripStart(s, drop) ==> drop(s[k])
    ensures forall k :: StripEnd(s, drop) <= k < |s| ==> drop(s[k])
  {
    var t := TrimLeft(s, drop);
    var i := |s| - |t|;
    var u := TrimRight(t, drop);
    forall k | i + |u| <= k < |s|
      ensures drop(s[k])
    {
      assert s[k] == t[k - i];
    }
  }

  /** `r` is what `strip` leaves of `s`: a slice of it with only dropped
      characters cut off either end, and none left at the ends of `r`. */
  predicate IsStripOf(r: string, s: string, drop: char -> bool) {
    exists i, j :: 0 <= i <= j <= |s| && r == s[i..j]
      && (forall k :: 0 <= k < i ==> drop(s[k]))
      && (forall k :: j <= k < |s| ==> drop(s[k]))
      && (r == [] || (!drop(r[0]) && !drop(r[|r| - 1])))
  }

  lemma StripIsStripOf(s: string, drop: char -> bool)
    ensures IsStripOf(StripBy(s, drop), s, drop)
  {
    StripSlice(s, drop);
    StripDropped(s, drop);
    var i, j := StripStart(s, drop), StripEnd(s, drop);
    var r := StripBy(s, drop);
    assert r == [] || (r[0] == s[i] && r[|r| - 1] == s[j - 1]);
  }

  /** ... and it is the only such slice. */
  lemma StripOfUnique(r: string, s: string, drop: char -> bool)
    requires IsStripOf(r, s, drop)
    ensures r == StripBy(s, drop)
  {
    var i, j :| 0 <= i <= j <= |s| && r == s[i..j]
      && (forall k :: 0 <= k < i ==> drop(s[k]))
      && (forall k :: j <= k < |s| ==> drop(s[k]))
      && (r == [] || (!drop(r[0]) && !drop(r[|r| - 1])));
    StripAtSlice(s, drop, i, j);
  }

  lemma StripAtSlice(s: string, drop: char -> bool, i: nat, j: nat)
    requires i <= j <= |s|
    requires forall k :: 0 <= k < i ==> drop(s[k])
    requires forall k :: j <= k < |s| ==> drop(s[k])
    requires i == j || (!drop(s[i]) && !drop(s[j - 1]))
    ensures StripBy(s, drop) == s[i..j]
  {
    if i == j {
      forall k | 0 <= k < |s|
        ensures drop(s[k])
      {
      }
      TrimLeftPast(s, [], drop);
      assert s + [] == s;
    } else {
      var pre, r, post := s[..i], s[i..j], s[j..];
      forall k | 0 <= k < |post|
        ensures drop(post[k])
      {
        assert post[k] == s[j + k];
      }
      assert s == pre + r + post;
      assert r[0] == s[i] && r[|r| - 1] == s[j - 1];
      StripAround(pre, r, post, drop);
    }
  }

  /** Dropped characters before a kept one are all stripped from the left. */
  lemma {:induction false} TrimLeftPast(pre: string, t: string, drop: char -> bool)
    requires forall k :: 0 <= k < |pre| ==> drop(pre[k])
    requires t == [] || !drop(t[0])
    ensures TrimLeft(pre + t, drop) == t
    decreases |pre|
  {
    if pre == [] {
      assert pre + t == t;
    } else {
      assert (pre + t)[1..] == pre[1..] + t;
      TrimLeftPast(pre[1..], t, drop);
    }
  }

  /** Dropped characters after a kept one are all stripped from the right. */
  lemma {:induction false} TrimRightPast(t: string, post: string, drop: char -> bool)
    requires forall k :: 0 <= k < |post| ==> drop(post[k])
    requires t == [] || !drop(t[|t| - 1])
    ensures TrimRight(t + post, drop) == t
  {
    TrimRightAppend(t, post, drop);
  }

  /** `strip` gives back a text that has dropped characters only around it. */
  lemma StripAround(pre: string, t: string, post: string, drop: char -> bool)
    requires forall k :: 0 <= k < |pre| ==> drop(pre[k])
    requires forall k :: 0 <= k < |post| ==> drop(post[k])
    requires t != [] && !drop(t[0]) && !drop(t[|t| - 1])
    ensures StripBy(pre + t + post, drop) == t
  {
    assert pre + t + post == pre + (t + post);
    assert (t + post)[0] == t[0];
    TrimLeftPast(pre, t + post, drop);
    TrimRightPast(t, post, drop);
  }

  /** The first of the lines is the text up to the first line break; only
      the empty text has no lines. */
  lemma {:induction false} FirstLine(s: string)
    ensures SplitLines(s) == [] <==> s == []
    ensures s != [] ==> StartsWith(s, SplitLines(s)[0])
    ensures s != [] ==> |SplitLines(s)[0]| == |s| || IsLineBreak(s[|SplitLines(s)[0]|])
  {
  }

  /** A text without line breaks is one line. */
  lemma {:induction false} OneLine(s: string)
    requires s != [] && forall k :: 0 <= k < |s| ==> !IsLineBreak(s[k])
    ensures SplitLines(s) == [s]
  {
    SpanPrefix(s, [], c => !IsLineBreak(c));
    assert s + [] == s;
  }

  /** Trimming is idempotent. */
  lemma {:induction false} TrimRightTwice(s: string, drop: char -> bool)
    ensures TrimRight(TrimRight(s, drop), drop) == TrimRight(s, drop)
  {
  }

  /** A one-character pattern occurs exactly where that character is. */
  lemma OccursChar(s: string, c: char, j: int)
    ensures OccursAt(s, [c], j) <==> 0 <= j < |s| && s[j] == c
  {
    if 0 <= j < |s| {
      assert s[j..j + 1] == [s[j]];
    }
  }

  /** Searching for one character finds its first occurrence, or nothing
      when it does not occur. */
  lemma {:induction false} FindChar(s: string, c: char)
    ensures FindFrom(s, [c], 0).None? <==> c !in s
    ensures FindFrom(s, [c], 0).Some? ==>
      s[FindFrom(s, [c], 0).value] == c && c !in s[..FindFrom(s, [c], 0).value]
  {
    var r := FindFrom(s, [c], 0);
    if r.None? {
      forall j | 0 <= j < |s|
        ensures s[j] != c
      {
        OccursChar(s, c, j);
      }
    } else {
      OccursChar(s, c, r.value);
      forall j | 0 <= j < r.value
        ensures s[j] != c
      {
        OccursChar(s, c, j);
      }
    }
  }

  /** The first character `c` of a text is where the search for `c` stops. */
  lemma {:induction false} FindCharAt(s: string, c: char, k: nat)
    requires k < |s| && s[k] == c && c !in s[..k]
    ensures FindFrom(s, [c], 0) == Some(k)
  {
    OccursChar(s, c, k);
    forall j | 0 <= j < k
      ensures !OccursAt(s, [c], j)
    {
      OccursChar(s, c, j);
      assert s[j] == s[..k][j];
    }
    FindFirst(s, [c], 0, k);
  }

  /** A line followed by a newline is the first line of the text. */
  lemma {:induction false} SplitLinesFirst(line: string, rest: string)
    requires forall i :: 0 <= i < |line| ==> !IsLineBreak(line[i])
    ensures SplitLines(line + "\n" + rest) != []
    ensures SplitLines(line + "\n" + rest)[0] == line
  {
    var s := line + "\n" + rest;
    var n := Span(s, c => !IsLineBreak(c));
    assert s[|line|] == '\n';
    assert forall i :: 0 <= i < |line| ==> s[i] == line[i];
    assert n == |line|;
    assert s[..n] == line;
  }

  /** The run of `keep` characters at the start of `x + y` is `x` when `y`
      does not continue it. */
  lemma {:induction false} SpanPrefix(x: string, y: string, keep: char -> bool)
    requires forall i :: 0 <= i < |x| ==> keep(x[i])
    requires y == [] || !keep(y[0])
    ensures Span(x + y, keep) == |x|
  {
    var n := Span(x + y, keep);
    assert forall i :: 0 <= i < |x| ==> (x + y)[i] == x[i];
    if |x| < |x + y| {
      assert (x + y)[|x|] == y[0];
    }
  }

  // ---------------------------------------------------------------------
  // Searching past a piece spliced into a text

  /** A pattern that starts with a newline and has no other. */
  predicate NewlineLed(p: string) {
    |p| >= 1 && p[0] == '\n' && forall k :: 1 <= k < |p| ==> p[k] != '\n'
  }

  lemma InsidePiece(prefix: string, body: string, rest: string, p: string, j: nat)
    requires |prefix| + 1 <= j && j + |p| <= |prefix| + |body|
    requires !Contains(body[1..], p)
    ensures !OccursAt(prefix + body + rest, p, j)
  {
    var r := prefix + body + rest;
    var k := j - |prefix| - 1;
    assert r[j..j + |p|] == body[1..][k..k + |p|];
    assert OccursAt(r, p, j) == OccursAt(body[1..], p, k);
  }

  /** A newline-led pattern cannot start shortly before a newline and run
      across it. */
  lemma NotStraddling(r: string, p: string, q: nat, j: nat)
    requires NewlineLed(p)
    requires q < |r| && r[q] == '\n' && j < q < j + |p|
    ensures !OccursAt(r, p, j)
  {
    if j + |p| <= |r| {
      assert r[j..j + |p|][q - j] == r[q];
    }
  }

  /** No occurrence of the pattern starts inside a piece that holds none
      after its first character, when what follows is empty or starts with
      the pattern. */
  lemma SplicedNoEarly(prefix: string, body: string, rest: string, p: string)
    requires NewlineLed(p)
    requires |body| >= 1
    requires !Contains(body[1..], p)
    requires rest == [] || StartsWith(rest, p)
    ensures forall j :: |prefix| + 1 <= j < |prefix| + |body| ==> !OccursAt(prefix + body + rest, p, j)
  {
    var r := prefix + body + rest;
    var q := |prefix| + |body|;
    forall j | |prefix| + 1 <= j < q
      ensures !OccursAt(r, p, j)
    {
      if j + |p| <= q {
        InsidePiece(prefix, body, rest, p, j);
      } else if rest != [] {
        assert rest[..|p|][0] == '\n';
        assert r[q] == rest[0];
        NotStraddling(r, p, q, j);
      }
    }
  }

  lemma SplicedRest(prefix: string, body: string, rest: string, p: string)
    requires StartsWith(rest, p)
    ensures OccursAt(prefix + body + rest, p, |prefix| + |body|)
  {
    var r := prefix + body + rest;
    var q := |prefix| + |body|;
    assert r[q..q + |p|] == rest[..|p|];
  }

  /** Searching from just inside the piece finds the pattern where the rest
      begins. */
  lemma {:induction false} SplicedNext(prefix: string, body: string, rest: string, p: string)
    requires NewlineLed(p)
    requires |body| >= 1
    requires !Contains(body[1..], p)
    requires StartsWith(rest, p)
    ensures FindFrom(prefix + body + rest, p, |prefix| + 1) == Some(|prefix| + |body|)
  {
    SplicedNoEarly(prefix, body, rest, p);
    SplicedRest(prefix, body, rest, p);
    FindFirst(prefix + body + rest, p, |prefix| + 1, |prefix| + |body|);
  }

  /** With nothing after the piece, the search finds nothing. */
  lemma {:induction false} SplicedLast(prefix: string, body: string, p: string)
    requires NewlineLed(p)
    requires |body| >= 1
    requires !Contains(body[1..], p)
    ensures FindFrom(prefix + body, p, |prefix| + 1) == None
  {
    SplicedNoEarly(prefix, body, [], p);
    assert prefix + body + [] == prefix + body;
    FindNone(prefix + body, p, |prefix| + 1);
  }
}
