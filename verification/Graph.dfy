/** The history-graph renderer of `versioning_tool/graph.py`: a left fold over
    `git log --pretty=format:%h|%d|%s|%p --topo-order --reverse` lines that
    emits a Mermaid `gitGraph`, the tag-only release graph, and the splice
    that puts a rendered block under a README heading. */
module Graph {
  import opened Wrappers
  import opened Strings
  import opened Seqs

  const Indent := "    "
  const Ellipsis := '\U{2026}'
  const Fence := "```"
  const Header := ["```mermaid", "gitGraph", "    commit id: \"root\""]
  const BranchPrefix := "    branch "
  const MergePrefix := "    merge "
  const CommitPrefix := "    commit id: \""

  /** Truncation length `graph_for_main` passes to `_short_msg` (its default). */
  const CommitMsgLength := 30
  /** Truncation length `generate_release_graph` passes to `_short_msg`. */
  const ReleaseMsgLength := 25

  // ---------------------------------------------------------------------
  // _short_msg

  /** `c` after `replace('"', "'")`. */
  function Unquote(c: char): char {
    if c == '"' then '\'' else c
  }

  function Sanitize(s: string): string {
    seq(|s|, i requires 0 <= i < |s| => Unquote(s[i]))
  }

  /** `_short_msg(msg, length)`: the stripped message with double quotes made
      single, cut to `length` characters plus an ellipsis when longer. */
  function ShortMsg(msg: string, length: nat): string {
    var clean := Sanitize(Strip(msg));
    if |clean| > length then clean[..length] + [Ellipsis] else clean
  }

  /** The shortened message holds no double quote and is at most one
      character longer than `length`; up to `length` characters it is the
      stripped message with quotes swapped, and a longer message is cut at
      `length` and ends in an ellipsis. */
  lemma ShortMsgSpec(msg: string, length: nat)
    ensures var r := ShortMsg(msg, length);
      && '"' !in r
      && |r| <= length + 1
      && (var t := Strip(msg);
        && (|t| <= length ==> (|r| == |t| && forall i :: 0 <= i < |t| ==> r[i] == Unquote(t[i])))
        && (|t| > length ==> (|r| == length + 1 && r[length] == Ellipsis
          && forall i :: 0 <= i < length ==> r[i] == Unquote(t[i]))))
  {
    var t := Strip(msg);
    var clean := Sanitize(t);
    SanitizeSpec(t);
    if |clean| > length {
      var r := clean[..length] + [Ellipsis];
      assert forall i :: 0 <= i < length ==> r[i] == clean[i];
      assert r[length] == Ellipsis;
    }
  }

  /** Swapping quotes keeps the length and leaves no double quote. */
  lemma SanitizeSpec(s: string)
    ensures |Sanitize(s)| == |s|
    ensures forall i :: 0 <= i < |s| ==> Sanitize(s)[i] == Unquote(s[i])
    ensures '"' !in Sanitize(s)
  {
    var r := Sanitize(s);
    forall i | 0 <= i < |r|
      ensures r[i] != '"'
    {
      assert r[i] == Unquote(s[i]);
    }
  }

  // ---------------------------------------------------------------------
  // One log line: `sha, deco, msg, parents = entry.split("|", 3)`

  datatype Entry = Entry(sha: string, deco: string, msg: string, parents: string)

  datatype GraphError = MalformedLogLine(line: string)

  /** The `%h|%d|%s|%p` line an entry is read from. */
  function Unparse(e: Entry): string {
    e.sha + "|" + (e.deco + "|" + (e.msg + "|" + e.parents))
  }

  predicate NotPipe(c: char) {
    c != '|'
  }

  /** The four-way unpack of `entry.split("|", 3)`: it fails when the line
      has fewer than three `|`; any further `|` stays in the parents field. */
  function ParseEntry(line: string): Result<Entry, GraphError> {
    match CutPipe(line)
    case None => Failure(MalformedLogLine(line))
    case Some((sha, rest)) =>
      match CutPipe(rest)
      case None => Failure(MalformedLogLine(line))
      case Some((deco, rest')) =>
        match CutPipe(rest')
        case None => Failure(MalformedLogLine(line))
        case Some((msg, parents)) => Success(Entry(sha, deco, msg, parents))
  }

  /** The text before the first `|` and the text after it. */
  function CutPipe(s: string): Option<(string, string)> {
    var i := Span(s, NotPipe);
    if i == |s| then None else Some((s[..i], s[i + 1..]))
  }

  /** A log line the four-way unpack rejects. */
  predicate Malformed(line: string) {
    ParseEntry(line).Failure?
  }

  // ---------------------------------------------------------------------
  // Decorations: `deco.strip(" ()").split(", ")`

  predicate DecoTrim(c: char) {
    c == ' ' || c == '(' || c == ')'
  }

  function Tokens(deco: string): seq<string> {
    Split(StripBy(deco, DecoTrim), ", ")
  }

  predicate IsTagToken(t: string) {
    StartsWith(t, "tag:")
  }

  /** The tokens the branch-name comprehension keeps: non-empty, not a tag,
      not the `HEAD -> x` pointer. */
  predicate IsBranchToken(t: string) {
    t != "" && !StartsWith(t, "tag:") && !StartsWith(t, "HEAD ->")
  }

  /** `[d.replace("origin/", "") for d in tokens if <branch token>]` */
  function BranchNames(tokens: seq<string>): seq<string> {
    if tokens == [] then []
    else
      var last := tokens[|tokens| - 1];
      BranchNames(tokens[..|tokens| - 1])
        + (if IsBranchToken(last) then [ReplaceAll(last, "origin/", "")] else [])
  }

  /** `[t.replace("tag: ", "") for t in tokens if t.startswith("tag:")]` */
  function TagNames(tokens: seq<string>): seq<string> {
    if tokens == [] then []
    else
      var last := tokens[|tokens| - 1];
      TagNames(tokens[..|tokens| - 1])
        + (if IsTagToken(last) then [ReplaceAll(last, "tag: ", "")] else [])
  }

  /** The ` tag: "<name>"` suffixes appended to a commit line, in order. */
  function TagSuffix(tags: seq<string>): string {
    if tags == [] then "" else " tag: \"" + tags[0] + "\"" + TagSuffix(tags[1..])
  }

  function CommitLine(sha: string, msg: string): string {
    CommitPrefix + (sha + " " + ShortMsg(msg, CommitMsgLength) + "\"")
  }

  function MergeLine(b: string): string {
    MergePrefix + b
  }

  function BranchLine(b: string): string {
    BranchPrefix + b
  }

  // ---------------------------------------------------------------------
  // Walk state: the insertion-ordered `branches` dict and `current_branch`

  /** `branches`: branch name to its last recorded head, in insertion order
      (`None` for the main branch before its first commit). */
  type Heads = seq<(string, Option<string>)>

  datatype Walk = Walk(heads: Heads, current: string, lines: seq<string>)

  function Start(main: string): Walk {
    Walk([(main, None)], main, Header)
  }

  /** The branches of `names` that the loop `for b in branch_names: if b not
      in branches: ...` creates, given the already `known` ones: each new name
      once, in order. */
  function Fresh(known: seq<string>, names: seq<string>): seq<string>
    decreases |names|
  {
    if names == [] then []
    else if names[0] in known then Fresh(known, names[1..])
    else [names[0]] + Fresh(known + [names[0]], names[1..])
  }

  function NewHeads(created: seq<string>, sha: string): (r: Heads)
    ensures |r| == |created|
    ensures forall i :: 0 <= i < |created| ==> r[i] == (created[i], Some(sha))
  {
    seq(|created|, i requires 0 <= i < |created| => (created[i], Some(sha)))
  }

  function BranchLines(created: seq<string>): (r: seq<string>)
    ensures |r| == |created|
    ensures forall i :: 0 <= i < |created| ==> r[i] == BranchLine(created[i])
  {
    seq(|created|, i requires 0 <= i < |created| => BranchLine(created[i]))
  }

  /** The loop `for b in branch_names: if b not in branches: ...`, one name
      at a time: an unknown name gets a `branch` line, a head at `sha`, and
      becomes the current branch; a known name changes nothing. */
  function Declare(w: Walk, names: seq<string>, sha: string): Walk
    decreases |names|
  {
    if names == [] then w
    else
      var b := names[0];
      var w' := if b in Keys(w.heads) then w
        else Walk(w.heads + [(b, Some(sha))], b, w.lines + [BranchLine(b)]);
      Declare(w', names[1..], sha)
  }

  /** The first position whose recorded head is `parent`. */
  function FirstHead(heads: Heads, parent: string): (r: Option<nat>)
    ensures r.Some? ==> r.value < |heads| && heads[r.value].1 == Some(parent)
    ensures r.Some? ==> forall j :: 0 <= j < r.value ==> heads[j].1 != Some(parent)
    ensures r.None? ==> forall j :: 0 <= j < |heads| ==> heads[j].1 != Some(parent)
  {
    if heads == [] then None
    else if heads[0].1 == Some(parent) then Some(0)
    else match FirstHead(heads[1..], parent)
      case None => None
      case Some(i) => Some(i + 1)
  }

  /** `next((b for b, h in branches.items() if h == parent), None)` */
  function Resolve(heads: Heads, parent: string): Option<string> {
    match FirstHead(heads, parent)
    case None => None
    case Some(i) => Some(heads[i].0)
  }

  /** A parent whose resolution turns the commit into a merge: some branch
      has it as head and the first such branch has a non-empty (truthy) name. */
  predicate Resolves(heads: Heads, parent: string) {
    var b := Resolve(heads, parent);
    b.Some? && b.value != ""
  }

  /** The position of the last resolving parent in `ps`. */
  function LastResolving(heads: Heads, ps: seq<string>): (r: Option<nat>)
    ensures r.Some? ==> r.value < |ps| && Resolves(heads, ps[r.value])
    ensures r.Some? ==> forall j :: r.value < j < |ps| ==> !Resolves(heads, ps[j])
    ensures r.None? ==> forall j :: 0 <= j < |ps| ==> !Resolves(heads, ps[j])
  {
    if ps == [] then None
    else if Resolves(heads, ps[|ps| - 1]) then Some(|ps| - 1)
    else
      assert forall j :: 0 <= j < |ps| - 1 ==> ps[..|ps| - 1][j] == ps[j];
      LastResolving(heads, ps[..|ps| - 1])
  }

  /** The loop over `parents[1:]`: every resolving parent overwrites the
      line, so the branch of the last one wins. */
  function MergeSource(heads: Heads, ps: seq<string>): Option<string> {
    match LastResolving(heads, ps)
    case None => None
    case Some(k) => Resolve(heads, ps[k])
  }

  /** `branches[current_branch] = sha` */
  function SetHead(heads: Heads, b: string, sha: string): Heads {
    match IndexOf(heads, b)
    case Some(i) => heads[i := (b, Some(sha))]
    case None => heads + [(b, Some(sha))]
  }

  /** The head recorded for branch `b`. */
  function HeadOf(heads: Heads, b: string): Option<string> {
    match IndexOf(heads, b)
    case Some(i) => heads[i].1
    case None => None
  }

  /** `parents[1:]` after `parents.split() if parents else []`. */
  function OtherParents(parents: string): seq<string> {
    var ps := Words(parents);
    if |ps| > 1 then ps[1..] else []
  }

  /** The line emitted for an entry: a merge line replaces the commit line,
      tag suffixes included, when some non-first parent resolves. */
  function EntryLine(heads: Heads, e: Entry): string {
    match MergeSource(heads, OtherParents(e.parents))
    case Some(b) => MergeLine(b)
    case None => CommitText(e)
  }

  /** The commit line with its tag suffixes. */
  function CommitText(e: Entry): string {
    CommitPrefix + (e.sha + " " + ShortMsg(e.msg, CommitMsgLength) + "\"" + TagSuffix(TagNames(Tokens(e.deco))))
  }

  /** One iteration of the loop body of `graph_for_main`. */
  function Step(w: Walk, line: string): Result<Walk, GraphError> {
    var e :- ParseEntry(line);
    Success(Advance(w, e))
  }

  /** The loop body for an unpacked entry: create the decorated branches,
      emit the entry's line, and move the current branch's head. */
  function Advance(w: Walk, e: Entry): Walk {
    var d := Declare(w, BranchNames(Tokens(e.deco)), e.sha);
    Walk(SetHead(d.heads, d.current, e.sha), d.current, d.lines + [EntryLine(d.heads, e)])
  }

  /** The whole `for entry in log` loop; the first malformed line aborts it. */
  function WalkLog(w: Walk, log: seq<string>): Result<Walk, GraphError>
    decreases |log|
  {
    if log == [] then Success(w)
    else
      var w' :- Step(w, log[0]);
      WalkLog(w', log[1..])
  }

  /** The lines `graph_for_main` joins with "\n". */
  function GraphLines(main: string, log: seq<string>): Result<seq<string>, GraphError> {
    var w :- WalkLog(Start(main), log);
    Success(w.lines + [Fence])
  }

  /** `graph_for_main(main_branch)` with the log lines given. */
  function GraphForMain(main: string, log: seq<string>): Result<string, GraphError> {
    var lines :- GraphLines(main, log);
    Success(Join(lines, "\n"))
  }

  // ---------------------------------------------------------------------
  // Properties of one log line

  /** Cutting at the first `|`: there is none iff the text holds no `|`;
      otherwise the part before holds none, and the parts around that `|`
      rebuild the text. */
  lemma CutPipeSpec(s: string)
    ensures CutPipe(s).None? <==> '|' !in s
    ensures CutPipe(s).Some? ==>
      && '|' !in CutPipe(s).value.0
      && s == CutPipe(s).value.0 + "|" + CutPipe(s).value.1
  {
    var i := Span(s, NotPipe);
    forall k | 0 <= k < i
      ensures s[k] != '|'
    {
      assert NotPipe(s[k]);
    }
    if i < |s| {
      assert !NotPipe(s[i]);
      CutAt(s, i);
      assert forall k :: 0 <= k < i ==> s[..i][k] == s[k];
    }
  }

  /** Cutting at the first `|` drops the count of `|` by one. */
  lemma CutPipeCount(s: string)
    ensures CutPipe(s).None? ==> multiset(s)['|'] == 0
    ensures CutPipe(s).Some? ==> multiset(s)['|'] == 1 + multiset(CutPipe(s).value.1)['|']
  {
    CutPipeSpec(s);
    if CutPipe(s).Some? {
      var (a, b) := CutPipe(s).value;
      assert multiset(s) == multiset(a) + multiset("|") + multiset(b);
    }
  }

  /** A text cut at a `|` that follows a `|`-free part. */
  lemma CutPipeJoin(a: string, rest: string)
    requires '|' !in a
    ensures CutPipe(a + "|" + rest) == Some((a, rest))
  {
    var s := a + "|" + rest;
    assert s[|a|] == '|';
    assert forall k :: 0 <= k < |a| ==> s[k] == a[k];
    assert Span(s, NotPipe) == |a|;
    assert s[..|a|] == a && s[|a| + 1..] == rest;
  }

  /** A line is accepted exactly when it holds at least three `|`. */
  lemma ParseEntryAccepts(line: string)
    ensures ParseEntry(line).Success? <==> multiset(line)['|'] >= 3
  {
    CutPipeCount(line);
    if CutPipe(line).Some? {
      var rest := CutPipe(line).value.1;
      CutPipeCount(rest);
      if CutPipe(rest).Some? {
        CutPipeCount(CutPipe(rest).value.1);
      }
    }
  }

  /** An accepted line's first three fields hold no `|`, and the four fields
      put back together with `|` give the line. */
  lemma ParseEntryRoundTrip(line: string)
    requires ParseEntry(line).Success?
    ensures var e := ParseEntry(line).value;
      && Unparse(e) == line
      && '|' !in e.sha && '|' !in e.deco && '|' !in e.msg
  {
    CutPipeSpec(line);
    var rest := CutPipe(line).value.1;
    CutPipeSpec(rest);
    CutPipeSpec(CutPipe(rest).value.1);
  }

  /** The converse round trip: an entry whose first three fields hold no
      `|` is recovered from its log line. The parents field may hold `|`, so
      a subject containing `|` is not rejected: everything after its first
      `|` is read as part of the parents field. */
  lemma UnparseParse(e: Entry)
    requires '|' !in e.sha && '|' !in e.deco && '|' !in e.msg
    ensures ParseEntry(Unparse(e)) == Success(e)
  {
    var p3 := e.msg + "|" + e.parents;
    var p2 := e.deco + "|" + p3;
    CutPipeJoin(e.sha, p2);
    CutPipeJoin(e.deco, p3);
    CutPipeJoin(e.msg, e.parents);
  }

  /** `_short_msg` is idempotent: shortening an already shortened message
      changes nothing. */
  lemma ShortMsgIdempotent(msg: string, length: nat)
    ensures ShortMsg(ShortMsg(msg, length), length) == ShortMsg(msg, length)
  {
    var r := ShortMsg(msg, length);
    ShortMsgSpec(msg, length);
    ShortMsgClean(msg, length);
    SanitizeKeeps(r);
    if |r| > length {
      assert r == r[..length] + [r[length]];
    }
  }

  /** A shortened message has no whitespace at either end. */
  lemma ShortMsgClean(msg: string, length: nat)
    ensures Strip(ShortMsg(msg, length)) == ShortMsg(msg, length)
  {
    var t := Strip(msg);
    var r := ShortMsg(msg, length);
    ShortMsgSpec(msg, length);
    StripEnds(msg);
    if r != [] {
      UnquoteSpace(t[0]);
      UnquoteSpace(t[|t| - 1]);
      assert !IsSpace(Ellipsis);
      assert !IsSpace(r[0]);
      assert !IsSpace(r[|r| - 1]);
    }
    StripUnchanged(r);
  }

  lemma UnquoteSpace(c: char)
    ensures IsSpace(Unquote(c)) == IsSpace(c)
  {
  }

  /** Text without double quotes is left alone by the quote swap. */
  lemma SanitizeKeeps(s: string)
    requires '"' !in s
    ensures Sanitize(s) == s
  {
    SanitizeSpec(s);
    forall i | 0 <= i < |s|
      ensures Sanitize(s)[i] == s[i]
    {
      assert s[i] != '"';
    }
  }

  /** The stripped text starts and ends with a non-space character. */
  lemma StripEnds(s: string)
    ensures Strip(s) == [] || (!IsSpace(Strip(s)[0]) && !IsSpace(Strip(s)[|Strip(s)| - 1]))
  {
    var l := TrimLeft(s, IsSpace);
    var t := TrimRight(l, IsSpace);
    if t != [] {
      assert t[0] == l[0];
    }
  }

  lemma StripUnchanged(s: string)
    requires s == [] || (!IsSpace(s[0]) && !IsSpace(s[|s| - 1]))
    ensures Strip(s) == s
  {
  }

  // ---------------------------------------------------------------------
  // Properties of the walk state

  /** The branches created for one entry are new, distinct, taken from the
      entry's names, and cover every name that was not known. */
  lemma {:induction false} FreshSpec(known: seq<string>, names: seq<string>)
    ensures var c := Fresh(known, names);
      && NoDup(c)
      && (forall i :: 0 <= i < |c| ==> c[i] !in known && c[i] in names)
      && (forall i :: 0 <= i < |names| ==> names[i] in known || names[i] in c)
    decreases |names|
  {
    if names != [] {
      var b := names[0];
      if b in known {
        FreshSpec(known, names[1..]);
      } else {
        FreshSpec(known + [b], names[1..]);
        var c' := Fresh(known + [b], names[1..]);
        assert Fresh(known, names) == [b] + c';
        forall i | 0 <= i < |names|
          ensures names[i] in known || names[i] in [b] + c'
        {
          if i > 0 {
            assert names[i] == names[1..][i - 1];
          }
        }
      }
    }
  }

  /** Names that are all known create nothing. */
  lemma {:induction false} FreshNone(known: seq<string>, names: seq<string>)
    requires forall i :: 0 <= i < |names| ==> names[i] in known
    ensures Fresh(known, names) == []
    decreases |names|
  {
    if names != [] {
      FreshNone(known, names[1..]);
    }
  }

  /** Closed form of the branch-creation loop: the created branches are
      appended to the map with head `sha` and get one `branch` line each,
      and the last of them becomes current. */
  lemma {:induction false} DeclareClosed(w: Walk, names: seq<string>, sha: string)
    ensures var c := Fresh(Keys(w.heads), names);
      Declare(w, names, sha)
        == Walk(w.heads + NewHeads(c, sha), if c == [] then w.current else c[|c| - 1],
                w.lines + BranchLines(c))
    decreases |names|
  {
    if names == [] {
      assert w.heads + NewHeads([], sha) == w.heads;
      assert w.lines + BranchLines([]) == w.lines;
    } else {
      var b := names[0];
      if b !in Keys(w.heads) {
        var w' := Walk(w.heads + [(b, Some(sha))], b, w.lines + [BranchLine(b)]);
        DeclareClosed(w', names[1..], sha);
        assert Keys(w'.heads) == Keys(w.heads) + [b];
        var c' := Fresh(Keys(w'.heads), names[1..]);
        assert Fresh(Keys(w.heads), names) == [b] + c';
        CreatedCons(b, c', sha);
        Assoc(w.heads, [(b, Some(sha))], NewHeads(c', sha));
        Assoc(w.lines, [BranchLine(b)], BranchLines(c'));
      } else {
        DeclareClosed(w, names[1..], sha);
      }
    }
  }

  /** One more created branch in front: one more head and one more line. */
  lemma CreatedCons(b: string, c: seq<string>, sha: string)
    ensures NewHeads([b] + c, sha) == [(b, Some(sha))] + NewHeads(c, sha)
    ensures BranchLines([b] + c) == [BranchLine(b)] + BranchLines(c)
  {
    assert NewHeads([b] + c, sha)[0] == (b, Some(sha));
    assert BranchLines([b] + c)[0] == BranchLine(b);
  }

  /** Re-decorating known branches changes neither the map, the current
      branch, nor the emitted lines. */
  lemma {:induction false} DeclareKnown(w: Walk, names: seq<string>, sha: string)
    requires forall i :: 0 <= i < |names| ==> names[i] in Keys(w.heads)
    ensures Declare(w, names, sha) == w
  {
    FreshNone(Keys(w.heads), names);
    DeclareClosed(w, names, sha);
    assert w.heads + NewHeads([], sha) == w.heads;
    assert w.lines + BranchLines([]) == w.lines;
  }

  /** The branch names a list of lines declares, in order. */
  function Declared(lines: seq<string>): seq<string> {
    if lines == [] then []
    else
      var l := lines[|lines| - 1];
      Declared(lines[..|lines| - 1])
        + (if StartsWith(l, BranchPrefix) then [l[|BranchPrefix|..]] else [])
  }

  lemma {:induction false} DeclaredAppend(a: seq<string>, b: seq<string>)
    ensures Declared(a + b) == Declared(a) + Declared(b)
    decreases |b|
  {
    if b == [] {
      assert a + b == a;
    } else {
      DeclaredAppend(a, b[..|b| - 1]);
      assert (a + b)[..|a + b| - 1] == a + b[..|b| - 1];
    }
  }

  lemma {:induction false} DeclaredBranchLines(c: seq<string>)
    ensures Declared(BranchLines(c)) == c
    decreases |c|
  {
    if c != [] {
      var c' := c[..|c| - 1];
      DeclaredBranchLines(c');
      assert BranchLines(c)[..|c| - 1] == BranchLines(c');
      var l := BranchLine(c[|c| - 1]);
      assert l[..|BranchPrefix|] == BranchPrefix;
      assert l[|BranchPrefix|..] == c[|c| - 1];
    }
  }

  /** Lines that differ from the `branch` prefix at its fifth character
      declare nothing. */
  lemma NotBranchLine(l: string)
    requires |l| > 4 && l[4] != 'b'
    ensures Declared([l]) == []
  {
    assert [l][..0] == [];
  }

  lemma PrefixChar(p: string, rest: string, i: nat)
    requires i < |p|
    ensures (p + rest)[i] == p[i]
  {
  }

  lemma CommitTextNotBranch(e: Entry)
    ensures Declared([CommitText(e)]) == []
  {
    var body := e.sha + " " + ShortMsg(e.msg, CommitMsgLength) + "\"" + TagSuffix(TagNames(Tokens(e.deco)));
    PrefixChar(CommitPrefix, body, 4);
    NotBranchLine(CommitPrefix + body);
  }

  lemma MergeLineNotBranch(b: string)
    ensures Declared([MergeLine(b)]) == []
  {
    PrefixChar(MergePrefix, b, 4);
    NotBranchLine(MergeLine(b));
  }

  /** Neither a commit line nor a merge line announces a branch. */
  lemma EntryLineNotBranch(heads: Heads, e: Entry)
    ensures Declared([EntryLine(heads, e)]) == []
  {
    var m := MergeSource(heads, OtherParents(e.parents));
    if m.Some? {
      MergeLineNotBranch(m.value);
    } else {
      CommitTextNotBranch(e);
    }
  }

  lemma {:induction false} KeysNewHeads(heads: Heads, c: seq<string>, sha: string)
    ensures Keys(heads + NewHeads(c, sha)) == Keys(heads) + c
  {
  }

  lemma HeaderDeclaresNothing()
    ensures Declared(Header) == []
  {
    NotBranchLine(Header[2]);
    assert Header == [Header[0], Header[1]] + [Header[2]];
    assert [Header[0], Header[1]] == [Header[0]] + [Header[1]];
    assert [Header[0]][..0] == [];
    assert Declared([Header[0]]) == [];
    assert [Header[0], Header[1]][..1] == [Header[0]];
    DeclaredAppend([Header[0], Header[1]], [Header[2]]);
  }

  /** The invariant of the loop in `graph_for_main`: the main branch comes
      first, branch names are unique, the current branch is one of them,
      and every other branch was announced by exactly one `branch` line,
      in map order. */
  ghost predicate Valid(w: Walk, main: string) {
    && |w.heads| >= 1 && w.heads[0].0 == main
    && NoDup(Keys(w.heads))
    && w.current in Keys(w.heads)
    && Declared(w.lines) == Keys(w.heads)[1..]
  }

  lemma StartValid(main: string)
    ensures Valid(Start(main), main)
  {
    HeaderDeclaresNothing();
  }

  lemma SetHeadSpec(heads: Heads, b: string, sha: string)
    requires b in Keys(heads)
    ensures Keys(SetHead(heads, b, sha)) == Keys(heads)
    ensures HeadOf(SetHead(heads, b, sha), b) == Some(sha)
    ensures forall i :: 0 <= i < |heads| && heads[i].0 != b ==> SetHead(heads, b, sha)[i] == heads[i]
  {
    var i :| 0 <= i < |heads| && heads[i].0 == b;
    var r := SetHead(heads, b, sha);
    assert IndexOf(heads, b).Some?;
    assert Keys(r) == Keys(heads);
    assert IndexOf(r, b) == IndexOf(heads, b) by {
      IndexOfSameKeys(heads, r, b);
    }
  }

  lemma {:induction false} IndexOfSameKeys(a: Heads, b: Heads, k: string)
    requires Keys(a) == Keys(b)
    ensures IndexOf(a, k) == IndexOf(b, k)
    decreases |a|
  {
    if a != [] {
      assert Keys(a[1..]) == Keys(a)[1..];
      assert Keys(b[1..]) == Keys(b)[1..];
      IndexOfSameKeys(a[1..], b[1..], k);
    }
  }

  /** One entry of the walk, for a state whose current branch is in the
      map: the line is rejected exactly when it cannot be unpacked;
      otherwise the newly decorated branches are appended to the map and
      announced by one `branch` line each, the last of them becomes current,
      and exactly one commit-or-merge line follows. */
  lemma StepSpec(w: Walk, line: string)
    requires w.current in Keys(w.heads)
    ensures Step(w, line).Failure? <==> ParseEntry(line).Failure?
    ensures Step(w, line).Success? ==>
      var e := ParseEntry(line).value;
      var c := Fresh(Keys(w.heads), BranchNames(Tokens(e.deco)));
      var r := Step(w, line).value;
      && Keys(r.heads) == Keys(w.heads) + c
      && r.current == (if c == [] then w.current else c[|c| - 1])
      && r.lines == w.lines + BranchLines(c) + [EntryLine(w.heads + NewHeads(c, e.sha), e)]
  {
    if ParseEntry(line).Success? {
      var e := ParseEntry(line).value;
      var names := BranchNames(Tokens(e.deco));
      DeclareClosed(w, names, e.sha);
      var d := Declare(w, names, e.sha);
      var c := Fresh(Keys(w.heads), names);
      KeysNewHeads(w.heads, c, e.sha);
      assert d.current in Keys(d.heads);
      SetHeadSpec(d.heads, d.current, e.sha);
    }
  }

  /** The heads and current branch after an entry, in terms of the
      branch-creation loop. */
  lemma {:induction false} StepUnfold(w: Walk, line: string)
    requires Step(w, line).Success?
    ensures var e := ParseEntry(line).value;
      var d := Declare(w, BranchNames(Tokens(e.deco)), e.sha);
      && Step(w, line).value.heads == SetHead(d.heads, d.current, e.sha)
      && Step(w, line).value.current == d.current
  {
  }

  /** Recording `sha` for a branch of a map extended with new heads at `sha`:
      only that branch's entry changes, and every new entry holds `sha`. */
  lemma SetHeadExtended(heads: Heads, c: seq<string>, sha: string, cur: string)
    requires cur in Keys(heads + NewHeads(c, sha))
    ensures var r := SetHead(heads + NewHeads(c, sha), cur, sha);
      && |heads| <= |r|
      && HeadOf(r, cur) == Some(sha)
      && (forall i :: 0 <= i < |heads| && heads[i].0 != cur ==> r[i] == heads[i])
      && (forall i :: |heads| <= i < |r| ==> r[i].1 == Some(sha))
  {
    var d := heads + NewHeads(c, sha);
    SetHeadSpec(d, cur, sha);
    var j := IndexOf(d, cur).value;
    assert SetHead(d, cur, sha) == d[j := (cur, Some(sha))];
  }

  /** After an entry, among the branches only the current one's head has
      changed, to the entry's sha; branches created by the entry also start
      at that sha. */
  lemma StepHeads(w: Walk, line: string)
    requires w.current in Keys(w.heads)
    requires Step(w, line).Success?
    ensures var e := ParseEntry(line).value;
      var r := Step(w, line).value;
      && |w.heads| <= |r.heads|
      && HeadOf(r.heads, r.current) == Some(e.sha)
      && (forall i :: 0 <= i < |w.heads| && w.heads[i].0 != r.current ==> r.heads[i] == w.heads[i])
      && (forall i :: |w.heads| <= i < |r.heads| ==> r.heads[i].1 == Some(e.sha))
  {
    var e := ParseEntry(line).value;
    var names := BranchNames(Tokens(e.deco));
    var c := Fresh(Keys(w.heads), names);
    DeclareClosed(w, names, e.sha);
    KeysNewHeads(w.heads, c, e.sha);
    StepUnfold(w, line);
    SetHeadExtended(w.heads, c, e.sha, Declare(w, names, e.sha).current);
  }

  lemma FenceNotBranch()
    ensures Declared([Fence]) == []
  {
    assert [Fence][..0] == [];
  }

  /** The lines of a walk grew by `extra` lines past the old ones, which are
      kept, and the invariant holds afterwards. */
  ghost predicate Grown(w: Walk, r: Walk, extra: nat, main: string) {
    && Valid(r, main)
    && |w.heads| <= |r.heads|
    && |r.lines| == |w.lines| + extra + (|r.heads| - |w.heads|)
    && r.lines[..|w.lines|] == w.lines
  }

  /** Appending fresh branches, their `branch` lines and one line that is
      not a `branch` line keeps the invariant. */
  lemma ExtendValid(w: Walk, r: Walk, c: seq<string>, l: string, main: string)
    requires Valid(w, main)
    requires NoDup(c) && forall i :: 0 <= i < |c| ==> c[i] !in Keys(w.heads)
    requires Keys(r.heads) == Keys(w.heads) + c
    requires r.current in Keys(r.heads)
    requires r.lines == w.lines + BranchLines(c) + [l]
    requires Declared([l]) == []
    ensures Grown(w, r, 1, main)
  {
    var keys := Keys(w.heads);
    assert forall x :: x in keys ==> x !in c;
    NoDupAppend(keys, c);
    assert r.heads[0].0 == Keys(r.heads)[0] == keys[0];
    ExtendDeclared(w.lines, c, l);
    assert (keys + c)[1..] == keys[1..] + c;
    assert r.lines[..|w.lines|] == w.lines;
  }

  /** The branches declared by lines grown by `branch` lines and one other
      line. */
  lemma {:induction false} ExtendDeclared(lines: seq<string>, c: seq<string>, l: string)
    requires Declared([l]) == []
    ensures Declared(lines + BranchLines(c) + [l]) == Declared(lines) + c
  {
    DeclaredAppend(lines, BranchLines(c));
    DeclaredAppend(lines + BranchLines(c), [l]);
    DeclaredBranchLines(c);
  }

  /** One entry keeps the invariant, and the lines grow by the new branches
      plus the one commit-or-merge line. */
  lemma StepValid(w: Walk, line: string, main: string)
    requires Valid(w, main)
    requires Step(w, line).Success?
    ensures Grown(w, Step(w, line).value, 1, main)
  {
    StepSpec(w, line);
    var e := ParseEntry(line).value;
    var c := Fresh(Keys(w.heads), BranchNames(Tokens(e.deco)));
    FreshSpec(Keys(w.heads), BranchNames(Tokens(e.deco)));
    EntryLineNotBranch(w.heads + NewHeads(c, e.sha), e);
    ExtendValid(w, Step(w, line).value, c, EntryLine(w.heads + NewHeads(c, e.sha), e), main);
  }

  /** Two growth steps compose. */
  lemma GrownTrans(w: Walk, v: Walk, r: Walk, m: nat, n: nat, main: string)
    requires Grown(w, v, m, main) && Grown(v, r, n, main)
    ensures Grown(w, r, m + n, main)
  {
    assert r.lines[..|w.lines|] == r.lines[..|v.lines|][..|w.lines|];
  }

  /** The walk keeps the invariant; the lines only grow, by one line per log
      entry plus one per branch added to the map. */
  lemma {:induction false} WalkValid(w: Walk, log: seq<string>, main: string)
    requires Valid(w, main)
    requires WalkLog(w, log).Success?
    ensures Grown(w, WalkLog(w, log).value, |log|, main)
    decreases |log|
  {
    if log == [] {
      assert w.lines[..|w.lines|] == w.lines;
    } else {
      var w' := Step(w, log[0]).value;
      StepValid(w, log[0], main);
      WalkValid(w', log[1..], main);
      assert WalkLog(w, log) == WalkLog(w', log[1..]);
      GrownTrans(w, w', WalkLog(w, log).value, 1, |log| - 1, main);
    }
  }

  /** The walk fails exactly when some log line cannot be unpacked. */
  lemma {:induction false} WalkRejects(w: Walk, log: seq<string>)
    ensures WalkLog(w, log).Failure? <==>
      exists i :: 0 <= i < |log| && Malformed(log[i])
    decreases |log|
  {
    if log != [] {
      if ParseEntry(log[0]).Success? {
        var w' := Step(w, log[0]).value;
        WalkCons(w, log);
        WalkRejects(w', log[1..]);
        AnyTail(log, Malformed);
      }
    }
  }

  /** The rendered graph: the fixed three-line header, then as many lines as
      log entries plus one `branch` line per distinct branch other than the
      main one, then the closing fence; it fails exactly on a malformed log
      line. */
  lemma GraphShape(main: string, log: seq<string>)
    ensures GraphLines(main, log).Failure? <==>
      exists i :: 0 <= i < |log| && Malformed(log[i])
    ensures GraphLines(main, log).Success? ==>
      var lines := GraphLines(main, log).value;
      && |lines| >= 4
      && lines[..3] == Header
      && lines[|lines| - 1] == Fence
      && NoDup(Declared(lines))
      && main !in Declared(lines)
      && |lines| == 3 + |log| + |Declared(lines)| + 1
  {
    StartValid(main);
    WalkRejects(Start(main), log);
    if WalkLog(Start(main), log).Success? {
      var w := WalkLog(Start(main), log).value;
      WalkValid(Start(main), log, main);
      var lines := w.lines + [Fence];
      DeclaredAppend(w.lines, [Fence]);
      FenceNotBranch();
      var ks := Keys(w.heads);
      assert Declared(lines) == ks[1..];
      assert lines[..3] == w.lines[..3];
      forall i, j | 0 <= i < j < |ks[1..]|
        ensures ks[1..][i] != ks[1..][j]
      {
        assert ks[i + 1] != ks[j + 1];
      }
      forall k | 0 <= k < |ks[1..]|
        ensures ks[1..][k] != main
      {
        assert ks[k + 1] != ks[0];
      }
    }
  }

  // ---------------------------------------------------------------------
  // Decoration tokens, merges, and undecorated history

  /** `[x.replace(pat, rep) for x in xs]` */
  function ReplaceEach(xs: seq<string>, pat: string, rep: string): (r: seq<string>)
    requires |pat| > 0
    ensures |r| == |xs|
    ensures forall i :: 0 <= i < |xs| ==> r[i] == ReplaceAll(xs[i], pat, rep)
  {
    seq(|xs|, i requires 0 <= i < |xs| => ReplaceAll(xs[i], pat, rep))
  }

  /** The branch names are the branch tokens, in order, each with every
      `origin/` removed. */
  lemma {:induction false} BranchNamesSpec(tokens: seq<string>)
    ensures BranchNames(tokens) == ReplaceEach(Filter(tokens, IsBranchToken), "origin/", "")
    decreases |tokens|
  {
    if tokens != [] {
      BranchNamesSpec(tokens[..|tokens| - 1]);
    }
  }

  /** The tag names are the `tag:` tokens, in order, each with every
      `tag: ` removed. */
  lemma {:induction false} TagNamesSpec(tokens: seq<string>)
    ensures TagNames(tokens) == ReplaceEach(Filter(tokens, IsTagToken), "tag: ", "")
    decreases |tokens|
  {
    if tokens != [] {
      TagNamesSpec(tokens[..|tokens| - 1]);
    }
  }

  /** A remote-tracking decoration `origin/b` names the branch `b`. */
  lemma {:induction false} OriginRemoved(b: string)
    requires !Contains(b, "origin/")
    ensures ReplaceAll("origin/" + b, "origin/", "") == b
  {
    ReplaceLeading(b, "origin/", "");
    ReplaceAbsent(b, "origin/", "");
  }

  /** The tag suffix lists the tags in order. */
  lemma {:induction false} TagSuffixAppend(a: seq<string>, b: seq<string>)
    ensures TagSuffix(a + b) == TagSuffix(a) + TagSuffix(b)
    decreases |a|
  {
    if a == [] {
      assert a + b == b;
    } else {
      TagSuffixAppend(a[1..], b);
      assert (a + b)[1..] == a[1..] + b;
    }
  }

  /** When no non-first parent resolves, an entry keeps its commit line
      with its tags. */
  lemma EntryLineCommit(heads: Heads, e: Entry)
    requires forall k :: 0 <= k < |OtherParents(e.parents)| ==> !Resolves(heads, OtherParents(e.parents)[k])
    ensures EntryLine(heads, e) == CommitText(e)
  {
  }

  /** Otherwise the line is a merge of the first branch, in map order, whose
      head is the last resolving parent; the commit line and its tags are
      dropped. */
  lemma EntryLineMerge(heads: Heads, e: Entry, k: nat, j: nat)
    requires var ps := OtherParents(e.parents);
      && k < |ps| && Resolves(heads, ps[k])
      && (forall k' :: k < k' < |ps| ==> !Resolves(heads, ps[k']))
    requires j < |heads| && heads[j].1 == Some(OtherParents(e.parents)[k])
    requires forall j' :: 0 <= j' < j ==> heads[j'].1 != Some(OtherParents(e.parents)[k])
    ensures EntryLine(heads, e) == MergeLine(heads[j].0)
  {
    var ps := OtherParents(e.parents);
    LastResolvingAt(heads, ps, k);
    FirstHeadAt(heads, ps[k], j);
  }

  lemma {:induction false} LastResolvingAt(heads: Heads, ps: seq<string>, k: nat)
    requires k < |ps| && Resolves(heads, ps[k])
    requires forall k' :: k < k' < |ps| ==> !Resolves(heads, ps[k'])
    ensures LastResolving(heads, ps) == Some(k)
  {
  }

  lemma {:induction false} FirstHeadAt(heads: Heads, parent: string, j: nat)
    requires j < |heads| && heads[j].1 == Some(parent)
    requires forall j' :: 0 <= j' < j ==> heads[j'].1 != Some(parent)
    ensures FirstHead(heads, parent) == Some(j)
  {
  }

  /** A resolving parent needs a branch with a non-empty name whose head it
      is; the first such branch in map order is the one merged. */
  lemma ResolvesSpec(heads: Heads, parent: string)
    ensures Resolves(heads, parent) <==>
      exists j :: && 0 <= j < |heads| && heads[j].1 == Some(parent) && heads[j].0 != ""
        && forall j' :: 0 <= j' < j ==> heads[j'].1 != Some(parent)
  {
  }

  /** An entry with no decoration, no `|` in its first three fields and at
      most one parent. */
  predicate Plain(e: Entry) {
    && '|' !in e.sha && '|' !in e.deco && '|' !in e.msg
    && StripBy(e.deco, DecoTrim) == ""
    && |Words(e.parents)| <= 1
  }

  function Lines(es: seq<Entry>): (r: seq<string>)
    ensures |r| == |es| && forall i :: 0 <= i < |es| ==> r[i] == Unparse(es[i])
  {
    seq(|es|, i requires 0 <= i < |es| => Unparse(es[i]))
  }

  /** One commit line per entry, in order. */
  function CommitLines(es: seq<Entry>): seq<string> {
    if es == [] then [] else [CommitLine(es[0].sha, es[0].msg)] + CommitLines(es[1..])
  }

  lemma PlainTokens(e: Entry)
    requires Plain(e)
    ensures Tokens(e.deco) == [""]
    ensures BranchNames(Tokens(e.deco)) == [] && TagNames(Tokens(e.deco)) == []
    ensures OtherParents(e.parents) == []
  {
    assert FindFrom("", ", ", 0) == None;
  }

  lemma PlainEntryLine(heads: Heads, e: Entry)
    requires Plain(e)
    ensures EntryLine(heads, e) == CommitLine(e.sha, e.msg)
  {
    PlainTokens(e);
    assert CommitText(e) == CommitLine(e.sha, e.msg);
  }

  /** A plain entry adds exactly its commit line and touches neither the
      set of branches nor the current branch. */
  lemma PlainAdvance(w: Walk, e: Entry)
    requires w.current in Keys(w.heads)
    requires Plain(e)
    ensures var r := Advance(w, e);
      && r.lines == w.lines + [CommitLine(e.sha, e.msg)]
      && r.current == w.current
      && Keys(r.heads) == Keys(w.heads)
  {
    PlainTokens(e);
    DeclareKnown(w, [], e.sha);
    PlainEntryLine(w.heads, e);
    SetHeadSpec(w.heads, w.current, e.sha);
  }

  lemma StepParsed(w: Walk, line: string, e: Entry)
    requires ParseEntry(line) == Success(e)
    ensures Step(w, line) == Success(Advance(w, e))
  {
  }

  lemma {:induction false} WalkCons(w: Walk, log: seq<string>)
    requires log != [] && Step(w, log[0]).Success?
    ensures WalkLog(w, log) == WalkLog(Step(w, log[0]).value, log[1..])
  {
  }

  /** Every line of `log` unpacks to the corresponding plain entry. */
  ghost predicate PlainLog(log: seq<string>, es: seq<Entry>) {
    && |log| == |es|
    && (es == [] || (ParseEntry(log[0]) == Success(es[0]) && Plain(es[0]) && PlainLog(log[1..], es[1..])))
  }

  lemma {:induction false} PlainLogAll(log: seq<string>, es: seq<Entry>)
    requires |log| == |es|
    requires forall i :: 0 <= i < |es| ==> ParseEntry(log[i]) == Success(es[i]) && Plain(es[i])
    ensures PlainLog(log, es)
    decreases |es|
  {
    if es != [] {
      PlainLogAll(log[1..], es[1..]);
    }
  }

  /** The walk from `w` to `r` added exactly the commit lines of `es`. */
  ghost predicate PlainGrown(w: Walk, r: Walk, es: seq<Entry>) {
    && r.lines == w.lines + CommitLines(es)
    && r.current == w.current
    && Keys(r.heads) == Keys(w.heads)
  }

  lemma PlainGrownCons(w: Walk, v: Walk, r: Walk, es: seq<Entry>)
    requires es != []
    requires v.lines == w.lines + [CommitLine(es[0].sha, es[0].msg)]
    requires v.current == w.current && Keys(v.heads) == Keys(w.heads)
    requires PlainGrown(v, r, es[1..])
    ensures PlainGrown(w, r, es)
  {
  }

  /** On undecorated linear history the walk adds one commit line per
      entry and nothing else. */
  lemma {:induction false} WalkPlain(w: Walk, log: seq<string>, es: seq<Entry>)
    requires w.current in Keys(w.heads)
    requires PlainLog(log, es)
    ensures WalkLog(w, log).Success?
    ensures PlainGrown(w, WalkLog(w, log).value, es)
    decreases |es|
  {
    if es != [] {
      StepParsed(w, log[0], es[0]);
      PlainAdvance(w, es[0]);
      var w' := Step(w, log[0]).value;
      WalkPlain(w', log[1..], es[1..]);
      WalkCons(w, log);
      PlainGrownCons(w, w', WalkLog(w, log).value, es);
    } else {
      assert w.lines + CommitLines(es) == w.lines;
    }
  }

  /** Undecorated linear history renders as the header, one commit line
      per entry, and the fence. */
  lemma {:induction false} GraphPlain(main: string, log: seq<string>, es: seq<Entry>)
    requires |log| == |es|
    requires forall i :: 0 <= i < |es| ==> ParseEntry(log[i]) == Success(es[i]) && Plain(es[i])
    ensures GraphLines(main, log) == Success(Header + CommitLines(es) + [Fence])
  {
    assert Keys(Start(main).heads) == [main];
    PlainLogAll(log, es);
    WalkPlain(Start(main), log, es);
  }

  // ---------------------------------------------------------------------
  // generate_release_graph

  /** Python's slice `s[:n]`, a negative `n` counting from the end. */
  function Take<T>(s: seq<T>, n: int): (r: seq<T>)
    ensures |r| <= |s| && r == s[..|r|]
    ensures n >= 0 ==> |r| == if n < |s| then n else |s|
    ensures n < 0 ==> |r| == if |s| + n > 0 then |s| + n else 0
  {
    if n >= 0 then (if n < |s| then s[..n] else s)
    else if |s| + n > 0 then s[..|s| + n] else []
  }

  /** The text returned when no tag is reachable from the main branch. */
  const NoReleases := "```mermaid\ngitGraph\n    commit\n```"

  function ReleaseCommit(tag: string, msg: string): string {
    CommitPrefix + "v" + tag + " " + ShortMsg(msg, ReleaseMsgLength) + "\" tag: \"" + tag + "\""
  }

  /** The five lines for every tag after the first: branch off, check out,
      commit, return to `main`, merge back. */
  function ReleaseBlock(tag: string, msg: string): (r: seq<string>)
    ensures |r| == 5
  {
    [ BranchLine("release-" + tag), Indent + "checkout release-" + tag, ReleaseCommit(tag, msg),
      Indent + "checkout main", MergeLine("release-" + tag) ]
  }

  function Blocks(tags: seq<string>, msgOf: string -> string): seq<string> {
    if tags == [] then [] else ReleaseBlock(tags[0], msgOf(tags[0])) + Blocks(tags[1..], msgOf)
  }

  /** The lines between the header and the fence: a plain commit for the
      first tag, a block for each later one. */
  function ReleaseBody(tags: seq<string>, msgOf: string -> string): seq<string>
    requires tags != []
  {
    [ReleaseCommit(tags[0], msgOf(tags[0]))] + Blocks(tags[1..], msgOf)
  }

  /** `generate_release_graph(main_branch, max_releases)`, given the output of
      `git tag --merged <main> --sort=-creatordate` and, as `msgOf`, the
      subject line `git log -1 --pretty=format:%s <tag>` prints per tag. */
  function ReleaseGraph(tagOutput: string, maxReleases: int, msgOf: string -> string): string {
    var tags := Take(SplitLines(tagOutput), maxReleases);
    if tags == [] then NoReleases
    else Join(Header[..2] + ReleaseBody(tags, msgOf) + [Fence], "\n")
  }

  lemma ChunkFirst<T>(b: seq<T>, rest: seq<T>)
    requires |b| == 5
    ensures (b + rest)[0..5] == b
  {
  }

  lemma ChunkShift<T>(b: seq<T>, rest: seq<T>, i: nat)
    requires |b| == 5 && 1 <= i && 5 * i <= |rest|
    ensures (b + rest)[5 * i..5 * i + 5] == rest[5 * (i - 1)..5 * (i - 1) + 5]
  {
  }

  /** Block `i` occupies lines `5 i` to `5 i + 4`. */
  lemma {:induction false} BlocksSpec(tags: seq<string>, msgOf: string -> string)
    ensures |Blocks(tags, msgOf)| == 5 * |tags|
    ensures forall i :: 0 <= i < |tags| ==>
      Blocks(tags, msgOf)[5 * i..5 * i + 5] == ReleaseBlock(tags[i], msgOf(tags[i]))
    decreases |tags|
  {
    if tags != [] {
      var b := ReleaseBlock(tags[0], msgOf(tags[0]));
      var rest := Blocks(tags[1..], msgOf);
      BlocksSpec(tags[1..], msgOf);
      forall i | 0 <= i < |tags|
        ensures (b + rest)[5 * i..5 * i + 5] == ReleaseBlock(tags[i], msgOf(tags[i]))
      {
        if i == 0 {
          ChunkFirst(b, rest);
        } else {
          ChunkShift(b, rest, i);
          assert tags[1..][i - 1] == tags[i];
        }
      }
    }
  }

  lemma PickLines<T>(first: T, rest: seq<T>, blk: seq<T>, i: nat)
    requires 1 <= i && 5 * i <= |rest| && |blk| == 5
    requires rest[5 * (i - 1)..5 * (i - 1) + 5] == blk
    ensures ([first] + rest)[5 * i - 4] == blk[0]
    ensures ([first] + rest)[5 * i - 2] == blk[2]
    ensures ([first] + rest)[5 * i] == blk[4]
  {
    assert rest[5 * i - 5] == blk[0];
    assert rest[5 * i - 3] == blk[2];
    assert rest[5 * i - 1] == blk[4];
  }

  /** The release graph's body, for tags listed newest first: the first tag
      as a commit on the main line, and each later tag `i` as a release
      branch announced on line `5 i - 4` of the body, whose commit is line
      `5 i - 2` and which is merged back on line `5 i`. */
  lemma ReleaseBodySpec(tags: seq<string>, msgOf: string -> string)
    requires tags != []
    ensures var body := ReleaseBody(tags, msgOf);
      && |body| == 5 * |tags| - 4
      && body[0] == ReleaseCommit(tags[0], msgOf(tags[0]))
      && forall i :: 1 <= i < |tags| ==>
        && body[5 * i - 4] == BranchLine("release-" + tags[i])
        && body[5 * i - 2] == ReleaseCommit(tags[i], msgOf(tags[i]))
        && body[5 * i] == MergeLine("release-" + tags[i])
  {
    var first := ReleaseCommit(tags[0], msgOf(tags[0]));
    var rest := Blocks(tags[1..], msgOf);
    BlocksSpec(tags[1..], msgOf);
    forall i | 1 <= i < |tags|
      ensures && ([first] + rest)[5 * i - 4] == BranchLine("release-" + tags[i])
              && ([first] + rest)[5 * i - 2] == ReleaseCommit(tags[i], msgOf(tags[i]))
              && ([first] + rest)[5 * i] == MergeLine("release-" + tags[i])
    {
      assert tags[1..][i - 1] == tags[i];
      PickLines(first, rest, ReleaseBlock(tags[i], msgOf(tags[i])), i);
    }
  }

  /** Which tags are drawn: the first `maxReleases` lines of the tag listing,
      and the fixed placeholder exactly when there are none. */
  lemma {:induction false} ReleaseGraphSpec(tagOutput: string, maxReleases: int, msgOf: string -> string)
    ensures var tags := Take(SplitLines(tagOutput), maxReleases);
      && (ReleaseGraph(tagOutput, maxReleases, msgOf) == NoReleases <==> tags == [])
      && (tags != [] ==>
            ReleaseGraph(tagOutput, maxReleases, msgOf) == Join(Header[..2] + ReleaseBody(tags, msgOf) + [Fence], "\n"))
  {
    var tags := Take(SplitLines(tagOutput), maxReleases);
    if tags != [] {
      DrawnIsNotPlaceholder(tags, msgOf);
    }
  }

  /** A graph with at least one release is longer than the placeholder. */
  lemma DrawnIsNotPlaceholder(tags: seq<string>, msgOf: string -> string)
    requires tags != []
    ensures Join(Header[..2] + ReleaseBody(tags, msgOf) + [Fence], "\n") != NoReleases
  {
    var body := ReleaseBody(tags, msgOf);
    assert Header[..2] + body + [Fence] == [Header[0], Header[1]] + (body + [Fence]);
    assert (body + [Fence])[0] == ReleaseCommit(tags[0], msgOf(tags[0]));
    JoinLonger(Header[0], Header[1], body + [Fence], "\n");
  }

  // ---------------------------------------------------------------------
  // write_graph_to_readme

  /** The text that opens a level-two section. */
  const SectionStart := "\n## "

  /** The line, newline before and after included, that a section starts with. */
  function Marker(heading: string): string {
    SectionStart + heading + "\n"
  }

  /** The written section: marker, a blank line, the content, a newline. */
  function SectionText(heading: string, content: string): string {
    Marker(heading) + "\n" + content + "\n"
  }

  /** The new file text `write_graph_to_readme` writes: without the section
      the content is appended after the right-stripped text; with it, the
      section from its marker up to the next level-two heading (or the end)
      is replaced. */
  function Splice(text: string, heading: string, content: string): string {
    match FindFrom(text, Marker(heading), 0)
    case None => RStrip(text) + SectionText(heading, content)
    case Some(start) =>
      match FindFrom(text, SectionStart, start + 1)
      case None => text[..start] + SectionText(heading, content)
      case Some(next) => text[..start] + SectionText(heading, content) + text[next..]
  }

  /** A missing README reads as the empty text. */
  function WriteReadme(existing: Option<string>, heading: string, content: string): string {
    Splice(if existing.Some? then existing.value else "", heading, content)
  }

  /** Without the marker, the section goes after the text with its trailing
      whitespace removed. */
  lemma SpliceAppend(text: string, heading: string, content: string)
    requires !Contains(text, Marker(heading))
    ensures Splice(text, heading, content) == RStrip(text) + SectionText(heading, content)
  {
    forall j: nat ensures !OccursAt(text, Marker(heading), j) {
    }
    FindNone(text, Marker(heading), 0);
  }

  /** With the marker, everything before its first occurrence and everything
      from the first later level-two heading on is kept, and the part in
      between becomes the marker, a blank line and the content. */
  lemma SpliceReplace(text: string, heading: string, content: string, start: nat, next: Option<nat>)
    requires OccursAt(text, Marker(heading), start)
    requires forall j :: 0 <= j < start ==> !OccursAt(text, Marker(heading), j)
    requires next.Some? ==>
      && start + 1 <= next.value && OccursAt(text, SectionStart, next.value)
      && forall j :: start + 1 <= j < next.value ==> !OccursAt(text, SectionStart, j)
    requires next.None? ==> forall j :: start + 1 <= j ==> !OccursAt(text, SectionStart, j)
    ensures Splice(text, heading, content)
      == text[..start] + SectionText(heading, content) + (if next.Some? then text[next.value..] else "")
  {
    FindFirst(text, Marker(heading), 0, start);
    if next.Some? {
      FindFirst(text, SectionStart, start + 1, next.value);
    } else {
      FindNone(text, SectionStart, start + 1);
    }
  }

  /** The heading and the content open no level-two section of their own
      inside the written section. */
  predicate SectionClean(heading: string, content: string) {
    !Contains(SectionText(heading, content)[1..], SectionStart)
  }

  /** The marker of a replaced section is found where it was. */
  lemma {:induction false} SplicedMarker(text: string, marker: string, start: nat, piece: string)
    requires OccursAt(text, marker, start)
    requires forall j :: 0 <= j < start ==> !OccursAt(text, marker, j)
    requires StartsWith(piece, marker)
    ensures FindFrom(text[..start] + piece, marker, 0) == Some(start)
  {
    var r := text[..start] + piece;
    var n := start + |marker|;
    assert r[..n] == text[..n] by {
      assert r[..n] == text[..start] + piece[..|marker|];
      assert text[..n] == text[..start] + text[start..n];
    }
    forall j | 0 <= j < start
      ensures !OccursAt(r, marker, j)
    {
      OccursInCommonPrefix(r, text, marker, n, j);
    }
    assert r[start..n] == marker;
    FindFirst(r, marker, 0, start);
  }

  lemma SectionStartLed()
    ensures NewlineLed(SectionStart)
  {
  }

  /** The spliced text of a section found at `start`, followed by the kept
      rest. */
  lemma {:induction false} SpliceFound(text: string, heading: string, content: string, start: nat)
    requires FindFrom(text, Marker(heading), 0) == Some(start)
    ensures var nx := FindFrom(text, SectionStart, start + 1);
      Splice(text, heading, content)
        == text[..start] + SectionText(heading, content) + (if nx.Some? then text[nx.value..] else "")
  {
  }

  /** Writing the same section twice gives the same text as writing it once,
      when the new section text opens no other section, and either the
      section already existed or the file does not end, after its trailing
      whitespace, in the section's own heading line (a file ending in
      `\n## <heading>` without a final newline gets the section appended
      after that line, and the next write then finds the earlier heading;
      see SpliceTwiceGrows). */
  lemma SpliceIdempotent(text: string, heading: string, content: string)
    requires SectionClean(heading, content)
    requires Contains(text, Marker(heading))
      || ((forall k :: 0 <= k < |heading| ==> heading[k] != '\n') && !EndsWith(RStrip(text), SectionStart + heading))
    ensures Splice(Splice(text, heading, content), heading, content) == Splice(text, heading, content)
  {
    if Contains(text, Marker(heading)) {
      SpliceIdempotentFound(text, heading, content);
    } else {
      SpliceIdempotentFresh(text, heading, content);
    }
  }

  lemma SpliceIdempotentFound(text: string, heading: string, content: string)
    requires Contains(text, Marker(heading))
    requires SectionClean(heading, content)
    ensures Splice(Splice(text, heading, content), heading, content) == Splice(text, heading, content)
  {
    var m := Marker(heading);
    var start := FindFrom(text, m, 0).value;
    var nx := FindFrom(text, SectionStart, start + 1);
    var rest := if nx.Some? then text[nx.value..] else "";
    SpliceFound(text, heading, content, start);
    if nx.Some? {
      assert rest[..4] == text[nx.value..nx.value + 4];
    }
    SpliceOfSpliced(text, heading, content, start, rest);
  }

  lemma SpliceIdempotentFresh(text: string, heading: string, content: string)
    requires !Contains(text, Marker(heading))
    requires SectionClean(heading, content)
    requires forall k :: 0 <= k < |heading| ==> heading[k] != '\n'
    requires !EndsWith(RStrip(text), SectionStart + heading)
    ensures Splice(Splice(text, heading, content), heading, content) == Splice(text, heading, content)
  {
    var rs := RStrip(text);
    var r := rs + SectionText(heading, content);
    SpliceAppend(text, heading, content);
    AppendedMarker(text, heading, content);
    SpliceOfSpliced(r, heading, content, |rs|, []);
    assert r[..|rs|] + SectionText(heading, content) + [] == r;
  }

  /** After an append, the first marker in the file is the appended one. */
  lemma AppendedMarker(text: string, heading: string, content: string)
    requires !Contains(text, Marker(heading))
    requires forall k :: 0 <= k < |heading| ==> heading[k] != '\n'
    requires !EndsWith(RStrip(text), SectionStart + heading)
    ensures FindFrom(RStrip(text) + SectionText(heading, content), Marker(heading), 0) == Some(|RStrip(text)|)
  {
    var rs, m := RStrip(text), Marker(heading);
    var r := rs + SectionText(heading, content);
    var q := |rs|;
    assert r[q..q + |m|] == m;
    forall j | 0 <= j < q
      ensures !OccursAt(r, m, j)
    {
      if j + |m| <= q {
        assert r[..q] == text[..q];
        OccursInCommonPrefix(r, text, m, q, j);
      } else {
        var k := q - j;
        assert r[q] == '\n';
        if k < |m| - 1 {
          assert m[k] == (SectionStart + heading)[k];
          if k >= 4 {
            assert m[k] == heading[k - 4];
          }
          assert r[j..j + |m|][k] == r[q];
        } else {
          var p := SectionStart + heading;
          assert m[..k] == p;
          assert rs[q - |p|..] != p;
          assert r[j..j + |m|][..k] == rs[q - |p|..];
        }
      }
    }
    FindFirst(r, m, 0, q);
  }

  /** A file ending in the section's heading line, without a final newline,
      is not recognised as holding the section: the section is appended
      after that line, and writing again replaces from the first heading
      on, which leaves two copies of the section. */
  lemma SpliceTwiceGrows()
    ensures Splice("x\n## h", "h", "c") == "x\n## h" + SectionText("h", "c")
    ensures Splice(Splice("x\n## h", "h", "c"), "h", "c") == "x" + SectionText("h", "c") + SectionText("h", "c")
  {
    SpliceOnceAppends();
    SpliceAgainReplaces();
  }

  lemma SpliceOnceAppends()
    ensures Splice("x\n## h", "h", "c") == "x\n## h" + SectionText("h", "c")
  {
    var t := "x\n## h";
    assert t[0..6][0] == 'x' != Marker("h")[0];
    assert !Contains(t, Marker("h"));
    assert RStrip(t) == t;
    SpliceAppend(t, "h", "c");
  }

  lemma SpliceAgainReplaces()
    ensures Splice("x\n## h" + SectionText("h", "c"), "h", "c") == "x" + SectionText("h", "c") + SectionText("h", "c")
  {
    var s1 := "x\n## h" + SectionText("h", "c");
    SpliceAgainFinds();
    SpliceFound(s1, "h", "c", 1);
    assert s1[..1] == "x";
    assert s1[6..] == SectionText("h", "c");
  }

  lemma SpliceAgainFinds()
    ensures FindFrom("x\n## h" + SectionText("h", "c"), Marker("h"), 0) == Some(1)
    ensures FindFrom("x\n## h" + SectionText("h", "c"), SectionStart, 2) == Some(6)
  {
    var s1 := "x\n## h" + SectionText("h", "c");
    assert s1 == "x\n## h\n## h\n\nc\n";
    assert OccursAt(s1, Marker("h"), 1);
    assert s1[0..6][0] == 'x' != Marker("h")[0];
    FindFirst(s1, Marker("h"), 0, 1);
    assert OccursAt(s1, SectionStart, 6);
    forall j | 2 <= j < 6
      ensures !OccursAt(s1, SectionStart, j)
    {
      assert s1[j..j + 4][0] == s1[j] != '\n';
    }
    FindFirst(s1, SectionStart, 2, 6);
  }

  /** Splicing a text that already holds the written section, followed by
      nothing or by a level-two heading, changes nothing. */
  lemma {:induction false} SpliceOfSpliced(text: string, heading: string, content: string, start: nat, rest: string)
    requires FindFrom(text, Marker(heading), 0) == Some(start)
    requires SectionClean(heading, content)
    requires rest == [] || StartsWith(rest, SectionStart)
    ensures var r := text[..start] + SectionText(heading, content) + rest;
      Splice(r, heading, content) == r
  {
    var prefix, body := text[..start], SectionText(heading, content);
    var r := prefix + body + rest;
    SplicedMarkerAgain(text, heading, content, start, rest);
    SpliceFound(r, heading, content, start);
    Around(prefix, body, rest);
    SectionStartLed();
    if rest != [] {
      SplicedNext(prefix, body, rest, SectionStart);
    } else {
      SplicedLast(prefix, body, SectionStart);
      assert r == prefix + body;
    }
  }

  lemma {:induction false} SplicedMarkerAgain(text: string, heading: string, content: string, start: nat, rest: string)
    requires FindFrom(text, Marker(heading), 0) == Some(start)
    ensures FindFrom(text[..start] + SectionText(heading, content) + rest, Marker(heading), 0) == Some(start)
  {
    var m := Marker(heading);
    var piece := SectionText(heading, content) + rest;
    assert piece[..|m|] == m;
    SplicedMarker(text, m, start, piece);
    Assoc(text[..start], SectionText(heading, content), rest);
  }

  /** A heading on the file's first line has no newline before it, so it is
      not recognised: unless the section's marker occurs later, the section
      is appended after the right-stripped text, and the file then starts
      with the heading and holds its marker after the old text. */
  lemma SpliceFirstLineHeading(heading: string, rest: string, content: string)
    requires heading != [] && !IsSpace(heading[|heading| - 1])
    requires !Contains("## " + heading + "\n" + rest, Marker(heading))
    ensures var t := "## " + heading + "\n" + rest;
      Splice(t, heading, content) == RStrip(t) + SectionText(heading, content)
    ensures var t := "## " + heading + "\n" + rest;
      && StartsWith(Splice(t, heading, content), "## " + heading)
      && OccursAt(Splice(t, heading, content), Marker(heading), |RStrip(t)|)
  {
    var t := "## " + heading + "\n" + rest;
    var h := "## " + heading;
    SpliceAppend(t, heading, content);
    var rs := RStrip(t);
    assert t[|h| - 1] == heading[|heading| - 1];
    assert |rs| >= |h|;
    assert rs[..|h|] == t[..|h|] == h;
    var r := rs + SectionText(heading, content);
    assert r[..|h|] == rs[..|h|];
    assert r[|rs|..|rs| + |Marker(heading)|] == Marker(heading);
  }
}
