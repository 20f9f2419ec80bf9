/** The branch-aware changelog generator: the commits since the last tag
    are labelled with the first branch that contains them, grouped by branch,
    split into breaking changes, features and fixes, and appended to
    CHANGELOG.md as Markdown. Every `git` invocation is a call to the `git`
    parameter, which maps an argument list to its standard output, or to
    `None` when the command exits with an error. */
module ChangelogGenerator {
  import opened Wrappers
  import opened Strings
  import opened Seqs

  /** `git describe --tags --abbrev=0`: the latest tag, or "" when there is
      none. */
  function LastTag(git: seq<string> -> Option<string>): (r: string)
    ensures git(DescribeCommand).None? ==> r == ""
    ensures git(DescribeCommand).Some? ==> var out := git(DescribeCommand).value;
      exists i, j :: 0 <= i <= j <= |out| && r == out[i..j] && IsBlank(out[..i]) && IsBlank(out[j..])
    ensures r == [] || (!IsSpace(r[0]) && !IsSpace(r[|r| - 1]))
  {
    match git(DescribeCommand)
    case None => ""
    case Some(out) =>
      Stripped(out);
      Strip(out)
  }

  const DescribeCommand: seq<string> := ["git", "describe", "--tags", "--abbrev=0"]

  /** The log listing `<sha> <subject>` lines, restricted to the commits
      after `tag` when there is one. */
  function LogCommand(tag: string): seq<string> {
    ["git", "log", "--pretty=format:%H %s"] + (if tag != [] then [tag + "..HEAD"] else [])
  }

  function BranchCommand(sha: string): seq<string> {
    ["git", "branch", "--contains", sha]
  }

  /** `c.split(" ", 1)` unpacked into two names: the text before the first
      space and the text after it; a line without a space cannot be
      unpacked. */
  function SplitCommit(c: string): (r: Option<(string, string)>)
    ensures r.None? <==> ' ' !in c
    ensures r.Some? ==> ' ' !in r.value.0 && c == r.value.0 + " " + r.value.1
  {
    FindChar(c, ' ');
    match FindFrom(c, " ", 0)
    case None => None
    case Some(i) =>
      assert c == c[..i] + " " + c[i + 1..];
      Some((c[..i], c[i + 1..]))
  }

  predicate IsMarker(c: char) {
    c == '*' || c == ' '
  }

  /** The branch reported for a commit: the first line of
      `git branch --contains`, without the current-branch marker and
      surrounding blanks, or "main" when no branch contains it. */
  function BranchOf(out: string): (r: string)
    ensures SplitLines(out) == [] ==> r == "main"
    ensures SplitLines(out) != [] ==> |r| <= |SplitLines(out)[0]|
  {
    var lines := SplitLines(out);
    if lines == [] then "main" else Unmark(lines[0])
  }

  /** `b.strip("* ").strip()` for one listed branch. */
  function Unmark(line: string): string {
    Strip(StripBy(line, IsMarker))
  }

  /** Why collecting commits stopped early. */
  datatype Stop = GitError | Unpack(line: string)

  /** Labels each log line with its branch, front to back. */
  function Label(lines: seq<string>, git: seq<string> -> Option<string>): (r: Result<seq<(string, string)>, Stop>)
    ensures r.Success? ==> |r.value| == |lines|
  {
    if lines == [] then Success([])
    else
      var p :- LabelLine(lines[0], git);
      var rest :- Label(lines[1..], git);
      Success([p] + rest)
  }

  /** One pass of the loop body: unpack the line, ask for the sha's branch. */
  function LabelLine(c: string, git: seq<string> -> Option<string>): Result<(string, string), Stop> {
    match SplitCommit(c)
    case None => Failure(Unpack(c))
    case Some((sha, msg)) =>
      match git(BranchCommand(sha))
      case None => Failure(GitError)
      case Some(out) => Success((BranchOf(out), msg))
  }

  /** Line `c` unpacks into a sha and a subject, the branch query for the
      sha answers, and `p` pairs the branch named in the answer with the
      subject. */
  predicate Labelled(c: string, git: seq<string> -> Option<string>, p: (string, string)) {
    && SplitCommit(c).Some?
    && git(BranchCommand(SplitCommit(c).value.0)).Some?
    && p == (BranchOf(git(BranchCommand(SplitCommit(c).value.0)).value), SplitCommit(c).value.1)
  }

  /** Line `c` is one at which labelling stops with `s`. */
  predicate Stuck(c: string, git: seq<string> -> Option<string>, s: Stop) {
    match SplitCommit(c)
    case None => s == Unpack(c)
    case Some((sha, _)) => git(BranchCommand(sha)).None? && s == GitError
  }

  /** Line `c` unpacks and its branch query answers. */
  predicate Answered(c: string, git: seq<string> -> Option<string>) {
    !Stuck(c, git, Unpack(c)) && !Stuck(c, git, GitError)
  }

  /** Every line before line `i` unpacks and has its branch query answered. */
  predicate AnsweredUpTo(lines: seq<string>, git: seq<string> -> Option<string>, i: nat)
    requires i <= |lines|
  {
    forall k :: 0 <= k < i ==> Answered(lines[k], git)
  }

  /** `get_commits_with_branches`: `(branch, subject)` pairs in log order.
      A failing `git log` yields no commits at all; so does the first
      failing branch query, even after earlier commits were labelled; and
      the first log line that cannot be unpacked is an uncaught error. */
  function CommitsWithBranches(tag: string, git: seq<string> -> Option<string>): (r: Result<seq<(string, string)>, string>)
    ensures git(LogCommand(tag)).None? ==> r == Success([])
    ensures git(LogCommand(tag)).Some? ==> var lines := SplitLines(git(LogCommand(tag)).value);
      forall i :: 0 <= i < |lines| && AnsweredUpTo(lines, git, i) ==>
        (Stuck(lines[i], git, Unpack(lines[i])) ==> r == Failure(lines[i]))
        && (Stuck(lines[i], git, GitError) ==> r == Success([]))
    ensures git(LogCommand(tag)).Some? ==> var lines := SplitLines(git(LogCommand(tag)).value);
      AnsweredUpTo(lines, git, |lines|) ==>
        r.Success? && |r.value| == |lines| && forall i :: 0 <= i < |lines| ==> Labelled(lines[i], git, r.value[i])
  {
    match git(LogCommand(tag))
    case None => Success([])
    case Some(out) =>
      var lines := SplitLines(out);
      LabelOutcome(lines, git);
      match Label(lines, git)
      case Success(ps) => Success(ps)
      case Failure(GitError) => Success([])
      case Failure(Unpack(line)) => Failure(line)
  }

  datatype Kind = Breaking | Feature | Fix

  predicate IsBreaking(c: string) {
    Contains(c, "BREAKING CHANGE") || Contains(c, "feat!:")
  }

  /** Anything neither breaking nor a feature is listed with the fixes. */
  function KindOf(c: string): Kind {
    if IsBreaking(c) then Breaking
    else if StartsWith(c, "feat:") then Feature
    else Fix
  }

  function OfKind(k: Kind): string -> bool {
    c => KindOf(c) == k
  }

  datatype Categories = Categories(features: seq<string>, fixes: seq<string>, breaking: seq<string>)

  function Categorize(commits: seq<string>): Categories {
    if commits == [] then Categories([], [], [])
    else
      var c, last := Categorize(commits[..|commits| - 1]), commits[|commits| - 1];
      match KindOf(last)
      case Breaking => c.(breaking := c.breaking + [last])
      case Feature => c.(features := c.features + [last])
      case Fix => c.(fixes := c.fixes + [last])
  }

  const BreakingHeading: string := "#### \U{26A0}\U{FE0F} Breaking Changes"
  const FeaturesHeading: string := "#### \U{2728} Features"
  const FixesHeading: string := "#### \U{1F41B} Fixes"

  function Bullets(items: seq<string>): (r: seq<string>)
    ensures |r| == |items|
  {
    seq(|items|, i requires 0 <= i < |items| => "- " + items[i])
  }

  /** A titled list, omitted when there is nothing to list. */
  function Section(heading: string, items: seq<string>): seq<string> {
    if items == [] then [] else [heading] + Bullets(items)
  }

  /** The Markdown lines for one branch, closed by a blank line. */
  function BranchBlock(branch: string, messages: seq<string>): seq<string> {
    var c := Categorize(messages);
    Block(branch, c.breaking, c.features, c.fixes)
  }

  function Block(branch: string, breaking: seq<string>, features: seq<string>, fixes: seq<string>): seq<string> {
    ["### " + branch] + Section(BreakingHeading, breaking) + Section(FeaturesHeading, features)
      + Section(FixesHeading, fixes) + [""]
  }

  function Blocks(gs: seq<(string, seq<string>)>): seq<string> {
    if gs == [] then [] else BranchBlock(gs[0].0, gs[0].1) + Blocks(gs[1..])
  }

  function Title(version: string): string {
    "# Changelog for version " + version + "\n"
  }

  function ChangelogLines(version: string, pairs: seq<(string, string)>): seq<string> {
    [Title(version)] + Blocks(Group(pairs))
  }

  /** The new CHANGELOG.md after `generate_changelog`: the Markdown is
      appended to the existing text, and nothing is written when no commit
      was found. */
  function GenerateChangelog(version: string, existing: string, pairs: seq<(string, string)>): (r: Option<string>)
    ensures r.None? <==> pairs == []
    ensures r.Some? ==> StartsWith(r.value, existing + Title(version) + "\n### ")
    ensures r.Some? ==> r.value[|r.value| - 1] == '\n'
  {
    if pairs == [] then None
    else
      var lines := ChangelogLines(version, pairs);
      ChangelogShape(version, pairs);
      Some(existing + Join(lines, "\n") + "\n")
  }

  // ---------------------------------------------------------------------
  // Lemmas

  /** A `<sha> <subject>` line unpacks into its sha and subject. */
  lemma SplitCommitRoundTrip(sha: string, msg: string)
    requires ' ' !in sha
    ensures SplitCommit(sha + " " + msg) == Some((sha, msg))
  {
    var c := sha + " " + msg;
    assert c[..|sha|] == sha;
    FindCharAt(c, ' ', |sha|);
    assert c[|sha| + 1..] == msg;
  }

  /** `strip()` keeps a slice of the text with only whitespace around it. */
  lemma Stripped(out: string)
    ensures exists i, j :: 0 <= i <= j <= |out| && Strip(out) == out[i..j] && IsBlank(out[..i]) && IsBlank(out[j..])
  {
    StripIsStripOf(out, IsSpace);
    var i, j :| 0 <= i <= j <= |out| && Strip(out) == out[i..j]
      && (forall k :: 0 <= k < i ==> IsSpace(out[k]))
      && (forall k :: j <= k < |out| ==> IsSpace(out[k]));
    assert IsBlank(out[..i]) && IsBlank(out[j..]);
  }

  /** The reported branch is the first line with `*` and space markers
      stripped from either end, and then whitespace: the two `strip` calls
      of the source, each described by what it keeps. */
  lemma {:induction false} BranchOfSpec(out: string)
    requires SplitLines(out) != []
    ensures exists t :: IsStripOf(t, SplitLines(out)[0], IsMarker) && IsStripOf(BranchOf(out), t, IsSpace)
  {
    var t := StripBy(SplitLines(out)[0], IsMarker);
    StripIsStripOf(SplitLines(out)[0], IsMarker);
    StripIsStripOf(t, IsSpace);
  }

  /** A branch listed after a run of `*` and space markers is reported by
      its name, whether it is the current branch (`* name`) or another one
      (`  name`), and whether more branches follow or not. */
  lemma BranchOfMarked(marks: string, name: string, rest: string)
    requires forall k :: 0 <= k < |marks| ==> IsMarker(marks[k])
    requires name != [] && !IsMarker(name[0]) && !IsMarker(name[|name| - 1])
    requires !IsSpace(name[0]) && !IsSpace(name[|name| - 1])
    requires forall k :: 0 <= k < |name| ==> !IsLineBreak(name[k])
    ensures BranchOf(marks + name + "\n" + rest) == name
    ensures BranchOf(marks + name) == name
  {
    var line := marks + name;
    forall k | 0 <= k < |line|
      ensures !IsLineBreak(line[k])
    {
      if k >= |marks| {
        assert line[k] == name[k - |marks|];
      }
    }
    SplitLinesFirst(line, rest);
    OneLine(line);
    StripAround(marks, name, [], IsMarker);
    assert line + [] == line;
    StripAround([], name, [], IsSpace);
    assert [] + name + [] == name;
  }

  /** A successful labelling pairs each line, in order, with the branch its
      sha is on and its subject. */
  lemma {:induction false} LabelPairs(lines: seq<string>, git: seq<string> -> Option<string>)
    requires Label(lines, git).Success?
    ensures forall i :: 0 <= i < |lines| ==> Labelled(lines[i], git, Label(lines, git).value[i])
  {
    LabelLines(lines, git);
    forall i | 0 <= i < |lines|
      ensures Labelled(lines[i], git, Label(lines, git).value[i])
    {
      LabelLineSpec(lines[i], git);
    }
  }

  /** A failed labelling stopped at some line, with that line's reason. */
  lemma {:induction false} LabelStops(lines: seq<string>, git: seq<string> -> Option<string>)
    requires Label(lines, git).Failure?
    ensures exists i :: 0 <= i < |lines| && Stuck(lines[i], git, Label(lines, git).error)
  {
    var e := Label(lines, git).error;
    if LabelLine(lines[0], git).Success? {
      var tail := lines[1..];
      LabelStops(tail, git);
      var i :| 0 <= i < |tail| && Stuck(tail[i], git, e);
      assert lines[i + 1] == tail[i];
    } else {
      LabelLineSpec(lines[0], git);
    }
  }

  /** The loop body, read back: it yields the labelled pair, or stops with
      the line's reason. */
  lemma LabelLineSpec(c: string, git: seq<string> -> Option<string>)
    ensures LabelLine(c, git).Success? ==> Labelled(c, git, LabelLine(c, git).value)
    ensures LabelLine(c, git).Failure? ==> Stuck(c, git, LabelLine(c, git).error)
    ensures Stuck(c, git, Unpack(c)) || Stuck(c, git, GitError) ==> LabelLine(c, git).Failure?
  {
  }

  /** A successful labelling is the loop body's result for each line. */
  lemma {:induction false} LabelLines(lines: seq<string>, git: seq<string> -> Option<string>)
    requires Label(lines, git).Success?
    ensures forall i :: 0 <= i < |lines| ==> LabelLine(lines[i], git) == Success(Label(lines, git).value[i])
  {
    if lines != [] {
      var tail := lines[1..];
      var rt := Label(tail, git).value;
      var r := Label(lines, git).value;
      assert r == [LabelLine(lines[0], git).value] + rt;
      LabelLines(tail, git);
      assert lines == [lines[0]] + tail;
      PairwiseCons(lines[0], tail, r[0], rt, (c, q) => LabelLine(c, git) == Success(q));
    }
  }

  /** Labelling stops at the first line that cannot be unpacked or looked
      up, with that line's reason. */
  lemma {:induction false} LabelFirstStuck(lines: seq<string>, git: seq<string> -> Option<string>, i: nat, s: Stop)
    requires i < |lines| && AnsweredUpTo(lines, git, i) && Stuck(lines[i], git, s)
    ensures Label(lines, git) == Failure(s)
  {
    LabelLineSpec(lines[0], git);
    if i > 0 {
      assert Answered(lines[0], git);
      assert LabelLine(lines[0], git).Success?;
      var tail := lines[1..];
      assert AnsweredUpTo(tail, git, i - 1) by {
        forall k | 0 <= k < i - 1
          ensures Answered(tail[k], git)
        {
          assert tail[k] == lines[k + 1];
        }
      }
      assert tail[i - 1] == lines[i];
      LabelFirstStuck(tail, git, i - 1, s);
    }
  }

  /** How labelling ends: at the first line that cannot be unpacked or
      looked up, or, when there is none, with every line labelled. */
  lemma {:induction false} LabelOutcome(lines: seq<string>, git: seq<string> -> Option<string>)
    ensures forall i :: 0 <= i < |lines| && AnsweredUpTo(lines, git, i) ==>
      (Stuck(lines[i], git, Unpack(lines[i])) ==> Label(lines, git) == Failure(Unpack(lines[i])))
      && (Stuck(lines[i], git, GitError) ==> Label(lines, git) == Failure(GitError))
    ensures AnsweredUpTo(lines, git, |lines|) ==>
      Label(lines, git).Success? && forall i :: 0 <= i < |lines| ==> Labelled(lines[i], git, Label(lines, git).value[i])
  {
    LabelFirstAll(lines, git);
    LabelSucceeds(lines, git);
    if Label(lines, git).Success? {
      LabelPairs(lines, git);
    }
  }

  lemma {:induction false} LabelFirstAll(lines: seq<string>, git: seq<string> -> Option<string>)
    ensures forall i: nat, s :: i < |lines| && AnsweredUpTo(lines, git, i) && Stuck(lines[i], git, s) ==>
      Label(lines, git) == Failure(s)
  {
    forall i: nat, s | i < |lines| && AnsweredUpTo(lines, git, i) && Stuck(lines[i], git, s)
      ensures Label(lines, git) == Failure(s)
    {
      LabelFirstStuck(lines, git, i, s);
    }
  }

  /** When labelling succeeds, every line was unpacked and looked up; when
      it stops, some line could not be unpacked or looked up. */
  lemma {:induction false} LabelSucceeds(lines: seq<string>, git: seq<string> -> Option<string>)
    ensures Label(lines, git).Success? <==> AnsweredUpTo(lines, git, |lines|)
  {
    if !Label(lines, git).Success? {
      LabelStops(lines, git);
      var s := Label(lines, git).error;
      var i :| 0 <= i < |lines| && Stuck(lines[i], git, s);
    } else {
      LabelPairs(lines, git);
    }
  }

  /** Each category keeps exactly the commits of its kind, in input order. */
  lemma {:induction false} CategorizeSpec(commits: seq<string>)
    ensures Categorize(commits).breaking == Filter(commits, OfKind(Breaking))
    ensures Categorize(commits).features == Filter(commits, OfKind(Feature))
    ensures Categorize(commits).fixes == Filter(commits, OfKind(Fix))
  {
    if commits != [] {
      CategorizeSpec(commits[..|commits| - 1]);
    }
  }

  /** Together the categories hold every commit exactly once. */
  lemma {:induction false} CategorizePartition(commits: seq<string>)
    ensures multiset(Categorize(commits).breaking) + multiset(Categorize(commits).features)
      + multiset(Categorize(commits).fixes) == multiset(commits)
  {
    CategorizeSpec(commits);
    KindsPartition(commits);
  }

  lemma {:induction false} KindsPartition(s: seq<string>)
    ensures multiset(Filter(s, OfKind(Breaking))) + multiset(Filter(s, OfKind(Feature)))
      + multiset(Filter(s, OfKind(Fix))) == multiset(s)
  {
    FilterPartition3(s, OfKind(Breaking), OfKind(Feature), OfKind(Fix));
  }

  lemma {:induction false} CategorizeBreaking(commits: seq<string>)
    ensures forall c :: c in Categorize(commits).breaking <==> c in commits && IsBreaking(c)
    ensures forall c :: c in Categorize(commits).features <==>
      c in commits && !IsBreaking(c) && StartsWith(c, "feat:")
    ensures forall c :: c in Categorize(commits).fixes <==>
      c in commits && !IsBreaking(c) && !StartsWith(c, "feat:")
  {
    CategorizeSpec(commits);
    FilterMembers(commits, OfKind(Breaking));
    FilterMembers(commits, OfKind(Feature));
    FilterMembers(commits, OfKind(Fix));
  }

  /** The subjects listed under lines starting with `prefix`, in order. */
  function After(lines: seq<string>, prefix: string): seq<string> {
    if lines == [] then []
    else
      var last := lines[|lines| - 1];
      After(lines[..|lines| - 1], prefix) + (if StartsWith(last, prefix) then [last[|prefix|..]] else [])
  }

  lemma {:induction false} AfterAppend(a: seq<string>, b: seq<string>, prefix: string)
    ensures After(a + b, prefix) == After(a, prefix) + After(b, prefix)
    decreases |b|
  {
    if b == [] {
      assert a + b == a;
    } else {
      var b' := b[..|b| - 1];
      assert (a + b)[..|a + b| - 1] == a + b';
      AfterAppend(a, b', prefix);
    }
  }

  lemma {:induction false} After5(a: seq<string>, b: seq<string>, c: seq<string>, d: seq<string>, e: seq<string>, prefix: string)
    ensures After(a + b + c + d + e, prefix) ==
      After(a, prefix) + After(b, prefix) + After(c, prefix) + After(d, prefix) + After(e, prefix)
  {
    AfterAppend(a + b + c + d, e, prefix);
    AfterAppend(a + b + c, d, prefix);
    AfterAppend(a + b, c, prefix);
    AfterAppend(a, b, prefix);
  }

  lemma {:induction false} AfterBullets(items: seq<string>)
    ensures After(Bullets(items), "- ") == items
    ensures After(Bullets(items), "### ") == []
  {
    if items != [] {
      var n := |items|;
      AfterBullets(items[..n - 1]);
      var b := Bullets(items);
      assert b[..n - 1] == Bullets(items[..n - 1]);
      assert b[n - 1] == "- " + items[n - 1];
      assert b[n - 1][..2] == "- " && b[n - 1][2..] == items[n - 1];
      assert b[n - 1][0] == '-';
      assert items == items[..n - 1] + [items[n - 1]];
    }
  }

  /** A line that is neither a bullet nor a branch heading. */
  lemma AfterOther(line: string)
    requires |line| >= 4 && line[0] == '#' && line[3] == '#'
    ensures After([line], "- ") == [] && After([line], "### ") == []
  {
    assert [line][..0] == [];
  }

  lemma AfterSection(heading: string, items: seq<string>)
    requires |heading| >= 5 && heading[..5] == "#### "
    ensures After(Section(heading, items), "- ") == items
    ensures After(Section(heading, items), "### ") == []
  {
    AfterBullets(items);
    if items != [] {
      assert heading[0] == heading[..5][0] && heading[3] == heading[..5][3];
      AfterOther(heading);
      AfterAppend([heading], Bullets(items), "- ");
      AfterAppend([heading], Bullets(items), "### ");
    }
  }

  lemma AfterHeading(branch: string)
    ensures After(["### " + branch], "### ") == [branch]
    ensures After(["### " + branch], "- ") == []
    ensures After([""], "### ") == [] && After([""], "- ") == []
  {
    var h := "### " + branch;
    var none: seq<string> := [];
    assert [h][..0] == none && [""][..0] == none;
    assert h[..4] == "### " && h[4..] == branch;
    assert h[0] == '#';
  }

  /** A branch block is the branch heading, then the breaking changes,
      the features and the fixes, each under its own heading and in log
      order, a section left out when it has nothing to list, and then a
      blank line. */
  lemma {:induction false} BlockLayout(branch: string, messages: seq<string>)
    ensures BranchBlock(branch, messages) == ["### " + branch]
      + Section(BreakingHeading, Filter(messages, OfKind(Breaking)))
      + Section(FeaturesHeading, Filter(messages, OfKind(Feature)))
      + Section(FixesHeading, Filter(messages, OfKind(Fix))) + [""]
  {
    CategorizeSpec(messages);
  }

  /** A branch block has one branch heading, and its bullets are the
      branch's messages, regrouped by kind: breaking changes first, then
      features, then fixes, each group in log order. */
  lemma {:induction false} BlockContents(branch: string, messages: seq<string>)
    ensures After(BranchBlock(branch, messages), "### ") == [branch]
    ensures After(BranchBlock(branch, messages), "- ") ==
      Filter(messages, OfKind(Breaking)) + Filter(messages, OfKind(Feature)) + Filter(messages, OfKind(Fix))
    ensures multiset(After(BranchBlock(branch, messages), "- ")) == multiset(messages)
  {
    BlockHeadingList(branch, messages);
    BlockBullets(branch, messages);
    var c := Categorize(messages);
    BlockAfter(branch, c.breaking, c.features, c.fixes);
    CategorizeSpec(messages);
  }

  lemma BlockHeadingList(branch: string, messages: seq<string>)
    ensures After(BranchBlock(branch, messages), "### ") == [branch]
  {
    var c := Categorize(messages);
    BlockAfter(branch, c.breaking, c.features, c.fixes);
  }

  lemma BlockBullets(branch: string, messages: seq<string>)
    ensures multiset(After(BranchBlock(branch, messages), "- ")) == multiset(messages)
  {
    var c := Categorize(messages);
    BlockAfter(branch, c.breaking, c.features, c.fixes);
    CategorizePartition(messages);
  }

  lemma BlockAfter(branch: string, breaking: seq<string>, features: seq<string>, fixes: seq<string>)
    ensures After(Block(branch, breaking, features, fixes), "### ") == [branch]
    ensures After(Block(branch, breaking, features, fixes), "- ") == breaking + features + fixes
  {
    BlockAfterHeadings(branch, breaking, features, fixes);
    BlockAfterBullets(branch, breaking, features, fixes);
  }

  lemma BlockAfterHeadings(branch: string, breaking: seq<string>, features: seq<string>, fixes: seq<string>)
    ensures After(Block(branch, breaking, features, fixes), "### ") == [branch]
  {
    var s1, s2, s3 := Section(BreakingHeading, breaking), Section(FeaturesHeading, features),
      Section(FixesHeading, fixes);
    SectionHeadings();
    After5(["### " + branch], s1, s2, s3, [""], "### ");
    AfterHeading(branch);
    AfterSection(BreakingHeading, breaking);
    AfterSection(FeaturesHeading, features);
    AfterSection(FixesHeading, fixes);
  }

  lemma BlockAfterBullets(branch: string, breaking: seq<string>, features: seq<string>, fixes: seq<string>)
    ensures After(Block(branch, breaking, features, fixes), "- ") == breaking + features + fixes
  {
    var s1, s2, s3 := Section(BreakingHeading, breaking), Section(FeaturesHeading, features),
      Section(FixesHeading, fixes);
    SectionHeadings();
    AfterHeading(branch);
    AfterSection(BreakingHeading, breaking);
    AfterSection(FeaturesHeading, features);
    AfterSection(FixesHeading, fixes);
    After5(["### " + branch], s1, s2, s3, [""], "- ");
    Padded3([], breaking, features, fixes);
  }

  lemma SectionHeadings()
    ensures |BreakingHeading| >= 5 && BreakingHeading[..5] == "#### "
    ensures |FeaturesHeading| >= 5 && FeaturesHeading[..5] == "#### "
    ensures |FixesHeading| >= 5 && FixesHeading[..5] == "#### "
  {
  }

  lemma {:induction false} BlocksContents(gs: seq<(string, seq<string>)>)
    ensures After(Blocks(gs), "### ") == Keys(gs)
    ensures multiset(After(Blocks(gs), "- ")) == multiset(Flatten(gs))
  {
    BlocksHeadings(gs);
    BlocksBullets(gs);
  }

  lemma {:induction false} BlocksHeadings(gs: seq<(string, seq<string>)>)
    ensures After(Blocks(gs), "### ") == Keys(gs)
  {
    if gs != [] {
      BlocksHeadings(gs[1..]);
      BlockHeadingList(gs[0].0, gs[0].1);
      AfterAppend(BranchBlock(gs[0].0, gs[0].1), Blocks(gs[1..]), "### ");
      assert Keys(gs) == [gs[0].0] + Keys(gs[1..]);
    }
  }

  lemma {:induction false} BlocksBullets(gs: seq<(string, seq<string>)>)
    ensures multiset(After(Blocks(gs), "- ")) == multiset(Flatten(gs))
  {
    if gs != [] {
      BlocksBullets(gs[1..]);
      BlockBullets(gs[0].0, gs[0].1);
      AfterAppend(BranchBlock(gs[0].0, gs[0].1), Blocks(gs[1..]), "- ");
    }
  }

  /** The Markdown has one `### ` heading per branch, in order of first
      appearance in the log, and its bullets are exactly the subjects. */
  lemma ChangelogContents(version: string, pairs: seq<(string, string)>)
    ensures After(ChangelogLines(version, pairs), "### ") == Dedup(Keys(pairs))
    ensures multiset(After(ChangelogLines(version, pairs), "- ")) == multiset(Values(pairs))
  {
    ChangelogHeadings(version, pairs);
    ChangelogBullets(version, pairs);
  }

  lemma AfterTitle(version: string)
    ensures After([Title(version)], "### ") == [] && After([Title(version)], "- ") == []
  {
    var none: seq<string> := [];
    assert [Title(version)][..0] == none;
    assert Title(version)[0] == '#' && Title(version)[1] == ' ';
  }

  lemma ChangelogHeadings(version: string, pairs: seq<(string, string)>)
    ensures After(ChangelogLines(version, pairs), "### ") == Dedup(Keys(pairs))
  {
    var g := Group(pairs);
    BlocksContents(g);
    GroupSpec(pairs);
    AfterTitle(version);
    AfterAppend([Title(version)], Blocks(g), "### ");
  }

  lemma ChangelogBullets(version: string, pairs: seq<(string, string)>)
    ensures multiset(After(ChangelogLines(version, pairs), "- ")) == multiset(Values(pairs))
  {
    var g := Group(pairs);
    BlocksContents(g);
    GroupKeepsValues(pairs);
    AfterTitle(version);
    AfterAppend([Title(version)], Blocks(g), "- ");
  }

  /** A section heading appears in a branch block exactly when the branch
      has a message of that kind. */
  lemma BlockHeadings(branch: string, messages: seq<string>)
    ensures BreakingHeading in BranchBlock(branch, messages) <==> exists c :: c in messages && IsBreaking(c)
    ensures FeaturesHeading in BranchBlock(branch, messages) <==>
      (exists c :: c in messages && !IsBreaking(c) && StartsWith(c, "feat:"))
    ensures FixesHeading in BranchBlock(branch, messages) <==>
      (exists c :: c in messages && !IsBreaking(c) && !StartsWith(c, "feat:"))
  {
    var c := Categorize(messages);
    CategorizeBreaking(messages);
    BlockHas(branch, c.breaking, c.features, c.fixes);
    if c.breaking != [] {
      assert c.breaking[0] in c.breaking;
    }
    if c.features != [] {
      assert c.features[0] in c.features;
    }
    if c.fixes != [] {
      assert c.fixes[0] in c.fixes;
    }
  }

  lemma NotBullet(h: string, items: seq<string>)
    requires |h| > 0 && h[0] == '#'
    ensures h !in Bullets(items)
  {
    forall i | 0 <= i < |items|
      ensures Bullets(items)[i] != h
    {
      assert Bullets(items)[i][0] == '-';
    }
  }

  lemma SectionHas(h: string, heading: string, items: seq<string>)
    requires |h| > 0 && h[0] == '#'
    ensures h in Section(heading, items) <==> items != [] && h == heading
  {
    NotBullet(h, items);
  }

  /** Which section headings a block holds. */
  lemma BlockHas(branch: string, breaking: seq<string>, features: seq<string>, fixes: seq<string>)
    ensures BreakingHeading in Block(branch, breaking, features, fixes) <==> breaking != []
    ensures FeaturesHeading in Block(branch, breaking, features, fixes) <==> features != []
    ensures FixesHeading in Block(branch, breaking, features, fixes) <==> fixes != []
  {
    var s1, s2, s3 := Section(BreakingHeading, breaking), Section(FeaturesHeading, features),
      Section(FixesHeading, fixes);
    var block := Block(branch, breaking, features, fixes);
    assert block == ["### " + branch] + s1 + s2 + s3 + [""];
    assert BreakingHeading[5] != FeaturesHeading[5] && BreakingHeading[5] != FixesHeading[5]
      && FeaturesHeading[5] != FixesHeading[5];
    var hs := [BreakingHeading, FeaturesHeading, FixesHeading];
    forall k | 0 <= k < 3
      ensures hs[k] in block <==> hs[k] in s1 || hs[k] in s2 || hs[k] in s3
    {
      assert hs[k][3] == '#' && ("### " + branch)[3] == ' ';
    }
    SectionHas(BreakingHeading, BreakingHeading, breaking);
    SectionHas(BreakingHeading, FeaturesHeading, features);
    SectionHas(BreakingHeading, FixesHeading, fixes);
    SectionHas(FeaturesHeading, BreakingHeading, breaking);
    SectionHas(FeaturesHeading, FeaturesHeading, features);
    SectionHas(FeaturesHeading, FixesHeading, fixes);
    SectionHas(FixesHeading, BreakingHeading, breaking);
    SectionHas(FixesHeading, FeaturesHeading, features);
    SectionHas(FixesHeading, FixesHeading, fixes);
    assert hs[0] == BreakingHeading && hs[1] == FeaturesHeading && hs[2] == FixesHeading;
  }

  /** The Markdown starts with the title and a branch heading. */
  lemma ChangelogShape(version: string, pairs: seq<(string, string)>)
    requires pairs != []
    ensures |ChangelogLines(version, pairs)| >= 2
    ensures ChangelogLines(version, pairs)[0] == Title(version)
    ensures StartsWith(ChangelogLines(version, pairs)[1], "### ")
    ensures StartsWith(Join(ChangelogLines(version, pairs), "\n"), Title(version) + "\n### ")
  {
    var g := Group(pairs);
    GroupPresent(pairs);
    var lines := ChangelogLines(version, pairs);
    assert lines[1] == "### " + g[0].0;
    assert lines[1][..4] == "### ";
    JoinStarts(lines, "\n", "### ");
  }
}
