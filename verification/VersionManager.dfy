/** The pre-push version check: the branch's pre-release label is looked up
    by glob pattern, the version on the main branch is validated, and the
    current version is accepted, or a bumped version is suggested. */
module VersionManager {
  import opened Wrappers
  import opened Strings
  import opened Semver

  /** The fields of a parsed version that the suggestion uses: the three
      release numbers and the optional pre-release `(label, number)`. */
  datatype Version = Version(major: nat, minor: nat, micro: nat, pre: Option<(string, nat)>)

  /** A label counts only when it is present and non-empty. */
  predicate Truthy(preLabel: Option<string>) {
    preLabel.Some? && preLabel.value != []
  }

  /** `suggest_next_version`: with a label, the same release with the
      label's next number (1 unless the current version already carries that
      label); without one, the next micro release. An unparseable version is
      fatal. */
  function Suggest(current: Option<Version>, preLabel: Option<string>): (r: Result<string, string>)
    ensures r.Failure? <==> current.None?
  {
    match current
    case None => Failure("Invalid current version")
    case Some(v) =>
      if Truthy(preLabel) then
        var n := if v.pre.Some? && v.pre.value.0 == preLabel.value then v.pre.value.1 + 1 else 1;
        Success(Dec(v.major) + "." + Dec(v.minor) + "." + Dec(v.micro) + "-" + preLabel.value + "." + Dec(n))
      else
        Success(Dec(v.major) + "." + Dec(v.minor) + "." + Dec(v.micro + 1))
  }

  /** `fnmatch.fnmatch` for patterns built from `*` (any text), `?` (any one
      character) and literal characters. */
  predicate Glob(p: string, s: string)
    decreases |p| + |s|
  {
    if p == [] then s == []
    else if p[0] == '*' then Glob(p[1..], s) || (s != [] && Glob(p, s[1..]))
    else s != [] && (p[0] == '?' || p[0] == s[0]) && Glob(p[1..], s[1..])
  }

  /** The label of the first mapping, in mapping order, whose pattern
      matches the branch. */
  function PreReleaseFor(branch: string, mappings: seq<(string, string)>): Option<string> {
    if mappings == [] then None
    else if Glob(mappings[0].0, branch) then Some(mappings[0].1)
    else PreReleaseFor(branch, mappings[1..])
  }

  const DefaultMappings: seq<(string, string)> := [("feature/*", "alpha"), ("beta/*", "beta"), ("rc/*", "rc")]

  /** The versioning configuration: `Absent` when the file is missing or
      empty, so the defaults apply. */
  datatype Config = Absent | Loaded(branches: Option<seq<(string, string)>>)

  function Mappings(c: Config): seq<(string, string)> {
    match c
    case Absent => DefaultMappings
    case Loaded(None) => []
    case Loaded(Some(m)) => m
  }

  /** What reading `pyproject.toml` on the main branch produced. */
  datatype MainSource = GitFailed | Unreadable | NoVersion | NotText | Declared(text: string)

  /** `get_main_version`: a missing version means the first release; a
      version that is not text or not semver-shaped, or a failed read, is
      fatal. */
  function MainVersion(src: MainSource): (r: Result<string, string>)
    ensures r.Success? ==> MatchesSemver(r.value)
    ensures r.Success? <==> src.NoVersion? || (src.Declared? && MatchesSemver(src.text))
    ensures src.Declared? && r.Success? ==> r.value == src.text
    ensures src.NoVersion? ==> r == Success("0.0.0")
  {
    match src
    case GitFailed => Failure("Failed to get main branch version")
    case Unreadable => Failure("Failed to parse main branch pyproject.toml")
    case NoVersion =>
      FirstVersion();
      Success("0.0.0")
    case NotText => Failure("Invalid version format in main branch pyproject.toml")
    case Declared(t) =>
      if MatchesSemver(t) then Success(t)
      else Failure("Version in main branch pyproject.toml does not match semantic versioning")
  }

  /** How the check ends. */
  datatype Outcome =
    | PreReleaseBumped(version: string)  // pyproject rewritten, changelog generated
    | PreReleaseOk
    | StableBumped(version: string)      // confirmed at the prompt
    | NotChanged                         // declined at the prompt; exit status 1
    | Accepted                           // already bumped relative to main
    | Exit(reason: string)                // a fatal error

  /** `response.lower() == "y"`. */
  predicate Yes(answer: string) {
    answer == "y" || answer == "Y"
  }

  /** The decision at the end of `main`, given the current and main-branch
      versions, the branch's label, the version parser and the answer typed
      at the confirmation prompt. */
  function Decide(current: string, main: string, preLabel: Option<string>,
                  parse: string -> Option<Version>, answer: string): Outcome
  {
    if Truthy(preLabel) then
      if !Contains(current, preLabel.value) then
        match Suggest(parse(main), preLabel)
        case Failure(e) => Exit(e)
        case Success(s) => PreReleaseBumped(s)
      else PreReleaseOk
    else if current == main then
      match Suggest(parse(current), None)
      case Failure(e) => Exit(e)
      case Success(s) => if Yes(answer) then StableBumped(s) else NotChanged
    else Accepted
  }

  /** `main` after the branch name is known: the current version must be
      readable, the main-branch version valid, and the label comes from the
      configured (or default) branch patterns. */
  function Check(branch: string, current: Option<string>, mainSrc: MainSource, config: Config,
                 parse: string -> Option<Version>, answer: string): (r: Outcome)
    ensures (current.None? || current.value == []) ==> r.Exit?
    ensures current.Some? && current.value != [] && MainVersion(mainSrc).Failure? ==> r.Exit?
  {
    if current.None? || current.value == [] then Exit("Could not read current version")
    else match MainVersion(mainSrc)
      case Failure(e) => Exit(e)
      case Success(mv) => Decide(current.value, mv, PreReleaseFor(branch, Mappings(config)), parse, answer)
  }

  // ---------------------------------------------------------------------
  // Lemmas

  lemma FirstVersion()
    ensures MatchesSemver("0.0.0")
  {
    var p := Parts("0", "0", "0", None);
    ScanShow(p);
    assert Show(p) == "0.0.0";
  }

  /** Without a label the suggestion reads back as the next micro release,
      with any pre-release part dropped. */
  lemma SuggestStable(v: Version, preLabel: Option<string>)
    requires !Truthy(preLabel)
    ensures Suggest(Some(v), preLabel).Success?
    ensures Scan(Suggest(Some(v), preLabel).value) == Some(Parts(Dec(v.major), Dec(v.minor), Dec(v.micro + 1), None))
    ensures Value(Scan(Suggest(Some(v), preLabel).value).value.patch) == v.micro + 1
  {
    var p := Parts(Dec(v.major), Dec(v.minor), Dec(v.micro + 1), None);
    ShowRelease(p.major, p.minor, p.patch);
    assert Suggest(Some(v), preLabel).value == Show(p);
    ScanShow(p);
    ValueDec(v.micro + 1);
  }

  /** The number a labelled suggestion carries. */
  function NextNumber(v: Version, name: string): nat {
    if v.pre.Some? && v.pre.value.0 == name then v.pre.value.1 + 1 else 1
  }

  /** With a label the suggestion is the same release, `-`, the label,
      `.` and the label's next number, so it contains the label; with an
      alphanumeric label it reads back as exactly those parts. */
  lemma SuggestPre(v: Version, name: string)
    requires name != []
    ensures Suggest(Some(v), Some(name)) ==
      Success(Show(Parts(Dec(v.major), Dec(v.minor), Dec(v.micro), Some((name, Some(Dec(NextNumber(v, name))))))))
    ensures Contains(Suggest(Some(v), Some(name)).value, name)
    ensures Alnums(name) ==>
      Scan(Suggest(Some(v), Some(name)).value) ==
        Some(Parts(Dec(v.major), Dec(v.minor), Dec(v.micro), Some((name, Some(Dec(NextNumber(v, name)))))))
    ensures Alnums(name) ==>
      Value(Scan(Suggest(Some(v), Some(name)).value).value.pre.value.1.value) ==
        if v.pre.Some? && v.pre.value.0 == name then v.pre.value.1 + 1 else 1
  {
    var p := Parts(Dec(v.major), Dec(v.minor), Dec(v.micro), Some((name, Some(Dec(NextNumber(v, name))))));
    ShowPreRelease(p.major, p.minor, p.patch, name, Dec(NextNumber(v, name)));
    var s := Suggest(Some(v), Some(name)).value;
    assert s == Show(p);
    var head := Dec(v.major) + "." + Dec(v.minor) + "." + Dec(v.micro) + "-";
    assert s == head + name + ("." + Dec(NextNumber(v, name)));
    assert s[|head|..|head| + |name|] == name;
    assert OccursAt(s, name, |head|);
    if Alnums(name) {
      ScanShow(p);
      ValueDec(NextNumber(v, name));
    }
  }

  /** Every suggestion built with no label or an alphanumeric label passes
      the main-branch semver check. */
  lemma SuggestMatches(v: Version, preLabel: Option<string>)
    requires Truthy(preLabel) ==> Alnums(preLabel.value)
    ensures MatchesSemver(Suggest(Some(v), preLabel).value)
  {
    if Truthy(preLabel) {
      SuggestPre(v, preLabel.value);
    } else {
      SuggestStable(v, preLabel);
    }
  }

  /** A pattern without wildcards matches only itself. */
  lemma {:induction false} GlobLiteral(lit: string, s: string)
    requires forall i :: 0 <= i < |lit| ==> lit[i] != '*' && lit[i] != '?'
    ensures Glob(lit, s) <==> s == lit
    decreases |lit|
  {
    if lit != [] && s != [] {
      GlobLiteral(lit[1..], s[1..]);
      if s == lit {
        assert s[1..] == lit[1..];
      } else if lit[0] == s[0] {
        assert s[1..] != lit[1..] by {
          assert s == [s[0]] + s[1..] && lit == [lit[0]] + lit[1..];
        }
      }
    }
  }

  /** A trailing `*` matches any continuation. */
  lemma {:induction false} GlobStar(s: string)
    ensures Glob("*", s)
    decreases |s|
  {
    if s != [] {
      GlobStar(s[1..]);
    }
  }

  /** `prefix*` matches exactly the texts that start with `prefix`. */
  lemma {:induction false} GlobPrefix(lit: string, s: string)
    requires forall i :: 0 <= i < |lit| ==> lit[i] != '*' && lit[i] != '?'
    ensures Glob(lit + "*", s) <==> StartsWith(s, lit)
    decreases |lit|
  {
    if lit == [] {
      GlobStar(s);
      assert lit + "*" == "*";
    } else {
      assert (lit + "*")[0] == lit[0] && (lit + "*")[1..] == lit[1..] + "*";
      if s != [] {
        GlobPrefix(lit[1..], s[1..]);
        if StartsWith(s, lit) {
          assert s[1..][..|lit| - 1] == s[..|lit|][1..];
        } else if lit[0] == s[0] && |lit| <= |s| {
          assert s[..|lit|] == [s[0]] + s[1..][..|lit| - 1];
          assert lit == [lit[0]] + lit[1..];
        }
      }
    }
  }

  /** The lookup returns the label of the first matching pattern, and
      nothing exactly when no pattern matches. */
  lemma {:induction false} PreReleaseForSpec(branch: string, mappings: seq<(string, string)>)
    ensures PreReleaseFor(branch, mappings).None? <==> forall i :: 0 <= i < |mappings| ==> !Glob(mappings[i].0, branch)
    ensures PreReleaseFor(branch, mappings).Some? ==>
      exists i :: (0 <= i < |mappings| && Glob(mappings[i].0, branch)
        && PreReleaseFor(branch, mappings).value == mappings[i].1 && forall j :: 0 <= j < i ==> !Glob(mappings[j].0, branch))
  {
    if mappings != [] && !Glob(mappings[0].0, branch) {
      var tail := mappings[1..];
      PreReleaseForSpec(branch, tail);
      assert forall j :: 1 <= j < |mappings| ==> mappings[j] == tail[j - 1];
      var r := PreReleaseFor(branch, tail);
      if r.Some? {
        var i :| 0 <= i < |tail| && Glob(tail[i].0, branch)
          && r.value == tail[i].1 && forall j :: 0 <= j < i ==> !Glob(tail[j].0, branch);
        assert mappings[i + 1] == tail[i];
        assert forall j :: 0 <= j < i + 1 ==> !Glob(mappings[j].0, branch);
      }
    }
  }

  /** With the default mappings, `feature/…`, `beta/…` and `rc/…` branches
      get `alpha`, `beta` and `rc`, and other branches no label. */
  lemma {:induction false} DefaultLabels(branch: string)
    ensures PreReleaseFor(branch, DefaultMappings) ==
      if StartsWith(branch, "feature/") then Some("alpha")
      else if StartsWith(branch, "beta/") then Some("beta")
      else if StartsWith(branch, "rc/") then Some("rc")
      else None
  {
    GlobPrefix("feature/", branch);
    GlobPrefix("beta/", branch);
    GlobPrefix("rc/", branch);
    var m := DefaultMappings;
    assert m[0].0 == "feature/" + "*" && m[0].1 == "alpha";
    assert m[1..][0].0 == "beta/" + "*" && m[1..][0].1 == "beta";
    assert m[1..][1..][0].0 == "rc/" + "*" && m[1..][1..][0].1 == "rc";
    assert m[1..][1..][1..] == [];
    assert PreReleaseFor(branch, m[1..][1..][1..]) == None;
    assert PreReleaseFor(branch, m[1..][1..]) == if StartsWith(branch, "rc/") then Some("rc") else None;
    assert PreReleaseFor(branch, m[1..]) ==
      if StartsWith(branch, "beta/") then Some("beta")
      else if StartsWith(branch, "rc/") then Some("rc")
      else None;
  }

  /** The label a branch gets under each configuration: the default labels
      when there is no configuration, none at all when the configuration
      lists no pre-release branches, and otherwise the first configured
      pattern that matches. */
  lemma {:induction false} ConfigLabels(branch: string, m: seq<(string, string)>)
    ensures PreReleaseFor(branch, Mappings(Absent)) ==
      if StartsWith(branch, "feature/") then Some("alpha")
      else if StartsWith(branch, "beta/") then Some("beta")
      else if StartsWith(branch, "rc/") then Some("rc")
      else None
    ensures PreReleaseFor(branch, Mappings(Loaded(None))) == None
    ensures PreReleaseFor(branch, Mappings(Loaded(Some(m)))).None? <==>
      forall i :: 0 <= i < |m| ==> !Glob(m[i].0, branch)
  {
    DefaultLabels(branch);
    PreReleaseForSpec(branch, m);
  }

  /** A labelled branch whose version lacks the label is bumped exactly
      when the main-branch version parses, to the main release with the
      label and its next number. */
  lemma DecidePreRelease(current: string, main: string, preLabel: Option<string>,
                         parse: string -> Option<Version>, answer: string)
    ensures Decide(current, main, preLabel, parse, answer).PreReleaseBumped? <==>
      Truthy(preLabel) && !Contains(current, preLabel.value) && parse(main).Some?
    ensures Decide(current, main, preLabel, parse, answer).PreReleaseBumped? ==>
      var v, name := parse(main).value, preLabel.value;
      && Contains(Decide(current, main, preLabel, parse, answer).version, name)
      && (Alnums(name) ==>
            Scan(Decide(current, main, preLabel, parse, answer).version) ==
              Some(Parts(Dec(v.major), Dec(v.minor), Dec(v.micro), Some((name, Some(Dec(NextNumber(v, name))))))))
  {
    if Decide(current, main, preLabel, parse, answer).PreReleaseBumped? {
      SuggestPre(parse(main).value, preLabel.value);
    }
  }

  /** A labelled branch whose version already contains the label passes. */
  lemma DecidePreReleaseOk(current: string, main: string, preLabel: Option<string>,
                           parse: string -> Option<Version>, answer: string)
    ensures Decide(current, main, preLabel, parse, answer) == PreReleaseOk <==>
      Truthy(preLabel) && Contains(current, preLabel.value)
  {
  }

  /** The pre-release suggestion carries the label, so checking again with
      it accepts it unchanged. */
  lemma PreReleaseSettles(current: string, main: string, name: string,
                          parse: string -> Option<Version>, answer: string, answer2: string)
    requires Decide(current, main, Some(name), parse, answer).PreReleaseBumped?
    ensures Decide(Decide(current, main, Some(name), parse, answer).version, main, Some(name), parse, answer2)
      == PreReleaseOk
  {
    var v := parse(main).value;
    var s := Decide(current, main, Some(name), parse, answer).version;
    var n := NextNumber(v, name);
    var head := Dec(v.major) + "." + Dec(v.minor) + "." + Dec(v.micro) + "-";
    assert s == head + name + ("." + Dec(n));
    assert s[|head|..|head| + |name|] == name;
    assert OccursAt(s, name, |head|);
  }

  /** An unlabelled branch still at the main-branch version is offered the
      next micro release: it is bumped exactly when the version parses and
      the answer is yes, and left unchanged when it parses and the answer
      is anything else. */
  lemma DecideStable(current: string, main: string, preLabel: Option<string>,
                     parse: string -> Option<Version>, answer: string)
    ensures Decide(current, main, preLabel, parse, answer).StableBumped? <==>
      !Truthy(preLabel) && current == main && parse(current).Some? && Yes(answer)
    ensures Decide(current, main, preLabel, parse, answer) == NotChanged <==>
      !Truthy(preLabel) && current == main && parse(current).Some? && !Yes(answer)
    ensures Decide(current, main, preLabel, parse, answer).StableBumped? ==>
      var v := parse(current).value;
      Scan(Decide(current, main, preLabel, parse, answer).version) == Some(Parts(Dec(v.major), Dec(v.minor), Dec(v.micro + 1), None))
  {
    if Decide(current, main, preLabel, parse, answer).StableBumped? {
      SuggestStable(parse(current).value, None);
    }
  }

  /** An unlabelled branch whose version differs from main is accepted, and
      nothing else is. */
  lemma DecideAccepted(current: string, main: string, preLabel: Option<string>,
                       parse: string -> Option<Version>, answer: string)
    ensures Decide(current, main, preLabel, parse, answer) == Accepted <==> !Truthy(preLabel) && current != main
  {
  }

  /** The check stops with an error only when the version it would bump
      from does not parse. */
  lemma DecideExit(current: string, main: string, preLabel: Option<string>,
                   parse: string -> Option<Version>, answer: string)
    ensures Decide(current, main, preLabel, parse, answer).Exit? <==>
      (Truthy(preLabel) && !Contains(current, preLabel.value) && parse(main).None?)
      || (!Truthy(preLabel) && current == main && parse(current).None?)
  {
  }

  /** A parser that reads every plain `major.minor.micro` numeral as those
      numbers, as `packaging.Version` does. */
  ghost predicate ReadsPlain(parse: string -> Option<Version>) {
    forall a: nat, b: nat, c: nat :: parse(Dec(a) + "." + Dec(b) + "." + Dec(c)) == Some(Version(a, b, c, None))
  }

  /** A confirmed stable bump parses to a later micro release than main,
      so checking again with it accepts it, whatever main was spelled
      like. */
  lemma StableSettles(current: string, parse: string -> Option<Version>, answer: string, answer2: string)
    requires ReadsPlain(parse)
    requires Decide(current, current, None, parse, answer).StableBumped?
    ensures Decide(Decide(current, current, None, parse, answer).version, current, None, parse, answer2) == Accepted
  {
    var v := parse(current).value;
    var s := Decide(current, current, None, parse, answer).version;
    assert s == Dec(v.major) + "." + Dec(v.minor) + "." + Dec(v.micro + 1);
    assert parse(s) == Some(Version(v.major, v.minor, v.micro + 1, None));
  }
}
