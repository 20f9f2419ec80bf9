# versioning-utility in Dafny

A model of the pure logic of the `versioning_tool` package. The package is a
git pre-push helper: it checks that a branch has bumped its version, it
suggests the next version, and it writes changelogs and Mermaid history
graphs. Every git, file and console call becomes an input string, an input
sequence or a function parameter. What is left is four folds over text, and
the model states and proves what each one promises.

| file | module | models |
|---|---|---|
| `Wrappers.dfy` | `Wrappers` | `Option` and `Result` |
| `Strings.dfy` | `Strings` | the Python `str` operations the code relies on: `isspace`, `strip`/`rstrip` (also with a character set), `find`, `replace`, `split(sep)`, `split()`, `splitlines`, `join`, `startswith`, `in` |
| `Seqs.dfy` | `Seqs` | filtering, de-duplication, and grouping into an insertion-ordered dictionary (a `defaultdict(list)` filled in order) |
| `Graph.dfy` | `Graph` | `graph.py`: `_short_msg`, the `graph_for_main` fold, `generate_release_graph`, and the section splice of `write_graph_to_readme` |
| `Changelog.dfy` | `Changelog` | `changelog.py`: the section rules, `_group_messages`, the message filter and root fallback of `collect_since_last_tag_on_main`, and the prepend in `write_changelog` |
| `ChangelogGenerator.dfy` | `ChangelogGenerator` | `changelog_generator.py`: `get_last_tag`, `get_commits_with_branches`, `categorize_commits`, and the Markdown assembly of `generate_changelog` |
| `Semver.dfy` | `Semver` | the version-shape regular expression of `get_main_version`, as an exact scanner paired with the printer it inverts, and decimal numerals |
| `VersionManager.dfy` | `VersionManager` | `version_manager.py`: `suggest_next_version` on parsed fields, `get_pre_release_for_branch`, `get_main_version`, and the decision made in `main` |

Modelling choices that follow the code:

- **The history graph.** `graph_for_main` is a left fold (`Graph.WalkLog`) over the already-split log lines.
  - The branch map is a sequence of `(name, head)` pairs in insertion order. A merge picks the *first* branch whose head is the parent, and the *last* non-first parent that resolves wins.
  - A merge line replaces the commit line, so the tags of a merge commit are lost.
  - No `checkout` lines are emitted.
  - `HEAD -> x` tokens are dropped whole, and `origin/` is removed wherever it occurs in a branch token.
  - A log line with fewer than three `|` makes the four-way unpack fail. The whole call then fails (`MalformedLogLine`). A subject that contains `|` spills into the parents field.
  - A branch named by the empty string is falsy, so it never becomes a merge source.
- **The section rules.** They are regular expressions applied with `re.search`: `BREAKING CHANGE` matches anywhere, `^feat!:`, `^feat:` and `^fix:` only at the start, and `.*` matches everything. The model writes them as substring tests, prefix tests and a catch-all (`Changelog.Pattern`).
- **Breaking commits in `categorize_commits`.** That test is *unanchored*: `feat!:` anywhere makes a commit breaking. In `changelog.py` the same marker counts only at the start. Every commit that is neither breaking nor a feature is listed under Fixes, including those without `fix:`.
- **The version pattern.** It is checked with `re.match`, whose `$` also matches just before one final newline. `Semver.MatchesSemver` accepts that newline too.
- **Truthiness.** Python truthiness is followed throughout:
  - an empty label counts as no label;
  - an empty last tag means "no tag";
  - an empty `group_order` means "no order";
  - an empty or missing configuration means "use the defaults".
- **The README section.** The marker is `\n## <heading>\n`, so it needs a newline before the heading.
  - A heading on the first line of the file is not recognised, and the section is appended again (`Graph.SpliceFirstLineHeading`).
  - A file that ends in `\n## <heading>` with no final newline is not recognised either. The first write appends after that line, and the second write replaces from the earlier heading on, so two copies remain (`Graph.SpliceTwiceGrows`).
- **The confirmation prompt.** `response.lower() == "y"` holds exactly for `y` and `Y`.
- **`packaging.Version`.** The parser is a parameter, `parse: string -> Option<Version>`. The arithmetic of `suggest_next_version` works on the parsed fields.

## Model

| member | source | states |
|---|---|---|
| Graph.ShortMsgSpec | versioning_tool/graph.py:39-42 | the short message contains no `"`, is at most `length`+1 long, equals the stripped quote-replaced message when that fits, and otherwise is its first `length` characters followed by one ellipsis |
| Graph.ShortMsgIdempotent | versioning_tool/graph.py:39-42 | shortening an already shortened message changes nothing |
| Graph.ParseEntryAccepts | versioning_tool/graph.py:64-65 | a log line unpacks into four fields exactly when it holds at least three `|` |
| Graph.ParseEntryRoundTrip | versioning_tool/graph.py:64-65 | a parsed line is its four fields joined by `|`; sha, decoration and subject hold no `|`, so any further `|` stays in the parents field |
| Graph.UnparseParse | versioning_tool/graph.py:64-65 | fields without `|` in the first three are recovered from their joined line |
| Graph.BranchNamesSpec | versioning_tool/graph.py:78-83 | branch names are the decoration tokens that are non-empty and start neither with `tag:` nor with `HEAD ->`, in order, with every `origin/` removed |
| Graph.TagNamesSpec | versioning_tool/graph.py:73-76 | tag names are the tokens starting with `tag:`, in order, with `tag: ` removed |
| Graph.TagSuffixAppend | versioning_tool/graph.py:75-76 | each tag contributes its own ` tag: "…"` suffix in decoration order |
| Graph.FreshSpec | versioning_tool/graph.py:84-88 | the branches an entry creates are distinct, previously unknown, named by the entry, and every named branch is known afterwards |
| Graph.DeclareClosed | versioning_tool/graph.py:84-88 | declaring branches appends one head and one `branch` line per new name and makes the last new one current, or keeps the current branch when none is new |
| Graph.DeclareKnown | versioning_tool/graph.py:84-88 | re-decorating known branches changes neither the map, nor the current branch, nor the lines |
| Graph.ResolvesSpec | versioning_tool/graph.py:93-94 | a parent resolves iff the first branch in insertion order whose head it is has a non-empty name |
| Graph.EntryLineCommit | versioning_tool/graph.py:90-97 | when no non-first parent resolves, the entry keeps its commit line with its tags |
| Graph.EntryLineMerge | versioning_tool/graph.py:90-97 | otherwise the line is `merge B`, where B is the first branch in insertion order whose head is the last resolving parent, and the commit line with its tags is dropped |
| Graph.StepSpec | versioning_tool/graph.py:64-98 | one entry fails iff its line does not unpack; otherwise it adds exactly the new branches to the map, moves the current branch to the last new one, and appends their `branch` lines plus one commit-or-merge line |
| Graph.StepHeads | versioning_tool/graph.py:84-98 | after an entry only the current branch's head changes among the old ones, and it becomes the entry's sha |
| Graph.WalkRejects | versioning_tool/graph.py:64-65 | the fold fails iff some log line does not unpack |
| Graph.GraphShape | versioning_tool/graph.py:45-101 | the graph starts with the three header lines and ends with the closing fence; it has one line per entry plus one line per declared branch; no branch, and never the main branch, is declared twice |
| Graph.GraphPlain | versioning_tool/graph.py:59-101 | for entries without decorations and with at most one parent, the graph is the header, one `commit id: "<sha> <short msg>"` per entry in log order, and the fence |
| Graph.Take | versioning_tool/graph.py:11-13 | the `[:max_releases]` slice: a prefix whose length is the bound, or for a negative bound the list shortened by it |
| Graph.BlocksSpec | versioning_tool/graph.py:28-33 | every later tag contributes exactly five lines, its own block, in tag order |
| Graph.ReleaseBodySpec | versioning_tool/graph.py:21-33 | the body has 5n-4 lines for n tags: the first tag's commit, then for each later tag its `branch`, commit and `merge` lines at fixed positions |
| Graph.ReleaseGraphSpec | versioning_tool/graph.py:11-36 | the release graph is the fixed one-commit diagram iff no tag survives the bound; otherwise it is the header, the body and the fence joined by newlines |
| Graph.SpliceAppend | versioning_tool/graph.py:104-110 | without the marker the section goes after the right-stripped text |
| Graph.SpliceReplace | versioning_tool/graph.py:111-117 | with the marker, the text before it and the text from the next level-two heading on are kept verbatim around the new section |
| Graph.SpliceIdempotent | versioning_tool/graph.py:104-117 | writing the same section twice gives the same text as writing it once, provided the new section opens no other level-two section and either the file already holds the section, or the heading is one line and the file, after its trailing whitespace is removed, does not end in `\n## <heading>` |
| Graph.SpliceTwiceGrows | versioning_tool/graph.py:104-117 | a file ending in `\n## h` with no final newline does not count as holding the section, so the section is appended after that line; the next write replaces from the earlier heading on and leaves two copies of the section |
| Graph.SpliceFirstLineHeading | versioning_tool/graph.py:106-110 | for every file whose first line is the heading and that has the marker nowhere, the heading is not recognised: the section is appended after the right-stripped text, so the file starts with the heading and has its marker again after the old text |
| Changelog.FirstRule | versioning_tool/changelog.py:26-30 | the chosen rule matches, no earlier rule matches, and no rule is chosen only when none matches |
| Changelog.SectionOfSpec | versioning_tool/changelog.py:13-18 | a message is Breaking if it contains `BREAKING CHANGE` or starts with `feat!:`, else Features if it starts with `feat:`, else Fixes if it starts with `fix:`, else Other |
| Changelog.BucketsSpec | versioning_tool/changelog.py:24-30 | sections appear in first-use order; each bucket holds exactly its messages in input order and is non-empty; together the buckets hold every message once |
| Changelog.DefaultOrder | versioning_tool/changelog.py:38-39 | without an order the result is the buckets in first-use order |
| Changelog.ListedSpec | versioning_tool/changelog.py:32 | the listed part holds the ordered titles whose bucket is non-empty, each with its bucket |
| Changelog.RestKeys | versioning_tool/changelog.py:34-36 | the remaining part holds the unlisted sections in first-use order |
| Changelog.OrderedGrouping | versioning_tool/changelog.py:31-37 | with an order, the titles are the listed non-empty ones in listed order followed by the unlisted ones in first-use order; every section holds exactly its messages and is non-empty; without duplicate titles the messages are preserved as a multiset |
| Changelog.CollectMessages | versioning_tool/changelog.py:54 | no collected message is blank |
| Changelog.CollectSpec | versioning_tool/changelog.py:54 | a line is collected iff it is a non-blank log line; collected and blank lines together account for every line |
| Changelog.Boundary | versioning_tool/changelog.py:49-52 | a non-empty last tag is the boundary; otherwise there is none (`IndexError`) iff the root listing is empty, and the boundary is the listing's first line: a prefix with no line break, followed by a line break or the end |
| Changelog.PrependSpec | versioning_tool/changelog.py:87 | with a blank old text the result is the stripped entry and one newline; otherwise the stripped entry, a blank line, the right-stripped old text and one newline |
| Changelog.WriteChangelog | versioning_tool/changelog.py:57-88 | nothing is written iff `main_only` is off; with a missing or blank old file the result is the stripped entry and one newline; otherwise it is the stripped entry, a blank line, the right-stripped old text and one newline |
| ChangelogGenerator.LastTag | versioning_tool/changelog_generator.py:14-32 | a failing `git describe` gives the empty tag; otherwise the tag is the output with only whitespace cut from either end, and it never starts or ends with whitespace |
| ChangelogGenerator.SplitCommit | versioning_tool/changelog_generator.py:46 | a line unpacks iff it holds a space; the sha holds no space and sha, space and message rebuild the line |
| ChangelogGenerator.SplitCommitRoundTrip | versioning_tool/changelog_generator.py:46 | a sha without spaces and any message are recovered from their joined line |
| Strings.StripIsStripOf | versioning_tool/changelog_generator.py:54 | what `strip` keeps is a slice of the text with only stripped characters cut from either end and none left at its ends |
| Strings.StripOfUnique | versioning_tool/changelog_generator.py:54 | that slice is unique: any slice with only stripped characters around it and none at its ends is what `strip` returns |
| ChangelogGenerator.BranchOfSpec | versioning_tool/changelog_generator.py:54-55 | the reported branch is what `strip("* ")` and then `strip()` keep of the first listed line, each step described by the slice it keeps |
| ChangelogGenerator.BranchOfMarked | versioning_tool/changelog_generator.py:54-55 | a first line made of any run of `*` and spaces and then a name with no marker, whitespace or line break at its ends is reported as that name, whether or not more lines follow |
| ChangelogGenerator.LabelPairs | versioning_tool/changelog_generator.py:44-57 | on success, one `(branch, subject)` pair per log line in order, the branch being the one the line's sha query names and the subject the rest of the line |
| ChangelogGenerator.LabelStops | versioning_tool/changelog_generator.py:44-57 | a failure names a line that cannot be unpacked or whose branch query fails, with that reason |
| ChangelogGenerator.LabelLines | versioning_tool/changelog_generator.py:45-56 | a successful labelling is the loop body's result for each line, in order |
| ChangelogGenerator.LabelSucceeds | versioning_tool/changelog_generator.py:44-57 | labelling succeeds iff every line unpacks and every branch query answers |
| ChangelogGenerator.LabelFirstStuck | versioning_tool/changelog_generator.py:44-57 | labelling stops at the first line that cannot be unpacked or whose branch query fails, with that line's reason |
| ChangelogGenerator.CommitsWithBranches | versioning_tool/changelog_generator.py:35-66 | a failing `git log` gives no commits; so does the first failing branch query, discarding the pairs already made; the first line without a space is an uncaught error naming it; when every line unpacks and is answered, there is one labelled pair per line, in order |
| ChangelogGenerator.CategorizeSpec | versioning_tool/changelog_generator.py:69-82 | each of the three lists is the input filtered by its kind, in input order |
| ChangelogGenerator.CategorizePartition | versioning_tool/changelog_generator.py:69-82 | the three lists together are a permutation of the input |
| ChangelogGenerator.CategorizeBreaking | versioning_tool/changelog_generator.py:73-81 | breaking iff `BREAKING CHANGE` or `feat!:` occurs anywhere; feature iff not breaking and starting with `feat:`; fix for every other commit |
| ChangelogGenerator.BlockHeadings | versioning_tool/changelog_generator.py:109-121 | a branch block has each kind's heading iff some message of that kind exists |
| ChangelogGenerator.BlockLayout | versioning_tool/changelog_generator.py:109-122 | a branch block is the `### ` branch line, then the breaking, feature and fix sections, each holding that kind's messages in log order under its own heading and left out when empty, then a blank line |
| ChangelogGenerator.BlockContents | versioning_tool/changelog_generator.py:109-122 | a branch block has exactly one `### ` heading, its branch; its bullets are the breaking, then the feature, then the fix messages, each in log order, and together a permutation of the messages |
| ChangelogGenerator.ChangelogContents | versioning_tool/changelog_generator.py:99-122 | the `### ` headings are the distinct branches in first-appearance order; the bullets are exactly the commit messages, as a multiset |
| ChangelogGenerator.ChangelogShape | versioning_tool/changelog_generator.py:103-109 | the Markdown starts with the title line followed by the first branch heading |
| ChangelogGenerator.GenerateChangelog | versioning_tool/changelog_generator.py:85-153 | nothing is written iff there are no commits; otherwise the old text is followed by the title and a branch heading, and the file ends with a newline |
| Semver.Dec | versioning_tool/version_manager.py:192-194 | a formatted number is a non-empty run of digits |
| Semver.ValueDec | versioning_tool/version_manager.py:192-194 | a formatted number reads back as itself and has no leading zero |
| Semver.DecValue | versioning_tool/version_manager.py:192-194 | a digit run without a leading zero is the formatted form of its value |
| Semver.ScanShow | versioning_tool/version_manager.py:129-131 | every well-formed version string scans back to its pieces |
| Semver.ShowScan | versioning_tool/version_manager.py:129-131 | whatever scans is the printed form of well-formed pieces |
| Semver.MatchesSemverSpec | versioning_tool/version_manager.py:129-131 | the check accepts exactly `digits.digits.digits` with an optional `-alnum` label and an optional `.digits`, optionally followed by one newline |
| VersionManager.Suggest | versioning_tool/version_manager.py:178-195 | a suggestion fails iff the version does not parse |
| VersionManager.SuggestStable | versioning_tool/version_manager.py:193-194 | without a label the suggestion reads as `major.minor.(micro+1)` with the pre-release part dropped |
| VersionManager.SuggestPre | versioning_tool/version_manager.py:187-192 | with a non-empty label the suggestion is `major.minor.micro-label.n`, where n is the current number plus one when the label is unchanged and 1 otherwise, so it contains the label; with an alphanumeric label it scans back to exactly those parts |
| VersionManager.SuggestMatches | versioning_tool/version_manager.py:129-131 | every suggestion made with no label or an alphanumeric one passes the version check |
| VersionManager.GlobLiteral | versioning_tool/version_manager.py:200 | a pattern without wildcards matches only itself |
| VersionManager.GlobPrefix | versioning_tool/version_manager.py:200 | `prefix*` matches exactly the names starting with the prefix |
| VersionManager.PreReleaseForSpec | versioning_tool/version_manager.py:198-202 | no label iff no pattern matches; otherwise the label of the first matching pattern in mapping order |
| VersionManager.DefaultLabels | versioning_tool/version_manager.py:261-272 | under the default mappings `feature/` gives `alpha`, `beta/` gives `beta`, `rc/` gives `rc`, and other branches get no label |
| VersionManager.ConfigLabels | versioning_tool/version_manager.py:254-272 | with no configuration a branch gets the default label of its `feature/`, `beta/` or `rc/` prefix, and other branches none; a configuration without `pre_release_branches` makes every branch stable; with configured mappings a branch has no label iff no pattern matches it |
| VersionManager.FirstVersion | versioning_tool/version_manager.py:108-118 | the first-version default `0.0.0` passes the version check |
| VersionManager.MainVersion | versioning_tool/version_manager.py:97-161 | the main version is accepted iff it is missing, giving `0.0.0`, or declared as text that passes the version check, giving that text; every accepted version passes the check |
| VersionManager.Check | versioning_tool/version_manager.py:241-285 | an unreadable current version or an invalid main version ends the run |
| VersionManager.DecidePreRelease | versioning_tool/version_manager.py:287-291 | a branch is bumped to a pre-release iff it has a label that its version lacks and the main version parses; the bump contains the label, and with an alphanumeric label it scans as the main release with that label and its next number |
| VersionManager.DecidePreReleaseOk | versioning_tool/version_manager.py:287-323 | a branch passes as a pre-release iff it has a label that its version contains |
| VersionManager.PreReleaseSettles | versioning_tool/version_manager.py:287-323 | once a pre-release bump has been written, the next run finds the label and changes nothing |
| VersionManager.DecideStable | versioning_tool/version_manager.py:324-352 | a stable bump happens iff the branch has no label, its version equals main and parses, and the answer is yes; it then scans as the next micro release; the version is left unchanged iff the same holds except that the answer is not yes |
| VersionManager.DecideAccepted | versioning_tool/version_manager.py:353-358 | the version is accepted iff the branch has no label and its version differs from main |
| VersionManager.DecideExit | versioning_tool/version_manager.py:287-326 | the run stops at the invalid-version error of `suggest_next_version` iff a bump is due from a version that does not parse: the main version when the branch label is missing from the current version, or the current version when the branch has no label and its version equals main |
| VersionManager.StableSettles | versioning_tool/version_manager.py:324-358 | for a parser that reads plain `major.minor.micro` numerals as those numbers, once a stable bump has been confirmed, the next run against the same main version accepts it, whatever the spelling of main (a pre-release such as `1.0.0-rc.1`, or leading zeros) |

## Left out

- Git, files and the console: every `run_git`/`subprocess` call, `read_text`/`write_text`, the appending `open`, the toml/yaml loading, the `rich` panels and tables, `input()` and `sys.exit`. Their results are inputs. A failed command is an `Option`/`Result` case, and an exit is an `Exit`/`Failure` value.
- `versioning_tool/core.py` is not part of this model. `run_git` and `last_tag_on_branch` are taken to return their output as given, and the graph log is taken as its list of lines.
- The `jinja2` rendering in `changelog.py` and `datetime.date.today()` are foreign or nondeterministic. The rendered entry is an input to `Changelog.WriteChangelog`, and the grouped sections are what it would receive.
- `packaging.Version` parsing and its normalisation (for example `alpha` becomes `a`). This is why the comparison of the parsed label with the branch label in `suggest_next_version` never holds for `alpha` or `beta` in the original. The model starts from parsed fields.
- Semver.IsDigit: `\d` is ASCII-only here, while Python's `\d` also accepts the decimal digits of other scripts. Versions written with such digits are rejected by the model and accepted by the original.
- VersionManager.SuggestPre: reading the suggestion back through the version scanner is stated only for alphanumeric labels, because the scanner rejects any other label. The shape of the suggestion is stated for every non-empty label.
- Graph.SpliceIdempotent: when the file does not yet hold the section, idempotence is stated only for one-line headings and for files that do not end in `\n## <heading>`. A file that does end that way gets two copies of the section (`Graph.SpliceTwiceGrows`).
- VersionManager.GlobLiteral: only `*`, `?` and literal characters of `fnmatch` are modelled. `[...]` character classes are not, and neither is case folding on case-insensitive platforms.
- `update_pyproject_version`, `get_current_branch`, `get_version_from_pyproject`, `get_commits_since_main` and the `print_*` panels are I/O wrappers.
- `max_tags` in `graph_for_main` is unused by the original. `max_releases` is modelled through `Graph.Take`.
- The changelog generator's invocation of itself as a subprocess after a bump is recorded only as the outcome `PreReleaseBumped`/`StableBumped`.
