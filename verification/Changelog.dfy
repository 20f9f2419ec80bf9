/** The main-branch changelog writer: commit subjects since the last release
    are routed into titled sections by the first matching rule, the sections
    are ordered (optionally by a configured order), and the rendered entry is
    put on top of the existing CHANGELOG.md. */
module Changelog {
  import opened Wrappers
  import opened Strings
  import opened Seqs

  /** The three kinds of regular expression the section rules use: a
      literal searched anywhere, a literal anchored at the start (`^`), and
      `.*`, which every text matches. */
  datatype Pattern = Anywhere(text: string) | AtStart(text: string) | AnyText

  predicate Matches(p: Pattern, m: string) {
    match p
    case Anywhere(t) => Contains(m, t)
    case AtStart(t) => StartsWith(m, t)
    case AnyText => true
  }

  const Breaking: string := "\U{26A0}\U{FE0F} Breaking Changes"
  const Features: string := "\U{2728} Features"
  const Fixes: string := "\U{1F41B} Fixes"
  const Other: string := "\U{1F9F0} Other"

  /** Section titles with their patterns, tried in this order. */
  const SectionRules: seq<(string, seq<Pattern>)> := [
    (Breaking, [Anywhere("BREAKING CHANGE"), AtStart("feat!:")]),
    (Features, [AtStart("feat:")]),
    (Fixes, [AtStart("fix:")]),
    (Other, [AnyText])
  ]

  predicate AnyMatch(ps: seq<Pattern>, m: string) {
    exists i | 0 <= i < |ps| :: Matches(ps[i], m)
  }

  /** The index of the first rule one of whose patterns matches `m`. */
  function FirstRule(rules: seq<(string, seq<Pattern>)>, m: string): (r: Option<nat>)
    ensures r.Some? ==> r.value < |rules| && AnyMatch(rules[r.value].1, m)
    ensures r.Some? ==> forall j :: 0 <= j < r.value ==> !AnyMatch(rules[j].1, m)
    ensures r.None? ==> forall j :: 0 <= j < |rules| ==> !AnyMatch(rules[j].1, m)
  {
    if rules == [] then None
    else if AnyMatch(rules[0].1, m) then Some(0)
    else match FirstRule(rules[1..], m)
      case None => None
      case Some(i) => Some(i + 1)
  }

  /** The catch-all rule makes routing total. */
  lemma {:induction false} RouteTotal(m: string)
    ensures FirstRule(SectionRules, m).Some?
  {
    assert Matches(SectionRules[3].1[0], m);
  }

  /** The section a commit subject is filed under. */
  function SectionOf(m: string): string {
    RouteTotal(m);
    SectionRules[FirstRule(SectionRules, m).value].0
  }

  /** The rule table amounts to this cascade of tests. */
  lemma SectionOfSpec(m: string)
    ensures SectionOf(m) ==
      if Contains(m, "BREAKING CHANGE") || StartsWith(m, "feat!:") then Breaking
      else if StartsWith(m, "feat:") then Features
      else if StartsWith(m, "fix:") then Fixes
      else Other
  {
    RouteTotal(m);
    var k := FirstRule(SectionRules, m).value;
    var brk := Contains(m, "BREAKING CHANGE") || StartsWith(m, "feat!:");
    assert AnyMatch(SectionRules[0].1, m) <==> brk by {
      if brk {
        if Contains(m, "BREAKING CHANGE") {
          assert Matches(SectionRules[0].1[0], m);
        } else {
          assert Matches(SectionRules[0].1[1], m);
        }
      }
    }
    assert AnyMatch(SectionRules[1].1, m) <==> StartsWith(m, "feat:") by {
      if StartsWith(m, "feat:") {
        assert Matches(SectionRules[1].1[0], m);
      }
    }
    assert AnyMatch(SectionRules[2].1, m) <==> StartsWith(m, "fix:") by {
      if StartsWith(m, "fix:") {
        assert Matches(SectionRules[2].1[0], m);
      }
    }
  }

  function InSection(t: string): string -> bool {
    m => SectionOf(m) == t
  }

  /** Each subject paired with its section, in input order. */
  function Routed(ms: seq<string>): (r: seq<(string, string)>)
    ensures |r| == |ms|
  {
    seq(|ms|, i requires 0 <= i < |ms| => (SectionOf(ms[i]), ms[i]))
  }

  /** The insertion-ordered buckets, one per section that received a subject. */
  function Buckets(ms: seq<string>): seq<(string, seq<string>)> {
    Group(Routed(ms))
  }

  /** `buckets.get(t, [])`. */
  function Get(b: seq<(string, seq<string>)>, t: string): seq<string> {
    match Lookup(b, t)
    case Some(v) => v
    case None => []
  }

  /** The configured titles whose bucket is non-empty, each with its bucket,
      in configured order. */
  function Listed(b: seq<(string, seq<string>)>, order: seq<string>): seq<(string, seq<string>)> {
    if order == [] then []
    else
      var t := order[|order| - 1];
      Listed(b, order[..|order| - 1]) + (if Get(b, t) != [] then [(t, Get(b, t))] else [])
  }

  function NotIn(order: seq<string>): ((string, seq<string>)) -> bool {
    (p: (string, seq<string>)) => p.0 !in order
  }

  /** The titles whose bucket in `b` is non-empty. */
  function Filled(b: seq<(string, seq<string>)>): string -> bool {
    t => Get(b, t) != []
  }

  function NotListed(order: seq<string>): string -> bool {
    t => t !in order
  }

  const NonEmpty: ((string, seq<string>)) -> bool := (p: (string, seq<string>)) => p.1 != []
  const NonBlank: string -> bool := m => !IsBlank(m)

  /** The sections of a release entry: with a (non-empty) configured order,
      the configured sections that have subjects followed by the other
      sections in first-seen order; otherwise every non-empty section in
      first-seen order. */
  function GroupMessages(ms: seq<string>, order: seq<string>): seq<(string, seq<string>)> {
    var b := Buckets(ms);
    if order != [] then Listed(b, order) + Filter(b, NotIn(order))
    else Filter(b, NonEmpty)
  }

  /** The subjects of the log output that are not blank. */
  function CollectMessages(log: string): (r: seq<string>)
    ensures forall i :: 0 <= i < |r| ==> !IsBlank(r[i])
  {
    Filter(SplitLines(log), NonBlank)
  }

  /** The commit after which subjects are collected: the last release tag on
      the main branch when there is one, otherwise the first root commit
      listed; no listed root is an `IndexError`. */
  function Boundary(lastTag: Option<string>, roots: string): (r: Result<string, string>)
    ensures lastTag.Some? && lastTag.value != [] ==> r == Success(lastTag.value)
    ensures lastTag.None? || lastTag.value == [] ==> (r.Failure? <==> roots == [])
    ensures (lastTag.None? || lastTag.value == []) && r.Success? ==>
      && StartsWith(roots, r.value)
      && (|r.value| == |roots| || IsLineBreak(roots[|r.value|]))
      && forall k :: 0 <= k < |r.value| ==> !IsLineBreak(r.value[k])
  {
    if lastTag.Some? && lastTag.value != [] then Success(lastTag.value)
    else
      var rs := SplitLines(roots);
      FirstLine(roots);
      if rs == [] then Failure("IndexError") else Success(rs[0])
  }

  /** The new CHANGELOG.md: the rendered entry, a blank line, and the
      previous file, with trailing whitespace reduced to one newline. */
  function Prepend(entry: string, prev: string): string {
    RStrip(RStrip(entry) + "\n\n" + prev) + "\n"
  }

  /** What is written to CHANGELOG.md, or `None` when the configuration
      turns main-only changelogs off. */
  function WriteChangelog(mainOnly: bool, entry: string, existing: Option<string>): (r: Option<string>)
    ensures r.None? <==> !mainOnly
    ensures mainOnly && existing.None? ==> r == Some(RStrip(entry) + "\n")
    ensures mainOnly && existing.Some? && IsBlank(existing.value) ==> r == Some(RStrip(entry) + "\n")
    ensures mainOnly && existing.Some? && !IsBlank(existing.value) ==>
      r == Some(RStrip(entry) + "\n\n" + RStrip(existing.value) + "\n")
  {
    if !mainOnly then None
    else
      var prev := match existing case Some(text) => text case None => "";
      PrependSpec(entry, prev);
      Some(Prepend(entry, prev))
  }

  // ---------------------------------------------------------------------
  // Lemmas

  lemma {:induction false} RoutedPrefix(ms: seq<string>, n: nat)
    requires n <= |ms|
    ensures Routed(ms)[..n] == Routed(ms[..n])
  {
  }

  /** The subjects routed to `t`, in order, are exactly the subjects whose
      section is `t`. */
  lemma {:induction false} RoutedValues(ms: seq<string>, t: string)
    ensures ValuesFor(Routed(ms), t) == Filter(ms, InSection(t))
  {
    if ms != [] {
      var init := ms[..|ms| - 1];
      RoutedPrefix(ms, |ms| - 1);
      RoutedValues(init, t);
    }
  }

  lemma RoutedKeys(ms: seq<string>)
    ensures Keys(Routed(ms)) == seq(|ms|, i requires 0 <= i < |ms| => SectionOf(ms[i]))
    ensures Values(Routed(ms)) == ms
  {
  }

  /** One bucket per section in order of first appearance; a bucket holds
      exactly its section's subjects in input order; no bucket is empty;
      together the buckets hold every subject once. */
  lemma {:induction false} BucketsSpec(ms: seq<string>)
    ensures Keys(Buckets(ms)) == Dedup(seq(|ms|, i requires 0 <= i < |ms| => SectionOf(ms[i])))
    ensures forall i :: 0 <= i < |Buckets(ms)| ==>
      Buckets(ms)[i].1 == Filter(ms, InSection(Buckets(ms)[i].0)) && Buckets(ms)[i].1 != []
    ensures multiset(Flatten(Buckets(ms))) == multiset(ms)
  {
    var ps := Routed(ms);
    GroupSpec(ps);
    GroupsNonEmpty(ps);
    GroupKeepsValues(ps);
    RoutedKeys(ms);
    forall i | 0 <= i < |Buckets(ms)|
      ensures Buckets(ms)[i].1 == Filter(ms, InSection(Buckets(ms)[i].0))
    {
      RoutedValues(ms, Buckets(ms)[i].0);
    }
  }

  /** The facts about the buckets the ordering relies on. */
  lemma {:induction false} BucketsShape(ms: seq<string>)
    ensures NoDup(Keys(Buckets(ms)))
    ensures forall i :: 0 <= i < |Buckets(ms)| ==>
      Buckets(ms)[i].1 == Filter(ms, InSection(Buckets(ms)[i].0)) && Buckets(ms)[i].1 != []
  {
    BucketsSpec(ms);
  }

  /** Without a configured order the result is the buckets themselves. */
  lemma DefaultOrder(ms: seq<string>)
    ensures GroupMessages(ms, []) == Buckets(ms)
  {
    BucketsSpec(ms);
    FilterAll(Buckets(ms), NonEmpty);
  }

  lemma GetPresent(b: seq<(string, seq<string>)>, i: nat)
    requires i < |b| && NoDup(Keys(b))
    ensures Get(b, b[i].0) == b[i].1
  {
    var k := IndexOf(b, b[i].0).value;
    assert Keys(b)[k] == Keys(b)[i];
  }

  /** The listed sections are the configured titles with a non-empty bucket,
      each paired with its bucket. */
  lemma {:induction false} ListedSpec(b: seq<(string, seq<string>)>, order: seq<string>)
    ensures Keys(Listed(b, order)) == Filter(order, Filled(b))
    ensures forall i :: 0 <= i < |Listed(b, order)| ==>
      Listed(b, order)[i].1 == Get(b, Listed(b, order)[i].0) && Listed(b, order)[i].1 != []
  {
    if order != [] {
      var t := order[|order| - 1];
      ListedSpec(b, order[..|order| - 1]);
      assert Filled(b)(t) == (Get(b, t) != []);
    }
  }

  lemma GetMember(b: seq<(string, seq<string>)>, t: string)
    requires Get(b, t) != []
    ensures (t, Get(b, t)) in b
  {
    var k := IndexOf(b, t).value;
    assert b[k] == (t, Get(b, t));
  }

  /** With a configured order: the configured sections that received
      subjects come first in configured order, then the other sections in
      first-seen order; every section holds exactly its subjects and none is
      empty; and when the order names no title twice, every subject appears
      exactly once. */
  lemma {:induction false} OrderedGrouping(ms: seq<string>, order: seq<string>)
    requires order != []
    ensures Keys(GroupMessages(ms, order)) ==
      Filter(order, Filled(Buckets(ms))) + Filter(Keys(Buckets(ms)), NotListed(order))
    ensures forall i :: 0 <= i < |GroupMessages(ms, order)| ==>
      GroupMessages(ms, order)[i].1 == Filter(ms, InSection(GroupMessages(ms, order)[i].0)) &&
      GroupMessages(ms, order)[i].1 != []
    ensures NoDup(order) ==> multiset(Flatten(GroupMessages(ms, order))) == multiset(ms)
  {
    GroupedKeys(ms, order);
    GroupedSections(ms, order);
    if NoDup(order) {
      GroupedPermutation(ms, order);
    }
  }

  lemma {:induction false} GroupedKeys(ms: seq<string>, order: seq<string>)
    requires order != []
    ensures Keys(GroupMessages(ms, order)) ==
      Filter(order, Filled(Buckets(ms))) + Filter(Keys(Buckets(ms)), NotListed(order))
  {
    var b := Buckets(ms);
    assert GroupMessages(ms, order) == Listed(b, order) + Filter(b, NotIn(order));
    ListedSpec(b, order);
    RestKeys(b, order);
    KeysAppend(Listed(b, order), Filter(b, NotIn(order)));
  }

  lemma {:induction false} GroupedSections(ms: seq<string>, order: seq<string>)
    requires order != []
    ensures forall i :: 0 <= i < |GroupMessages(ms, order)| ==>
      GroupMessages(ms, order)[i].1 == Filter(ms, InSection(GroupMessages(ms, order)[i].0)) &&
      GroupMessages(ms, order)[i].1 != []
  {
    var b := Buckets(ms);
    var r := GroupMessages(ms, order);
    BucketsShape(ms);
    OrderedElements(b, order);
    forall i | 0 <= i < |r|
      ensures r[i].1 == Filter(ms, InSection(r[i].0)) && r[i].1 != []
    {
      assert r[i] in b;
      var j :| 0 <= j < |b| && b[j] == r[i];
    }
  }

  lemma {:induction false} GroupedPermutation(ms: seq<string>, order: seq<string>)
    requires order != []
    requires NoDup(order)
    ensures multiset(Flatten(GroupMessages(ms, order))) == multiset(ms)
  {
    var b := Buckets(ms);
    BucketsSpec(ms);
    OrderedPermutation(b, order);
    FlattenPerm(GroupMessages(ms, order), b);
  }

  lemma {:induction false} RestKeys(b: seq<(string, seq<string>)>, order: seq<string>)
    ensures Keys(Filter(b, NotIn(order))) == Filter(Keys(b), NotListed(order))
  {
    if b != [] {
      var init, x := b[..|b| - 1], b[|b| - 1];
      RestKeys(init, order);
      assert Keys(init) == Keys(b)[..|b| - 1];
      assert NotIn(order)(x) == NotListed(order)(x.0);
      KeysAppend(Filter(init, NotIn(order)), if NotIn(order)(x) then [x] else []);
    }
  }

  /** The ordered sections are taken from the buckets, and (as no bucket is
      empty) every bucket is among them. */
  lemma {:induction false} OrderedElements(b: seq<(string, seq<string>)>, order: seq<string>)
    requires NoDup(Keys(b))
    requires forall i :: 0 <= i < |b| ==> b[i].1 != []
    ensures forall x :: x in Listed(b, order) + Filter(b, NotIn(order)) <==> x in b
  {
    ListedFromBuckets(b, order);
    FilterMembers(b, NotIn(order));
    forall x | x in b
      ensures x in Listed(b, order) + Filter(b, NotIn(order))
    {
      BucketListed(b, order, x);
    }
  }

  lemma {:induction false} ListedFromBuckets(b: seq<(string, seq<string>)>, order: seq<string>)
    ensures forall x :: x in Listed(b, order) ==> x in b
  {
    var listed := Listed(b, order);
    ListedSpec(b, order);
    forall x | x in listed
      ensures x in b
    {
      var i :| 0 <= i < |listed| && listed[i] == x;
      GetMember(b, listed[i].0);
    }
  }

  lemma {:induction false} BucketListed(b: seq<(string, seq<string>)>, order: seq<string>, x: (string, seq<string>))
    requires NoDup(Keys(b))
    requires forall i :: 0 <= i < |b| ==> b[i].1 != []
    requires x in b
    ensures x in Listed(b, order) + Filter(b, NotIn(order))
  {
    var listed, rest := Listed(b, order), Filter(b, NotIn(order));
    var i :| 0 <= i < |b| && b[i] == x;
    GetPresent(b, i);
    if x.0 in order {
      ListedSpec(b, order);
      FilterMembers(order, Filled(b));
      assert x.0 in Keys(listed);
      var j :| 0 <= j < |listed| && Keys(listed)[j] == x.0;
      assert listed[j] == x;
    } else {
      FilterMembers(b, NotIn(order));
      assert NotIn(order)(x);
      assert x in rest;
    }
  }

  /** With a duplicate-free order no title is listed twice. */
  lemma {:induction false} OrderedKeysNoDup(b: seq<(string, seq<string>)>, order: seq<string>)
    requires NoDup(order) && NoDup(Keys(b))
    ensures NoDup(Keys(Listed(b, order) + Filter(b, NotIn(order))))
  {
    var listed, rest := Listed(b, order), Filter(b, NotIn(order));
    var r := listed + rest;
    ListedSpec(b, order);
    RestKeys(b, order);
    KeysAppend(listed, rest);
    FilterNoDup(order, Filled(b));
    FilterNoDup(Keys(b), NotListed(order));
    FilterMembers(order, Filled(b));
    FilterMembers(Keys(b), NotListed(order));
    NoDupAppend(Keys(listed), Keys(rest));
  }

  /** With a duplicate-free order the ordered sections are a permutation of
      the buckets. */
  lemma {:induction false} OrderedPermutation(b: seq<(string, seq<string>)>, order: seq<string>)
    requires NoDup(order) && NoDup(Keys(b))
    requires forall i :: 0 <= i < |b| ==> b[i].1 != []
    ensures multiset(Listed(b, order) + Filter(b, NotIn(order))) == multiset(b)
  {
    var r := Listed(b, order) + Filter(b, NotIn(order));
    OrderedKeysNoDup(b, order);
    KeysNoDup(r);
    KeysNoDup(b);
    OrderedElements(b, order);
    NoDupSameElements(r, b);
  }

  lemma KeysNoDup<K, V>(ps: seq<(K, V)>)
    requires NoDup(Keys(ps))
    ensures NoDup(ps)
  {
    forall i, j | 0 <= i < j < |ps|
      ensures ps[i] != ps[j]
    {
      assert Keys(ps)[i] != Keys(ps)[j];
    }
  }

  /** Collected subjects are exactly the non-blank lines of the log; the
      blank lines are all that is dropped. */
  lemma {:induction false} CollectSpec(log: string)
    ensures forall l :: l in CollectMessages(log) <==> l in SplitLines(log) && !IsBlank(l)
    ensures |CollectMessages(log)| + |Filter(SplitLines(log), IsBlank)| == |SplitLines(log)|
  {
    FilterMembers(SplitLines(log), NonBlank);
    FilterComplement(SplitLines(log), NonBlank, IsBlank);
  }

  /** The previous changelog follows the new entry after one blank line,
      unless it is blank, and the file ends in exactly one newline. */
  lemma PrependSpec(entry: string, prev: string)
    ensures IsBlank(prev) ==> Prepend(entry, prev) == RStrip(entry) + "\n"
    ensures !IsBlank(prev) ==> Prepend(entry, prev) == RStrip(entry) + "\n\n" + RStrip(prev) + "\n"
  {
    if IsBlank(prev) {
      PrependBlank(entry, prev);
    } else {
      PrependText(entry, prev);
    }
  }

  lemma PrependBlank(entry: string, prev: string)
    requires IsBlank(prev)
    ensures Prepend(entry, prev) == RStrip(entry) + "\n"
  {
    var head := RStrip(entry) + "\n\n";
    TrimRightAppend(head, prev, IsSpace);
    assert RStrip(head + prev) == RStrip(head);
    TrimRightAppend(RStrip(entry), "\n\n", IsSpace);
    TrimRightTwice(entry, IsSpace);
  }

  lemma PrependText(entry: string, prev: string)
    requires !IsBlank(prev)
    ensures Prepend(entry, prev) == RStrip(entry) + "\n\n" + RStrip(prev) + "\n"
  {
    var head := RStrip(entry) + "\n\n";
    var i :| 0 <= i < |prev| && !IsSpace(prev[i]);
    TrimRightAppend(head, prev, IsSpace);
    assert RStrip(head + prev) == head + RStrip(prev);
  }
}
