/** The version-string shape the bump check accepts,
    `^\d+\.\d+\.\d+(-[a-zA-Z0-9]+(\.\d+)?)?$` under Python's `re.match`, as
    an exact scanner with the printer it inverts, and decimal numerals. */
module Semver {
  import opened Wrappers
  import opened Strings
  import opened Seqs

  predicate IsDigit(c: char) {
    '0' <= c <= '9'
  }

  predicate IsAlnum(c: char) {
    IsDigit(c) || ('a' <= c <= 'z') || ('A' <= c <= 'Z')
  }

  /** A non-empty run of digits. */
  predicate Digits(s: string) {
    s != [] && forall i :: 0 <= i < |s| ==> IsDigit(s[i])
  }

  /** A non-empty run of ASCII letters and digits. */
  predicate Alnums(s: string) {
    s != [] && forall i :: 0 <= i < |s| ==> IsAlnum(s[i])
  }

  /** The pieces of an accepted version string, as written: three numerals
      and an optional pre-release label with an optional numeral. */
  datatype Parts = Parts(major: string, minor: string, patch: string, pre: Option<(string, Option<string>)>)

  predicate WellFormed(p: Parts) {
    && Digits(p.major) && Digits(p.minor) && Digits(p.patch)
    && (p.pre.Some? ==> Alnums(p.pre.value.0) && (p.pre.value.1.Some? ==> Digits(p.pre.value.1.value)))
  }

  function PreText(pre: Option<(string, Option<string>)>): string {
    match pre
    case None => ""
    case Some(lp) => "-" + (lp.0 + NumText(lp.1))
  }

  function NumText(n: Option<string>): string {
    match n
    case None => ""
    case Some(d) => "." + d
  }

  /** `major.minor.patch[-label[.n]]`. */
  function Show(p: Parts): string {
    p.major + ("." + (p.minor + ("." + (p.patch + PreText(p.pre)))))
  }

  /** What may follow the patch numeral: nothing, or `-label` with an
      optional `.n`. */
  function ScanPre(t: string): Option<Option<(string, Option<string>)>> {
    if t == [] then Some(None)
    else if t[0] != '-' then None
    else
      var u := t[1..];
      var l := Span(u, IsAlnum);
      if l == 0 then None
      else
        var w := u[l..];
        if w == [] then Some(Some((u[..l], None)))
        else if w[0] != '.' then None
        else
          var d := w[1..];
          if d != [] && Span(d, IsDigit) == |d| then Some(Some((u[..l], Some(d)))) else None
  }

  /** A numeral followed by a dot: the numeral and what follows the dot. */
  function Field(s: string): Option<(string, string)> {
    var a := Span(s, IsDigit);
    if a == 0 || a == |s| || s[a] != '.' then None else Some((s[..a], s[a + 1..]))
  }

  /** The patch numeral and the pre-release part after it. */
  function Tail(s: string): Option<(string, Option<(string, Option<string>)>)> {
    var c := Span(s, IsDigit);
    if c == 0 then None
    else match ScanPre(s[c..])
      case None => None
      case Some(pre) => Some((s[..c], pre))
  }

  /** Reads a whole text as a version string. */
  function Scan(s: string): Option<Parts> {
    match Field(s)
    case None => None
    case Some(f1) =>
      match Field(f1.1)
      case None => None
      case Some(f2) =>
        match Tail(f2.1)
        case None => None
        case Some(t) => Some(Parts(f1.0, f2.0, t.0, t.1))
  }

  /** `re.match` with the pattern above: `$` also matches just before a
      final newline. */
  predicate MatchesSemver(s: string) {
    Scan(s).Some? || (|s| > 0 && s[|s| - 1] == '\n' && Scan(s[..|s| - 1]).Some?)
  }

  function DigitChar(d: nat): (c: char)
    requires d < 10
    ensures IsDigit(c)
  {
    ['0', '1', '2', '3', '4', '5', '6', '7', '8', '9'][d]
  }

  /** The decimal numeral Python's `str(n)` gives for a natural number. */
  function Dec(n: nat): (r: string)
    ensures Digits(r)
  {
    if n < 10 then [DigitChar(n)] else Dec(n / 10) + [DigitChar(n % 10)]
  }

  /** The number a digit string denotes. */
  function Value(s: string): nat
    requires forall i :: 0 <= i < |s| ==> IsDigit(s[i])
  {
    if s == [] then 0 else 10 * Value(s[..|s| - 1]) + DigitValue(s[|s| - 1])
  }

  function DigitValue(c: char): nat
    requires IsDigit(c)
  {
    c as int - '0' as int
  }

  // ---------------------------------------------------------------------
  // Lemmas

  /** A numeral reads back as its number, and has no leading zero. */
  lemma {:induction false} ValueDec(n: nat)
    ensures Value(Dec(n)) == n
    ensures |Dec(n)| == 1 || Dec(n)[0] != '0'
  {
    var d := DigitChar(n % 10);
    assert DigitValue(d) == n % 10;
    if n >= 10 {
      ValueDec(n / 10);
      assert Dec(n)[..|Dec(n)| - 1] == Dec(n / 10);
    }
  }

  /** A digit string without a leading zero is the numeral of its value. */
  lemma {:induction false} DecValue(s: string)
    requires Digits(s) && (|s| == 1 || s[0] != '0')
    ensures Dec(Value(s)) == s
  {
    var init, last := s[..|s| - 1], s[|s| - 1];
    var d := DigitValue(last);
    assert DigitChar(d) == last;
    if |s| > 1 {
      assert init[0] == s[0];
      DecValue(init);
      ValuePositive(init);
      var n := Value(s);
      assert n == 10 * Value(init) + d;
      assert n / 10 == Value(init) && n % 10 == d;
      CutLast(s);
    }
  }

  lemma {:induction false} ValuePositive(s: string)
    requires Digits(s) && s[0] != '0'
    ensures Value(s) > 0
  {
    if |s| > 1 {
      assert s[..|s| - 1][0] == s[0];
      ValuePositive(s[..|s| - 1]);
    }
  }

  /** The pre-release part scans back from its printed form. */
  lemma ScanPreShow(pre: Option<(string, Option<string>)>)
    requires pre.Some? ==> Alnums(pre.value.0) && (pre.value.1.Some? ==> Digits(pre.value.1.value))
    ensures ScanPre(PreText(pre)) == Some(pre)
  {
    if pre.Some? {
      var (name, n) := pre.value;
      var tail := NumText(n);
      var t := PreText(pre);
      assert t[1..] == name + tail;
      SpanPrefix(name, tail, IsAlnum);
      assert (name + tail)[..|name|] == name && (name + tail)[|name|..] == tail;
      if n.Some? {
        var d := n.value;
        assert tail[1..] == d;
        SpanPrefix(d, [], IsDigit);
        assert d + [] == d;
      }
    }
  }

  lemma FieldShow(x: string, y: string)
    requires Digits(x)
    ensures Field(x + ("." + y)) == Some((x, y))
  {
    SpanPrefix(x, "." + y, IsDigit);
    assert (x + ("." + y))[..|x|] == x && (x + ("." + y))[|x| + 1..] == y;
  }

  lemma TailShow(x: string, pre: Option<(string, Option<string>)>)
    requires Digits(x)
    requires pre.Some? ==> Alnums(pre.value.0) && (pre.value.1.Some? ==> Digits(pre.value.1.value))
    ensures Tail(x + PreText(pre)) == Some((x, pre))
  {
    var pt := PreText(pre);
    assert pt == [] || pt[0] == '-';
    SpanPrefix(x, pt, IsDigit);
    assert (x + pt)[..|x|] == x && (x + pt)[|x|..] == pt;
    ScanPreShow(pre);
  }

  /** Every well-formed version string scans back to its pieces. */
  lemma ScanShow(p: Parts)
    requires WellFormed(p)
    ensures Scan(Show(p)) == Some(p)
  {
    var r2 := p.patch + PreText(p.pre);
    var r1 := p.minor + ("." + r2);
    FieldShow(p.major, r1);
    FieldShow(p.minor, r2);
    TailShow(p.patch, p.pre);
  }

  /** Whatever scans is the printed form of well-formed pieces. */
  lemma ShowScanPre(t: string)
    requires ScanPre(t).Some?
    ensures var pre := ScanPre(t).value;
      (pre.Some? ==> Alnums(pre.value.0) && (pre.value.1.Some? ==> Digits(pre.value.1.value)))
      && PreText(pre) == t
  {
    if t != [] {
      var u := t[1..];
      var l := Span(u, IsAlnum);
      var w := u[l..];
      assert u == u[..l] + w;
      if w != [] {
        assert w == "." + w[1..];
      }
      assert t == "-" + u;
    }
  }

  lemma FieldScan(s: string)
    requires Field(s).Some?
    ensures Digits(Field(s).value.0) && s == Field(s).value.0 + ("." + Field(s).value.1)
  {
    var a := Span(s, IsDigit);
    assert forall i :: 0 <= i < a ==> s[..a][i] == s[i];
    assert s == s[..a] + ("." + s[a + 1..]);
  }

  lemma TailScan(s: string)
    requires Tail(s).Some?
    ensures Digits(Tail(s).value.0)
    ensures var pre := Tail(s).value.1;
      pre.Some? ==> Alnums(pre.value.0) && (pre.value.1.Some? ==> Digits(pre.value.1.value))
    ensures s == Tail(s).value.0 + PreText(Tail(s).value.1)
  {
    var c := Span(s, IsDigit);
    assert forall i :: 0 <= i < c ==> s[..c][i] == s[i];
    ShowScanPre(s[c..]);
    assert s == s[..c] + s[c..];
  }

  lemma ShowScan(s: string)
    requires Scan(s).Some?
    ensures WellFormed(Scan(s).value) && Show(Scan(s).value) == s
  {
    var f1 := Field(s).value;
    FieldScan(s);
    var f2 := Field(f1.1).value;
    FieldScan(f1.1);
    TailScan(f2.1);
  }

  /** The check accepts exactly the well-formed version strings, with or
      without one final newline. */
  lemma MatchesSemverSpec(s: string)
    ensures MatchesSemver(s) <==>
      exists p :: WellFormed(p) && (Show(p) == s || Show(p) + "\n" == s)
  {
    if MatchesSemver(s) {
      var p := ShownOf(s);
    }
    if exists p :: WellFormed(p) && (Show(p) == s || Show(p) + "\n" == s) {
      var p :| WellFormed(p) && (Show(p) == s || Show(p) + "\n" == s);
      ShownMatches(p, s);
    }
  }

  /** The pieces an accepted text prints from. */
  lemma ShownOf(s: string) returns (p: Parts)
    requires MatchesSemver(s)
    ensures WellFormed(p) && (Show(p) == s || Show(p) + "\n" == s)
  {
    if Scan(s).Some? {
      p := ScannedParts(s);
    } else {
      var t := s[..|s| - 1];
      p := ScannedParts(t);
      CutLast(s);
    }
  }

  lemma ScannedParts(s: string) returns (p: Parts)
    requires Scan(s).Some?
    ensures WellFormed(p) && Show(p) == s
  {
    ShowScan(s);
    p := Scan(s).value;
  }

  lemma ShownMatches(p: Parts, s: string)
    requires WellFormed(p) && (Show(p) == s || Show(p) + "\n" == s)
    ensures MatchesSemver(s)
  {
    ScanShow(p);
    if Show(p) != s {
      assert s[..|s| - 1] == Show(p);
    }
  }

  /** The printed forms, written out flat. */
  lemma ShowRelease(a: string, b: string, c: string)
    ensures Show(Parts(a, b, c, None)) == a + "." + b + "." + c
  {
  }

  lemma ShowPreRelease(a: string, b: string, c: string, name: string, n: string)
    ensures Show(Parts(a, b, c, Some((name, Some(n))))) == a + "." + b + "." + c + "-" + name + "." + n
  {
  }
}
