/** Sequence helpers: filtering, first-appearance de-duplication, and the
    insertion-ordered grouping a Python `defaultdict(list)` performs when it
    is filled in a loop and then walked with `.items()`. */
module Seqs {
  import opened Wrappers

  /** The elements of `s` satisfying `keep`, in their original order. */
  function Filter<T>(s: seq<T>, keep: T -> bool): (r: seq<T>)
    ensures |r| <= |s|
    ensures forall i :: 0 <= i < |r| ==> keep(r[i])
  {
    if s == [] then []
    else Filter(s[..|s| - 1], keep) + (if keep(s[|s| - 1]) then [s[|s| - 1]] else [])
  }

  predicate NoDup<T(==)>(s: seq<T>) {
    forall i, j :: 0 <= i < j < |s| ==> s[i] != s[j]
  }

  /** The distinct elements of `s`, in order of first appearance. */
  function Dedup<T(==)>(s: seq<T>): (r: seq<T>)
    ensures NoDup(r)
    ensures forall i :: 0 <= i < |r| ==> r[i] in s
    ensures forall i :: 0 <= i < |s| ==> s[i] in r
  {
    if s == [] then []
    else
      var d := Dedup(s[..|s| - 1]);
      assert forall i :: 0 <= i < |s| - 1 ==> s[i] == s[..|s| - 1][i];
      if s[|s| - 1] in d then d else d + [s[|s| - 1]]
  }

  /** The keys of an association list, in order. */
  function Keys<K, V>(ps: seq<(K, V)>): (r: seq<K>)
    ensures |r| == |ps| && forall i :: 0 <= i < |ps| ==> r[i] == ps[i].0
  {
    seq(|ps|, i requires 0 <= i < |ps| => ps[i].0)
  }

  /** The first position of key `k` in an association list. */
  function IndexOf<K(==), V>(ps: seq<(K, V)>, k: K): (r: Option<nat>)
    ensures r.Some? ==> r.value < |ps| && ps[r.value].0 == k
    ensures r.Some? ==> forall j :: 0 <= j < r.value ==> ps[j].0 != k
    ensures r.None? ==> forall j :: 0 <= j < |ps| ==> ps[j].0 != k
  {
    if ps == [] then None
    else if ps[0].0 == k then Some(0)
    else match IndexOf(ps[1..], k)
      case None => None
      case Some(i) => Some(i + 1)
  }

  /** Python's `d.get(k)` on an insertion-ordered dictionary. */
  function Lookup<K(==), V>(ps: seq<(K, V)>, k: K): (r: Option<V>)
    ensures r.Some? <==> k in Keys(ps)
  {
    match IndexOf(ps, k)
    case None => None
    case Some(i) => Some(ps[i].1)
  }

  /** Python's `groups[k].append(v)` on a `defaultdict(list)`: a new key
      goes to the end, a known key keeps its place. */
  function Add<K(==), V>(gs: seq<(K, seq<V>)>, k: K, v: V): seq<(K, seq<V>)> {
    match IndexOf(gs, k)
    case Some(i) => gs[i := (k, gs[i].1 + [v])]
    case None => gs + [(k, [v])]
  }

  /** The grouping a `defaultdict(list)` builds from `(key, value)` pairs
      appended in order. */
  function Group<K(==), V>(ps: seq<(K, V)>): seq<(K, seq<V>)> {
    if ps == [] then []
    else Add(Group(ps[..|ps| - 1]), ps[|ps| - 1].0, ps[|ps| - 1].1)
  }

  /** The values paired with `k`, in input order. */
  function ValuesFor<K(==), V>(ps: seq<(K, V)>, k: K): seq<V> {
    if ps == [] then []
    else ValuesFor(ps[..|ps| - 1], k) + (if ps[|ps| - 1].0 == k then [ps[|ps| - 1].1] else [])
  }

  /** The values of an association list, in order. */
  function Values<K, V>(ps: seq<(K, V)>): (r: seq<V>)
    ensures |r| == |ps| && forall i :: 0 <= i < |ps| ==> r[i] == ps[i].1
  {
    seq(|ps|, i requires 0 <= i < |ps| => ps[i].1)
  }

  /** All grouped values, group after group. */
  function Flatten<K, V>(gs: seq<(K, seq<V>)>): seq<V> {
    if gs == [] then [] else gs[0].1 + Flatten(gs[1..])
  }

  // ---------------------------------------------------------------------
  // Lemmas

  lemma {:induction false} FilterAppend<T>(a: seq<T>, b: seq<T>, keep: T -> bool)
    ensures Filter(a + b, keep) == Filter(a, keep) + Filter(b, keep)
    decreases |b|
  {
    if b == [] {
      assert a + b == a;
    } else {
      var b' := b[..|b| - 1];
      assert (a + b)[..|a + b| - 1] == a + b';
      FilterAppend(a, b', keep);
    }
  }

  /** A predicate and its negation split a sequence into two parts that
      together hold every element exactly as often as the input. */
  lemma {:induction false} FilterComplement<T>(s: seq<T>, keep: T -> bool, other: T -> bool)
    requires forall x :: other(x) == !keep(x)
    ensures multiset(Filter(s, keep)) + multiset(Filter(s, other)) == multiset(s)
    ensures |Filter(s, keep)| + |Filter(s, other)| == |s|
  {
    if s != [] {
      var init, x := s[..|s| - 1], s[|s| - 1];
      FilterComplement(init, keep, other);
      CutLast(s);
      assert other(x) == !keep(x);
      if keep(x) {
        assert Filter(s, keep) == Filter(init, keep) + [x];
        assert Filter(s, other) == Filter(init, other);
      } else {
        assert Filter(s, keep) == Filter(init, keep);
        assert Filter(s, other) == Filter(init, other) + [x];
      }
    }
  }

  lemma {:induction false} ValuesForAbsent<K, V>(ps: seq<(K, V)>, k: K)
    requires k !in Keys(ps)
    ensures ValuesFor(ps, k) == []
  {
    if ps != [] {
      var init := ps[..|ps| - 1];
      assert Keys(init) == Keys(ps)[..|ps| - 1];
      ValuesForAbsent(init, k);
    }
  }

  /** The grouping has one group per distinct key, in order of first
      appearance, and each group holds exactly that key's values in input
      order. */
  lemma {:induction false} GroupSpec<K, V>(ps: seq<(K, V)>)
    ensures Keys(Group(ps)) == Dedup(Keys(ps))
    ensures forall i :: 0 <= i < |Group(ps)| ==> Group(ps)[i].1 == ValuesFor(ps, Group(ps)[i].0)
  {
    if ps != [] {
      var init := ps[..|ps| - 1];
      var (k, v) := ps[|ps| - 1];
      var g := Group(init);
      GroupSpec(init);
      assert Keys(ps)[..|ps| - 1] == Keys(init);
      assert Keys(ps)[|ps| - 1] == k;
      var g' := Group(ps);
      assert g' == Add(g, k, v);
      match IndexOf(g, k)
      case Some(i) =>
        assert g' == g[i := (k, g[i].1 + [v])];
        assert Keys(g') == Keys(g);
        assert k in Dedup(Keys(init));
        forall j | 0 <= j < |g'|
          ensures g'[j].1 == ValuesFor(ps, g'[j].0)
        {
          if j != i {
            assert Keys(g)[j] != Keys(g)[i];
          }
        }
      case None =>
        assert k !in Keys(g);
        assert k !in Keys(init);
        ValuesForAbsent(init, k);
        assert Keys(g') == Keys(g) + [k];
    }
  }

  lemma {:induction false} FlattenUpdate<K, V>(gs: seq<(K, seq<V>)>, i: nat, k: K, v: V)
    requires i < |gs|
    ensures multiset(Flatten(gs[i := (k, gs[i].1 + [v])])) == multiset(Flatten(gs)) + multiset{v}
  {
    var g' := gs[i := (k, gs[i].1 + [v])];
    if i == 0 {
      assert g'[1..] == gs[1..];
      assert Flatten(g') == (gs[0].1 + [v]) + Flatten(gs[1..]);
      assert Flatten(gs) == gs[0].1 + Flatten(gs[1..]);
    } else {
      var t' := gs[1..][i - 1 := (k, gs[i].1 + [v])];
      FlattenUpdate(gs[1..], i - 1, k, v);
      assert g'[1..] == t';
      assert Flatten(g') == gs[0].1 + Flatten(t');
      assert Flatten(gs) == gs[0].1 + Flatten(gs[1..]);
    }
  }

  lemma {:induction false} FlattenAppend<K, V>(a: seq<(K, seq<V>)>, b: seq<(K, seq<V>)>)
    ensures Flatten(a + b) == Flatten(a) + Flatten(b)
  {
    if a == [] {
      assert a + b == b;
    } else {
      var t := a[1..];
      FlattenAppend(t, b);
      assert (a + b)[0] == a[0];
      assert (a + b)[1..] == t + b;
      assert Flatten(a + b) == a[0].1 + (Flatten(t) + Flatten(b));
      assert Flatten(a) == a[0].1 + Flatten(t);
      Assoc(a[0].1, Flatten(t), Flatten(b));
    }
  }

  /** Grouping neither drops nor duplicates a value. */
  lemma {:induction false} GroupKeepsValues<K, V>(ps: seq<(K, V)>)
    ensures multiset(Flatten(Group(ps))) == multiset(Values(ps))
    ensures |Flatten(Group(ps))| == |ps|
  {
    if ps != [] {
      var init := ps[..|ps| - 1];
      var (k, v) := ps[|ps| - 1];
      var g := Group(init);
      GroupKeepsValues(init);
      assert Values(ps) == Values(init) + [v];
      match IndexOf(g, k)
      case Some(i) =>
        FlattenUpdate(g, i, k, v);
      case None =>
        FlattenAppend(g, [(k, [v])]);
        assert Flatten([(k, [v])]) == [v];
    }
    assert |multiset(Flatten(Group(ps)))| == |multiset(Values(ps))|;
  }

  /** A non-empty association list has at least one group. */
  lemma {:induction false} GroupPresent<K, V>(ps: seq<(K, V)>)
    requires ps != []
    ensures Group(ps) != []
  {
    GroupSpec(ps);
    assert Keys(ps)[0] in Dedup(Keys(ps));
  }

  /** No group is empty. */
  lemma {:induction false} GroupsNonEmpty<K, V>(ps: seq<(K, V)>)
    ensures forall i :: 0 <= i < |Group(ps)| ==> Group(ps)[i].1 != []
  {
    GroupSpec(ps);
    forall i | 0 <= i < |Group(ps)|
      ensures Group(ps)[i].1 != []
    {
      var k := Group(ps)[i].0;
      assert k in Keys(Group(ps));
      ValuesForPresent(ps, k);
    }
  }

  lemma {:induction false} ValuesForPresent<K, V>(ps: seq<(K, V)>, k: K)
    requires k in Keys(ps)
    ensures ValuesFor(ps, k) != []
  {
    var init := ps[..|ps| - 1];
    if ps[|ps| - 1].0 != k {
      assert Keys(init) == Keys(ps)[..|ps| - 1];
      ValuesForPresent(init, k);
    }
  }

  /** Filtering keeps exactly the elements satisfying the predicate. */
  lemma {:induction false} FilterMembers<T>(s: seq<T>, keep: T -> bool)
    ensures forall x :: x in Filter(s, keep) <==> x in s && keep(x)
  {
    if s != [] {
      var init := s[..|s| - 1];
      FilterMembers(init, keep);
      assert s == init + [s[|s| - 1]];
    }
  }

  /** A predicate that holds everywhere keeps the whole sequence. */
  lemma {:induction false} FilterAll<T>(s: seq<T>, keep: T -> bool)
    requires forall i :: 0 <= i < |s| ==> keep(s[i])
    ensures Filter(s, keep) == s
  {
    if s != [] {
      FilterAll(s[..|s| - 1], keep);
    }
  }

  /** A predicate that holds nowhere keeps nothing. */
  lemma {:induction false} FilterNone<T>(s: seq<T>, keep: T -> bool)
    requires forall i :: 0 <= i < |s| ==> !keep(s[i])
    ensures Filter(s, keep) == []
  {
    if s != [] {
      FilterNone(s[..|s| - 1], keep);
    }
  }

  lemma {:induction false} FilterNoDup<T>(s: seq<T>, keep: T -> bool)
    requires NoDup(s)
    ensures NoDup(Filter(s, keep))
  {
    if s != [] {
      var init := s[..|s| - 1];
      FilterNoDup(init, keep);
      FilterMembers(init, keep);
    }
  }

  /** In a sequence without duplicates every element occurs once. */
  lemma {:induction false} NoDupCount<T>(s: seq<T>, x: T)
    requires NoDup(s)
    ensures multiset(s)[x] == if x in s then 1 else 0
  {
    if s != [] {
      var init := s[..|s| - 1];
      NoDupCount(init, x);
      assert s == init + [s[|s| - 1]];
    }
  }

  /** Two duplicate-free sequences with the same elements are permutations
      of each other. */
  lemma NoDupSameElements<T>(a: seq<T>, b: seq<T>)
    requires NoDup(a) && NoDup(b)
    requires forall x :: x in a <==> x in b
    ensures multiset(a) == multiset(b)
  {
    forall x
      ensures multiset(a)[x] == multiset(b)[x]
    {
      NoDupCount(a, x);
      NoDupCount(b, x);
    }
  }

  /** Flattening permuted groups gives a permutation of the values. */
  lemma {:induction false} FlattenPerm<K, V>(a: seq<(K, seq<V>)>, b: seq<(K, seq<V>)>)
    requires multiset(a) == multiset(b)
    ensures multiset(Flatten(a)) == multiset(Flatten(b))
    decreases |a|
  {
    if a == [] {
      assert |b| == |multiset(b)| == 0;
    } else {
      var x := a[0];
      assert x in multiset(b);
      var i :| 0 <= i < |b| && b[i] == x;
      var b' := b[..i] + b[i + 1..];
      RemoveMatching(a, b, i);
      FlattenPerm(a[1..], b');
      FlattenAt(b, i);
      FlattenAppend(b[..i], b[i + 1..]);
      assert Flatten(a) == x.1 + Flatten(a[1..]);
    }
  }

  /** Taking the same element out of two permutations of each other leaves
      permutations of each other. */
  lemma RemoveMatching<T>(a: seq<T>, b: seq<T>, i: nat)
    requires multiset(a) == multiset(b)
    requires a != [] && i < |b| && b[i] == a[0]
    ensures multiset(a[1..]) == multiset(b[..i] + b[i + 1..])
  {
    var x := a[0];
    var b' := b[..i] + b[i + 1..];
    assert b == b[..i] + [x] + b[i + 1..];
    assert a == [x] + a[1..];
    assert multiset(b) == multiset(b[..i]) + multiset{x} + multiset(b[i + 1..]);
    assert multiset(b') == multiset(b[..i]) + multiset(b[i + 1..]);
    assert multiset(a) == multiset{x} + multiset(a[1..]);
    assert multiset(b) == multiset{x} + multiset(b');
    forall y
      ensures multiset(a[1..])[y] == multiset(b')[y]
    {
      assert multiset(a)[y] == multiset{x}[y] + multiset(a[1..])[y];
      assert multiset(b)[y] == multiset{x}[y] + multiset(b')[y];
    }
  }

  /** The values of a grouping around one of its groups. */
  lemma {:induction false} FlattenAt<K, V>(gs: seq<(K, seq<V>)>, i: nat)
    requires i < |gs|
    ensures Flatten(gs) == Flatten(gs[..i]) + gs[i].1 + Flatten(gs[i + 1..])
  {
    var rest := [gs[i]] + gs[i + 1..];
    CutAt(gs, i);
    assert gs == gs[..i] + rest;
    FlattenAppend(gs[..i], rest);
    assert rest[0] == gs[i] && rest[1..] == gs[i + 1..];
    assert Flatten(rest) == gs[i].1 + Flatten(gs[i + 1..]);
  }

  lemma KeysAppend<K, V>(a: seq<(K, V)>, b: seq<(K, V)>)
    ensures Keys(a + b) == Keys(a) + Keys(b)
  {
  }

  /** When the first element does not satisfy `p`, some element does
      exactly when some element of the rest does. */
  lemma AnyTail<T>(s: seq<T>, p: T -> bool)
    requires s != [] && !p(s[0])
    ensures (exists i :: 0 <= i < |s| && p(s[i])) <==> (exists i :: 0 <= i < |s[1..]| && p(s[1..][i]))
  {
    if exists i :: 0 <= i < |s| && p(s[i]) {
      var i :| 0 <= i < |s| && p(s[i]);
      assert s[1..][i - 1] == s[i];
    }
  }

  /** A sequence is its part before `i`, its element at `i`, and the rest. */
  lemma CutAt<T>(s: seq<T>, i: nat)
    requires i < |s|
    ensures s == s[..i] + [s[i]] + s[i + 1..]
  {
  }

  /** Two duplicate-free sequences with no element in common concatenate to
      a duplicate-free sequence. */
  lemma NoDupAppend<T>(a: seq<T>, b: seq<T>)
    requires NoDup(a) && NoDup(b)
    requires forall x :: x in a ==> x !in b
    ensures NoDup(a + b)
  {
    var r := a + b;
    forall i, j | 0 <= i < j < |r|
      ensures r[i] != r[j]
    {
      if j < |a| {
        assert r[i] == a[i] && r[j] == a[j];
      } else if i >= |a| {
        assert r[i] == b[i - |a|] && r[j] == b[j - |a|];
      } else {
        assert r[i] == a[i] && a[i] in a;
        assert r[j] == b[j - |a|] && b[j - |a|] in b;
      }
    }
  }

  /** A non-empty sequence is its front followed by its last element. */
  lemma CutLast<T>(s: seq<T>)
    requires s != []
    ensures s == s[..|s| - 1] + [s[|s| - 1]]
  {
  }

  /** Filtering a non-empty sequence, counted: the front's survivors and,
      when it is kept, the last element. */
  lemma {:induction false} FilterSnoc<T>(s: seq<T>, keep: T -> bool)
    requires s != []
    ensures multiset(Filter(s, keep)) ==
      multiset(Filter(s[..|s| - 1], keep)) + if keep(s[|s| - 1]) then multiset{s[|s| - 1]} else multiset{}
  {
  }

  /** Three filters that between them keep every element exactly once
      split a sequence into three parts that together are a permutation of
      it. */
  lemma {:induction false} FilterPartition3<T>(s: seq<T>, a: T -> bool, b: T -> bool, c: T -> bool)
    requires forall x :: a(x) || b(x) || c(x)
    requires forall x :: !(a(x) && b(x)) && !(a(x) && c(x)) && !(b(x) && c(x))
    ensures multiset(Filter(s, a)) + multiset(Filter(s, b)) + multiset(Filter(s, c)) == multiset(s)
    decreases |s|
  {
    if s != [] {
      var init, x := s[..|s| - 1], s[|s| - 1];
      FilterPartition3(init, a, b, c);
      CutLast(s);
      var ma, mb, mc := multiset(Filter(init, a)), multiset(Filter(init, b)), multiset(Filter(init, c));
      var d := multiset{x};
      assert multiset(s) == ma + mb + mc + d;
      UnionShift(ma, mb, mc, d);
      if a(x) {
        assert Filter(s, a) == Filter(init, a) + [x];
        assert Filter(s, b) == Filter(init, b) && Filter(s, c) == Filter(init, c);
      } else if b(x) {
        assert Filter(s, b) == Filter(init, b) + [x];
        assert Filter(s, a) == Filter(init, a) && Filter(s, c) == Filter(init, c);
      } else {
        assert Filter(s, c) == Filter(init, c) + [x];
        assert Filter(s, a) == Filter(init, a) && Filter(s, b) == Filter(init, b);
      }
    }
  }

  /** One more element counted in any one of three parts. */
  lemma UnionShift<T>(p: multiset<T>, q: multiset<T>, r: multiset<T>, d: multiset<T>)
    ensures (p + d) + q + r == p + q + r + d
    ensures p + (q + d) + r == p + q + r + d
    ensures p + q + (r + d) == p + q + r + d
  {
  }

  /** Empty pieces at both ends of a three-part concatenation drop out. */
  lemma Padded3<T>(e: seq<T>, x: seq<T>, y: seq<T>, z: seq<T>)
    requires e == []
    ensures e + x + y + z + e == x + y + z
  {
    assert e + x == x;
  }

  /** A property of every element survives putting one more element in
      front that has it too. */
  lemma AllCons<T>(x: T, w: seq<T>, p: T -> bool)
    requires p(x) && forall i :: 0 <= i < |w| ==> p(w[i])
    ensures forall i :: 0 <= i < |[x] + w| ==> p(([x] + w)[i])
  {
    forall i | 0 <= i < |[x] + w|
      ensures p(([x] + w)[i])
    {
      if i > 0 {
        assert ([x] + w)[i] == w[i - 1];
      }
    }
  }

  /** The outer parts of a three-part concatenation, cut back out. */
  lemma Around<T>(a: seq<T>, b: seq<T>, c: seq<T>)
    ensures (a + b + c)[..|a|] == a && (a + b + c)[|a| + |b|..] == c
  {
  }

  /** A slice of a slice is a slice of the whole. */
  lemma SliceOfSlice<T>(s: seq<T>, a: nat, b: nat, c: nat, d: nat)
    requires a <= b <= |s| && c <= d <= b - a
    ensures s[a..b][c..d] == s[a + c..a + d]
  {
    forall k | 0 <= k < d - c
      ensures s[a..b][c..d][k] == s[a + c..a + d][k]
    {
      assert s[a..b][c..d][k] == s[a..b][c + k] == s[a + c + k];
    }
  }

  lemma Assoc<T>(a: seq<T>, b: seq<T>, c: seq<T>)
    ensures a + (b + c) == a + b + c
  {
  }

  /** A relation holding position by position survives putting one more
      related pair in front. */
  lemma PairwiseCons<A, B>(x: A, xs: seq<A>, y: B, ys: seq<B>, p: (A, B) -> bool)
    requires |xs| == |ys| && p(x, y)
    requires forall i :: 0 <= i < |xs| ==> p(xs[i], ys[i])
    ensures forall i :: 0 <= i < |xs| + 1 ==> p(([x] + xs)[i], ([y] + ys)[i])
  {
    forall i | 0 <= i < |xs| + 1
      ensures p(([x] + xs)[i], ([y] + ys)[i])
    {
      if i > 0 {
        assert ([x] + xs)[i] == xs[i - 1] && ([y] + ys)[i] == ys[i - 1];
      }
    }
  }
}
