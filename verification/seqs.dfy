/** Generic facts about sequences: filtering, subsequences, duplicates and flattening. */
module Seqs {

  /** The elements of `s` that satisfy `p`, in their original order (JavaScript's `Array.prototype.filter`). */
  function Filter<T(==,!new)>(s: seq<T>, p: T -> bool): (r: seq<T>)
    ensures |r| <= |s|
    ensures forall i :: 0 <= i < |r| ==> p(r[i])
    ensures forall x :: x in r <==> x in s && p(x)
    decreases |s|
  {
    if |s| == 0 then []
    else (if p(s[0]) then [s[0]] else []) + Filter(s[1..], p)
  }

  /** A filter keeps every copy of an element that passes and no copy of one that fails. */
  lemma {:induction false} FilterCounts<T(!new)>(s: seq<T>, p: T -> bool)
    ensures forall x :: multiset(Filter(s, p))[x] == if p(x) then multiset(s)[x] else 0
    decreases |s|
  {
    if |s| > 0 {
      var t := s[1..];
      assert s == [s[0]] + t;
      FilterCounts(t, p);
      assert multiset(s) == multiset([s[0]]) + multiset(t);
      if p(s[0]) {
        FilterKeep(s[0], t, p);
        assert multiset(Filter(s, p)) == multiset([s[0]]) + multiset(Filter(t, p));
      } else {
        FilterDrop(s[0], t, p);
      }
    }
  }

  /** `f` applied to every element, in order (JavaScript's `Array.prototype.map`). */
  function Map<A, B>(s: seq<A>, f: A -> B): seq<B> {
    seq(|s|, i requires 0 <= i < |s| => f(s[i]))
  }

  /** The positions of `Map`, as plain facts for proofs that need them. */
  lemma MapAt<A, B>(s: seq<A>, f: A -> B)
    ensures |Map(s, f)| == |s|
    ensures forall i :: 0 <= i < |s| ==> Map(s, f)[i] == f(s[i])
  {
  }

  lemma MapAppend<A, B>(a: seq<A>, b: seq<A>, f: A -> B)
    ensures Map(a + b, f) == Map(a, f) + Map(b, f)
  {
  }

  /** `a` can be obtained from `b` by deleting elements, without reordering the rest. */
  predicate IsSubseq<T(==,!new)>(a: seq<T>, b: seq<T>)
    decreases |b|
  {
    if |a| == 0 then true
    else if |b| == 0 then false
    else (a[0] == b[0] && IsSubseq(a[1..], b[1..])) || IsSubseq(a, b[1..])
  }

  /** No element occurs twice. */
  predicate NoDups<T(==,!new)>(s: seq<T>) {
    forall i, j :: 0 <= i < j < |s| ==> s[i] != s[j]
  }

  /** The first position of `x` in `s`, or -1 when it is absent (JavaScript's `Array.prototype.indexOf`). */
  function IndexOf<T(==)>(s: seq<T>, x: T): (r: int)
    ensures -1 <= r < |s|
    ensures r == -1 <==> x !in s
    ensures 0 <= r ==> s[r] == x && forall j :: 0 <= j < r ==> s[j] != x
    decreases |s|
  {
    if |s| == 0 then -1
    else if s[0] == x then 0
    else
      var k := IndexOf(s[1..], x);
      if k == -1 then -1 else k + 1
  }

  /** The distinct elements of `s`, each where it first appears (`[...new Set(s)]`). */
  function Dedup<T(==,!new)>(s: seq<T>): (r: seq<T>)
    ensures NoDups(r)
    ensures forall x :: x in r <==> x in s
    decreases |s|
  {
    if |s| == 0 then []
    else
      var r := Dedup(s[..|s| - 1]);
      assert s == s[..|s| - 1] + [s[|s| - 1]];
      if s[|s| - 1] in r then r else r + [s[|s| - 1]]
  }

  /** What a subsequence holds, the sequence holds. */
  lemma {:induction false} SubseqMembers<T(!new)>(a: seq<T>, b: seq<T>)
    requires IsSubseq(a, b)
    ensures forall x :: x in a ==> x in b
    decreases |b|
  {
    if |a| > 0 {
      if a[0] == b[0] && IsSubseq(a[1..], b[1..]) {
        SubseqMembers(a[1..], b[1..]);
        assert forall x :: x in a ==> x == a[0] || x in a[1..];
      } else {
        SubseqMembers(a, b[1..]);
      }
    }
  }

  /** A subsequence of a sequence without repeats has none either. */
  lemma {:induction false} SubseqNoDups<T(!new)>(a: seq<T>, b: seq<T>)
    requires IsSubseq(a, b) && NoDups(b)
    ensures NoDups(a)
    decreases |b|
  {
    if |a| > 0 {
      assert NoDups(b[1..]);
      if a[0] == b[0] && IsSubseq(a[1..], b[1..]) {
        SubseqNoDups(a[1..], b[1..]);
        SubseqMembers(a[1..], b[1..]);
        assert b[0] !in b[1..];
        forall i, j | 0 <= i < j < |a|
          ensures a[i] != a[j]
        {
          if i == 0 {
            assert a[j] == a[1..][j - 1];
          } else {
            assert a[i] == a[1..][i - 1] && a[j] == a[1..][j - 1];
          }
        }
      } else {
        SubseqNoDups(a, b[1..]);
      }
    }
  }

  /** Filtering a sequence with a known first element. */
  lemma FilterCons<T(!new)>(a: T, s: seq<T>, p: T -> bool)
    ensures Filter([a] + s, p) == (if p(a) then [a] else []) + Filter(s, p)
  {
    assert ([a] + s)[1..] == s;
  }

  /** A first element that passes is kept in front. */
  lemma FilterKeep<T(!new)>(a: T, s: seq<T>, p: T -> bool)
    requires p(a)
    ensures Filter([a] + s, p) == [a] + Filter(s, p)
  {
    assert ([a] + s)[1..] == s;
  }

  /** A first element that fails is dropped. */
  lemma FilterDrop<T(!new)>(a: T, s: seq<T>, p: T -> bool)
    requires !p(a)
    ensures Filter([a] + s, p) == Filter(s, p)
  {
    assert ([a] + s)[1..] == s;
  }

  /** Filtering distributes over concatenation: it never moves an element across another. */
  lemma {:induction false} FilterAppend<T(!new)>(a: seq<T>, b: seq<T>, p: T -> bool)
    ensures Filter(a + b, p) == Filter(a, p) + Filter(b, p)
    decreases |a|
  {
    if |a| == 0 {
      assert a + b == b;
    } else {
      var t := a[1..];
      assert a == [a[0]] + t;
      assert a + b == [a[0]] + (t + b);
      FilterAppend(t, b, p);
      FilterAppendStep(a[0], t, t + b, b, p);
    }
  }

  /** Consing onto a concatenation conses onto its first part. */
  lemma ConsAppend<T>(x: T, a: seq<T>, b: seq<T>)
    ensures [x] + (a + b) == ([x] + a) + b
  {
  }

  /** The inductive step of FilterAppend, given the claim for the tail `t` with `u == t + b`. */
  lemma FilterAppendStep<T(!new)>(x: T, t: seq<T>, u: seq<T>, b: seq<T>, p: T -> bool)
    requires Filter(u, p) == Filter(t, p) + Filter(b, p)
    ensures Filter([x] + u, p) == Filter([x] + t, p) + Filter(b, p)
  {
    if p(x) {
      var ft, fb := Filter(t, p), Filter(b, p);
      calc {
        Filter([x] + u, p);
        { FilterKeep(x, u, p); }
        [x] + (ft + fb);
        { ConsAppend(x, ft, fb); }
        ([x] + ft) + fb;
        { FilterKeep(x, t, p); }
        Filter([x] + t, p) + fb;
      }
    } else {
      calc {
        Filter([x] + u, p);
        { FilterDrop(x, u, p); }
        Filter(u, p);
        { FilterDrop(x, t, p); }
        Filter([x] + t, p) + Filter(b, p);
      }
    }
  }

  /** A filter keeps the relative order of what it keeps. */
  lemma {:induction false} FilterIsSubseq<T(!new)>(s: seq<T>, p: T -> bool)
    ensures IsSubseq(Filter(s, p), s)
    decreases |s|
  {
    if |s| > 0 {
      FilterIsSubseq(s[1..], p);
      var rest := Filter(s[1..], p);
      if p(s[0]) {
        assert Filter(s, p) == [s[0]] + rest;
        assert ([s[0]] + rest)[1..] == rest;
      } else {
        assert Filter(s, p) == rest;
      }
    }
  }

  /** A filter that every element passes is the identity. */
  lemma {:induction false} FilterAllPass<T(!new)>(s: seq<T>, p: T -> bool)
    requires forall i :: 0 <= i < |s| ==> p(s[i])
    ensures Filter(s, p) == s
    decreases |s|
  {
    if |s| > 0 {
      FilterAllPass(s[1..], p);
      assert [s[0]] + s[1..] == s;
    }
  }

  /** Two filters whose predicates exclude each other split the filter by their disjunction. */
  lemma FilterDisjointMultiset<T(!new)>(s: seq<T>, p: T -> bool, q: T -> bool, both: T -> bool)
    requires forall x :: both(x) == (p(x) || q(x))
    requires forall x :: !(p(x) && q(x))
    ensures multiset(Filter(s, both)) == multiset(Filter(s, p)) + multiset(Filter(s, q))
  {
    forall x
      ensures multiset(Filter(s, both))[x] == multiset(Filter(s, p))[x] + multiset(Filter(s, q))[x]
    {
      FilterCounts(s, both);
      FilterCounts(s, p);
      FilterCounts(s, q);
      var n := multiset(s)[x];
      assert multiset(Filter(s, both))[x] == if both(x) then n else 0;
      assert multiset(Filter(s, p))[x] == if p(x) then n else 0;
      assert multiset(Filter(s, q))[x] == if q(x) then n else 0;
    }
  }

  /** Extending a sequence leaves the first position of what it already holds unchanged. */
  lemma IndexOfPrefix<T>(s: seq<T>, n: nat, x: T)
    requires n <= |s| && x in s[..n]
    ensures IndexOf(s, x) == IndexOf(s[..n], x)
  {
    var k := IndexOf(s[..n], x);
    assert s[k] == x;
    assert forall j :: 0 <= j < k ==> s[j] == s[..n][j] != x;
  }

  /** `Dedup` keeps the order in which elements first appear. */
  lemma {:induction false} DedupFirstAppearance<T(!new)>(s: seq<T>)
    ensures forall i, j :: 0 <= i < j < |Dedup(s)| ==> IndexOf(s, Dedup(s)[i]) < IndexOf(s, Dedup(s)[j])
    decreases |s|
  {
    if |s| > 0 {
      var init := s[..|s| - 1];
      var last := s[|s| - 1];
      var r := Dedup(init);
      DedupFirstAppearance(init);
      assert init == s[..|s| - 1];
      forall i | 0 <= i < |r|
        ensures IndexOf(s, r[i]) == IndexOf(init, r[i])
      {
        IndexOfPrefix(s, |s| - 1, r[i]);
      }
      if last !in r {
        assert last !in init;
        assert IndexOf(s, last) == |s| - 1;
        assert Dedup(s) == r + [last];
      }
    }
  }
}
