/** Sequence vocabulary shared by the model: duplicate-freedom, order-preserving
    subsequences, and the list-comprehension filter `[x for x in s if p(x)]`. */
module Seqs {

  /** No element occurs twice. */
  ghost predicate Distinct<T(!new)>(s: seq<T>) {
    forall x :: multiset(s)[x] <= 1
  }

  /** `s` lists the elements of `xs`, each exactly once (an iteration order of a set). */
  ghost predicate Enumerates<T(!new)>(s: seq<T>, xs: set<T>) {
    Distinct(s) && forall x :: x in s <==> x in xs
  }

  /** `a` is obtained from `b` by deleting elements, keeping the order of the rest. */
  predicate IsSubsequence<T(==,!new)>(a: seq<T>, b: seq<T>)
    decreases |b|
  {
    a == [] || (b != [] && ((a[0] == b[0] && IsSubsequence(a[1..], b[1..])) || IsSubsequence(a, b[1..])))
  }

  /** `[x for x in s if p(x)]`: the elements satisfying `p`, in order and with their multiplicities. */
  function Filter<T(==,!new)>(s: seq<T>, p: T -> bool): (r: seq<T>)
    ensures |r| <= |s|
    ensures IsSubsequence(r, s)
    ensures forall x :: x in r <==> x in s && p(x)
    ensures forall x :: multiset(r)[x] == if p(x) then multiset(s)[x] else 0
    decreases |s|
  {
    if s == [] then []
    else
      assert s == [s[0]] + s[1..];
      if p(s[0]) then [s[0]] + Filter(s[1..], p) else Filter(s[1..], p)
  }

  lemma {:induction false} FilterIdempotent<T(!new)>(s: seq<T>, p: T -> bool)
    ensures Filter(Filter(s, p), p) == Filter(s, p)
    decreases |s|
  {
    if s != [] {
      FilterIdempotent(s[1..], p);
      if p(s[0]) {
        var t := Filter(s[1..], p);
        assert ([s[0]] + t)[1..] == t;
      }
    }
  }

  /** Filtering keeps everything when every element passes. */
  lemma {:induction false} FilterKeepsAll<T(!new)>(s: seq<T>, p: T -> bool)
    requires forall x :: x in s ==> p(x)
    ensures Filter(s, p) == s
    decreases |s|
  {
    if s != [] {
      assert s[0] in s;
      FilterKeepsAll(s[1..], p);
      assert s == [s[0]] + s[1..];
    }
  }

  /** Appending `x` when it passes, then the filtered rest, is filtering `[x] + rest`. */
  lemma AppendFiltered<T(!new)>(pre: seq<T>, x: T, rest: seq<T>, p: T -> bool)
    ensures (if p(x) then pre + [x] else pre) + Filter(rest, p) == pre + Filter([x] + rest, p)
  {
    assert ([x] + rest)[1..] == rest;
    if p(x) {
      assert (pre + [x]) + Filter(rest, p) == pre + ([x] + Filter(rest, p));
    }
  }

  /** Two predicates that agree on the elements of `s` filter it identically. */
  lemma {:induction false} FilterCongruent<T(!new)>(s: seq<T>, p: T -> bool, q: T -> bool)
    requires forall x :: x in s ==> p(x) == q(x)
    ensures Filter(s, p) == Filter(s, q)
    decreases |s|
  {
    if s != [] {
      assert s[0] in s;
      FilterCongruent(s[1..], p, q);
    }
  }

  /** A subsequence holds no element more often than the sequence it comes from. */
  lemma {:induction false} SubsequenceMultiset<T(!new)>(a: seq<T>, b: seq<T>)
    requires IsSubsequence(a, b)
    ensures multiset(a) <= multiset(b)
    decreases |b|
  {
    if a != [] {
      assert b == [b[0]] + b[1..];
      if a[0] == b[0] && IsSubsequence(a[1..], b[1..]) {
        SubsequenceMultiset(a[1..], b[1..]);
        assert a == [a[0]] + a[1..];
      } else {
        SubsequenceMultiset(a, b[1..]);
      }
    }
  }

  /** The head of a duplicate-free sequence does not recur in its tail, which is duplicate-free. */
  lemma DistinctTail<T(!new)>(s: seq<T>)
    requires Distinct(s) && s != []
    ensures s[0] !in s[1..] && Distinct(s[1..])
  {
    var t := s[1..];
    assert s == [s[0]] + t;
    assert multiset(s) == multiset{s[0]} + multiset(t);
    assert multiset(s)[s[0]] <= 1;
    assert multiset(t)[s[0]] == 0;
    forall x ensures multiset(t)[x] <= 1 {
      assert multiset(s)[x] <= 1;
    }
  }
}
