/**
 * Sequence operations shared by the model: the JavaScript array methods the
 * front end builds its state transitions from (`filter`, index-based `filter`
 * and `map`), and the notion of an order-preserving subsequence.
 */
module Seqs {

  /** `s.filter(p)`: the elements of `s` that satisfy `p`, in their original order. */
  function Filter<T>(s: seq<T>, p: T -> bool): (r: seq<T>)
    ensures |r| <= |s|
    ensures forall i :: 0 <= i < |r| ==> r[i] in s && p(r[i])
    ensures forall i :: 0 <= i < |s| && p(s[i]) ==> s[i] in r
  {
    if s == [] then []
    else (if p(s[0]) then [s[0]] else []) + Filter(s[1..], p)
  }

  /** `a` can be obtained from `b` by deleting elements, without reordering. */
  predicate IsSubsequence<T(==)>(a: seq<T>, b: seq<T>)
  {
    a == [] || (b != [] && ((a[0] == b[0] && IsSubsequence(a[1..], b[1..])) || IsSubsequence(a, b[1..])))
  }

  lemma {:induction false} FilterIsSubsequence<T>(s: seq<T>, p: T -> bool)
    ensures IsSubsequence(Filter(s, p), s)
  {
    if s != [] {
      FilterIsSubsequence(s[1..], p);
      var r := Filter(s, p);
      if p(s[0]) {
        assert r[0] == s[0] && r[1..] == Filter(s[1..], p);
      } else {
        assert r == Filter(s[1..], p);
      }
    }
  }

  /** Filtering commutes with concatenation. */
  lemma {:induction false} FilterAppend<T>(a: seq<T>, b: seq<T>, p: T -> bool)
    ensures Filter(a + b, p) == Filter(a, p) + Filter(b, p)
  {
    if a == [] {
      assert a + b == b;
    } else {
      assert (a + b)[0] == a[0] && (a + b)[1..] == a[1..] + b;
      FilterAppend(a[1..], b, p);
    }
  }

  /** Every element that satisfies `p` is kept as often as it occurs; every other one is dropped. */
  lemma {:induction false} FilterMultiplicity<T>(s: seq<T>, p: T -> bool, x: T)
    ensures multiset(Filter(s, p))[x] == if p(x) then multiset(s)[x] else 0
  {
    if s != [] {
      FilterMultiplicity(s[1..], p, x);
      assert s == [s[0]] + s[1..];
      assert multiset(s) == multiset([s[0]]) + multiset(s[1..]);
    }
  }

  /** Two successive filters are one filter by the conjunction. */
  lemma {:induction false} FilterFuse<T>(s: seq<T>, p: T -> bool, q: T -> bool, pq: T -> bool)
    requires forall x :: pq(x) == (p(x) && q(x))
    ensures Filter(Filter(s, p), q) == Filter(s, pq)
  {
    if s != [] {
      FilterFuse(s[1..], p, q, pq);
      var head := if p(s[0]) then [s[0]] else [];
      FilterAppend(head, Filter(s[1..], p), q);
    }
  }

  /** Tests that agree on every element filter alike. */
  lemma {:induction false} FilterSameTest<T>(s: seq<T>, p: T -> bool, q: T -> bool)
    requires forall x :: p(x) == q(x)
    ensures Filter(s, p) == Filter(s, q)
  {
    if s != [] {
      FilterSameTest(s[1..], p, q);
    }
  }

  /** A filter that every element passes changes nothing. */
  lemma {:induction false} FilterKeepsAll<T>(s: seq<T>, p: T -> bool)
    requires forall i :: 0 <= i < |s| ==> p(s[i])
    ensures Filter(s, p) == s
  {
    if s != [] {
      FilterKeepsAll(s[1..], p);
    }
  }

  /** A filter that no element passes leaves nothing. */
  lemma {:induction false} FilterDropsAll<T>(s: seq<T>, p: T -> bool)
    requires forall i :: 0 <= i < |s| ==> !p(s[i])
    ensures Filter(s, p) == []
  {
    if s != [] {
      FilterDropsAll(s[1..], p);
    }
  }

  /** `s.filter((_, i) => i !== k)`: drops position `k`; any other `k` keeps the list as it is. */
  function RemoveAt<T>(s: seq<T>, k: int): (r: seq<T>)
    ensures 0 <= k < |s| ==> |r| == |s| - 1 && r[..k] == s[..k] && r[k..] == s[k + 1..]
    ensures !(0 <= k < |s|) ==> r == s
  {
    if s == [] then []
    else if k == 0 then s[1..]
    else [s[0]] + RemoveAt(s[1..], k - 1)
  }

  /** `s.map((v, i) => i === k ? f(v) : v)`: applies `f` at position `k` only. */
  function MapAt<T>(s: seq<T>, k: int, f: T -> T): (r: seq<T>)
    ensures |r| == |s|
    ensures forall j :: 0 <= j < |s| && j != k ==> r[j] == s[j]
    ensures 0 <= k < |s| ==> r[k] == f(s[k])
  {
    if s == [] then []
    else [if k == 0 then f(s[0]) else s[0]] + MapAt(s[1..], k - 1, f)
  }

  /** The length of the longest prefix whose elements satisfy `p`. */
  function LeadingCount<T>(s: seq<T>, p: T -> bool): (n: nat)
    ensures n <= |s|
    ensures forall i :: 0 <= i < n ==> p(s[i])
    ensures n < |s| ==> !p(s[n])
  {
    if s != [] && p(s[0]) then 1 + LeadingCount(s[1..], p) else 0
  }

  /** The length of the longest suffix whose elements satisfy `p`. */
  function TrailingCount<T>(s: seq<T>, p: T -> bool): (n: nat)
    ensures n <= |s|
    ensures forall i :: |s| - n <= i < |s| ==> p(s[i])
    ensures n < |s| ==> !p(s[|s| - n - 1])
  {
    if s != [] && p(s[|s| - 1]) then 1 + TrailingCount(s[..|s| - 1], p) else 0
  }

  /** Drops the longest prefix satisfying `p`, then the longest suffix satisfying `p` of what is left. */
  function TrimBoth<T>(s: seq<T>, p: T -> bool): (r: seq<T>)
    ensures |r| <= |s|
    ensures r == [] || (!p(r[0]) && !p(r[|r| - 1]))
  {
    var t := s[LeadingCount(s, p)..];
    t[..|t| - TrailingCount(t, p)]
  }

  /** Trimming keeps a contiguous middle of `s` and removes only elements satisfying `p`, at the two ends. */
  lemma TrimBothRemovesOnlyEnds<T>(s: seq<T>, p: T -> bool)
    ensures var r, k := TrimBoth(s, p), LeadingCount(s, p);
      && k + |r| <= |s|
      && (forall i :: 0 <= i < |r| ==> r[i] == s[k + i])
      && (forall i :: 0 <= i < k ==> p(s[i]))
      && (forall i :: k + |r| <= i < |s| ==> p(s[i]))
  {
    var k := LeadingCount(s, p);
    var t := s[k..];
    var r := TrimBoth(s, p);
    forall i | k + |r| <= i < |s|
      ensures p(s[i])
    {
      assert s[i] == t[i - k];
    }
  }

  /** Trimming leaves `s` alone exactly when neither end of `s` satisfies `p`. */
  lemma TrimBothFixesExactly<T>(s: seq<T>, p: T -> bool)
    ensures TrimBoth(s, p) == s <==> s == [] || (!p(s[0]) && !p(s[|s| - 1]))
  {
    if s != [] && !p(s[0]) && !p(s[|s| - 1]) {
      assert LeadingCount(s, p) == 0;
      assert TrailingCount(s, p) == 0;
    }
  }
}
