/** Order-preserving filtering of sequences, the shape shared by the release
    groups, the retention buckets and the per-instant view used to state
    stability of the sort. Filter is defined from the end, so that a loop
    that appends one element at a time unfolds it in one step. */
module Seqs {

  function Filter<T>(s: seq<T>, p: T -> bool): seq<T>
  {
    if s == [] then []
    else Filter(s[..|s| - 1], p) + (if p(s[|s| - 1]) then [s[|s| - 1]] else [])
  }

  lemma {:induction false} FilterConcat<T>(a: seq<T>, b: seq<T>, p: T -> bool)
    ensures Filter(a + b, p) == Filter(a, p) + Filter(b, p)
    decreases |b|
  {
    if b == [] {
      assert a + b == a;
    } else {
      var b' := b[..|b| - 1];
      assert (a + b)[..|a + b| - 1] == a + b';
      FilterConcat(a, b', p);
    }
  }

  /** An element survives the filter exactly when it occurs in the input and passes. */
  lemma {:induction false} FilterMembership<T>(s: seq<T>, p: T -> bool, x: T)
    ensures x in Filter(s, p) <==> x in s && p(x)
    decreases |s|
  {
    if s != [] {
      var s' := s[..|s| - 1];
      FilterMembership(s', p, x);
      assert s == s' + [s[|s| - 1]];
    }
  }

  lemma {:induction false} FilterLength<T>(s: seq<T>, p: T -> bool)
    ensures |Filter(s, p)| <= |s|
    decreases |s|
  {
    if s != [] {
      FilterLength(s[..|s| - 1], p);
    }
  }

  /** Filtering a sequence whose every element passes gives it back. */
  lemma {:induction false} FilterAll<T>(s: seq<T>, p: T -> bool)
    requires forall i :: 0 <= i < |s| ==> p(s[i])
    ensures Filter(s, p) == s
    decreases |s|
  {
    if s != [] {
      FilterAll(s[..|s| - 1], p);
    }
  }

  /** Filtering a sequence whose every element fails gives nothing. */
  lemma {:induction false} FilterNone<T>(s: seq<T>, p: T -> bool)
    requires forall i :: 0 <= i < |s| ==> !p(s[i])
    ensures Filter(s, p) == []
    decreases |s|
  {
    if s != [] {
      FilterNone(s[..|s| - 1], p);
    }
  }

  /** How many elements pass does not depend on the order of the input. */
  lemma {:induction false} FilterCountPermutation<T>(s: seq<T>, t: seq<T>, p: T -> bool)
    requires multiset(s) == multiset(t)
    ensures |Filter(s, p)| == |Filter(t, p)|
    decreases |s|
  {
    if s == [] {
      assert |t| == |multiset(t)| == 0;
    } else {
      var x := s[|s| - 1];
      var s' := s[..|s| - 1];
      assert s == s' + [x];
      assert multiset(s') == multiset(s) - multiset{x};
      assert x in multiset(t);
      var k :| 0 <= k < |t| && t[k] == x;
      RemoveAt(t, k, p);
      FilterCountPermutation(s', t[..k] + t[k + 1..], p);
      FilterConcat(s', [x], p);
      assert Filter([x], p) == Filter([], p) + (if p(x) then [x] else []);
    }
  }

  /** Taking out the element at k removes it once from the multiset, and
      from the filter's count exactly when it passes. */
  lemma RemoveAt<T>(t: seq<T>, k: nat, p: T -> bool)
    requires k < |t|
    ensures multiset(t[..k] + t[k + 1..]) == multiset(t) - multiset{t[k]}
    ensures |Filter(t, p)| == |Filter(t[..k] + t[k + 1..], p)| + (if p(t[k]) then 1 else 0)
  {
    var x := t[k];
    assert t == t[..k] + [x] + t[k + 1..];
    assert multiset(t) == multiset(t[..k]) + multiset{x} + multiset(t[k + 1..]);
    FilterConcat(t[..k], [x], p);
    FilterConcat(t[..k] + [x], t[k + 1..], p);
    FilterConcat(t[..k], t[k + 1..], p);
    assert Filter([x], p) == Filter([], p) + (if p(x) then [x] else []);
  }
}
