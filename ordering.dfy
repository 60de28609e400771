/** The order of a retention bucket: most recently completed first, and jobs
    completed at the same instant in the order they were discovered (a
    stable sort with "completed after" as the less-than relation). */
module Ordering {
  import opened Kube
  import opened Seqs

  /** The instant a job completed; buckets only hold jobs that have one. */
  function CompletedAt(j: Job): int
  {
    match j.status.completionTime
    case Some(t) => t
    case None => 0
  }

  predicate SortedDesc(s: seq<Job>)
  {
    forall i, k :: 0 <= i < k < |s| ==> CompletedAt(s[i]) >= CompletedAt(s[k])
  }

  /** The jobs of s that completed at instant t, in their order in s. */
  function CompletedAtInstant(s: seq<Job>, t: int): seq<Job>
  {
    Filter(s, AtInstant(t))
  }

  /** Places x after every job that completed no earlier than x. */
  function Insert(x: Job, s: seq<Job>): (r: seq<Job>)
    ensures |r| == |s| + 1
  {
    if s == [] || CompletedAt(s[0]) < CompletedAt(x) then [x] + s
    else [s[0]] + Insert(x, s[1..])
  }

  /** The stable sort, most recent first, by insertion from left to right. */
  function SortDesc(s: seq<Job>): (r: seq<Job>)
    ensures |r| == |s|
  {
    if s == [] then [] else Insert(s[|s| - 1], SortDesc(s[..|s| - 1]))
  }

  lemma {:induction false} InsertPermutes(x: Job, s: seq<Job>)
    ensures multiset(Insert(x, s)) == multiset(s) + multiset{x}
    ensures |Insert(x, s)| == |s| + 1
    decreases |s|
  {
    if s != [] && CompletedAt(s[0]) >= CompletedAt(x) {
      InsertPermutes(x, s[1..]);
      assert s == [s[0]] + s[1..];
    }
  }

  lemma {:induction false} InsertSorted(x: Job, s: seq<Job>)
    requires SortedDesc(s)
    ensures SortedDesc(Insert(x, s))
    decreases |s|
  {
    if s != [] && CompletedAt(s[0]) >= CompletedAt(x) {
      InsertSorted(x, s[1..]);
      InsertPermutes(x, s[1..]);
      var r := Insert(x, s[1..]);
      forall j | 0 <= j < |r|
        ensures CompletedAt(s[0]) >= CompletedAt(r[j])
      {
        assert r[j] in multiset(s[1..]) + multiset{x};
        if r[j] in multiset(s[1..]) {
          var m :| 0 <= m < |s[1..]| && s[1..][m] == r[j];
          assert s[m + 1] == r[j];
        }
      }
    }
  }

  /** The test "completed at instant t" as a function value. */
  function AtInstant(t: int): Job -> bool
  {
    (j: Job) => CompletedAt(j) == t
  }

  /** When x goes first, it completed strictly after every job of s, so no
      job of s shares its instant. */
  lemma InsertFrontStable(x: Job, s: seq<Job>, t: int)
    requires SortedDesc(s)
    requires s == [] || CompletedAt(s[0]) < CompletedAt(x)
    ensures Filter([x] + s, AtInstant(t)) == Filter(s, AtInstant(t)) + (if CompletedAt(x) == t then [x] else [])
  {
    var p := AtInstant(t);
    FilterConcat([x], s, p);
    assert [x] == [] + [x];
    assert Filter([x], p) == (if p(x) then [x] else []);
    if CompletedAt(x) == t {
      forall i | 0 <= i < |s| ensures !p(s[i]) {
        assert CompletedAt(s[i]) <= CompletedAt(s[0]);
      }
      FilterNone(s, p);
    }
  }

  /** Inserting x adds it after the jobs completed at its own instant, and
      leaves the order of every instant's jobs otherwise alone. */
  lemma {:induction false} InsertStable(x: Job, s: seq<Job>, t: int)
    requires SortedDesc(s)
    ensures Filter(Insert(x, s), AtInstant(t)) == Filter(s, AtInstant(t)) + (if CompletedAt(x) == t then [x] else [])
    decreases |s|
  {
    if s == [] || CompletedAt(s[0]) < CompletedAt(x) {
      InsertFrontStable(x, s, t);
    } else {
      var p := AtInstant(t);
      InsertStable(x, s[1..], t);
      FilterConcat([s[0]], Insert(x, s[1..]), p);
      FilterConcat([s[0]], s[1..], p);
      assert s == [s[0]] + s[1..];
    }
  }

  /** The sort rearranges its input. */
  lemma {:induction false} SortDescPermutes(s: seq<Job>)
    ensures multiset(SortDesc(s)) == multiset(s)
    ensures |SortDesc(s)| == |s|
    decreases |s|
  {
    if s != [] {
      var x, s' := s[|s| - 1], s[..|s| - 1];
      assert s == s' + [x];
      SortDescPermutes(s');
      InsertPermutes(x, SortDesc(s'));
    }
  }

  /** The sort yields the jobs most recent first. */
  lemma {:induction false} SortDescSorted(s: seq<Job>)
    ensures SortedDesc(SortDesc(s))
    decreases |s|
  {
    if s != [] {
      SortDescSorted(s[..|s| - 1]);
      InsertSorted(s[|s| - 1], SortDesc(s[..|s| - 1]));
    }
  }

  /** The sort is stable: the jobs of each completion instant keep their
      relative order. */
  lemma {:induction false} SortDescStable(s: seq<Job>, t: int)
    ensures CompletedAtInstant(SortDesc(s), t) == CompletedAtInstant(s, t)
    decreases |s|
  {
    if s != [] {
      var x, s' := s[|s| - 1], s[..|s| - 1];
      assert s == s' + [x];
      SortDescStable(s', t);
      SortDescSorted(s');
      InsertStable(x, SortDesc(s'), t);
      FilterConcat(s', [x], AtInstant(t));
      assert [x] == [] + [x];
      assert Filter([x], AtInstant(t)) == (if CompletedAt(x) == t then [x] else []);
    }
  }

  /** Inserting x at position j of a sorted sequence whose jobs before j
      completed no earlier than x and from j on strictly earlier. */
  lemma {:induction false} InsertAt(x: Job, s: seq<Job>, j: nat)
    requires SortedDesc(s) && j <= |s|
    requires j > 0 ==> CompletedAt(s[j - 1]) >= CompletedAt(x)
    requires forall k :: j <= k < |s| ==> CompletedAt(s[k]) < CompletedAt(x)
    ensures Insert(x, s) == s[..j] + [x] + s[j..]
    decreases j
  {
    if j > 0 {
      InsertAt(x, s[1..], j - 1);
      assert s[..j] == [s[0]] + s[1..][..j - 1];
      assert s[j..] == s[1..][j - 1..];
    }
  }

  /** One step of the insertion sort: moves a[i] left past the jobs before
      it that completed strictly before it, and returns where it landed. */
  method InsertInPlace(a: array<Job>, i: nat) returns (j: nat)
    requires i < a.Length
    modifies a
    ensures j <= i
    ensures a[..i + 1] == old(a[..i])[..j] + [old(a[i])] + old(a[..i])[j..]
    ensures a[i + 1..] == old(a[i + 1..])
    ensures j > 0 ==> CompletedAt(old(a[j - 1])) >= CompletedAt(old(a[i]))
    ensures forall k :: j <= k < i ==> CompletedAt(old(a[k])) < CompletedAt(old(a[i]))
  {
    ghost var before := a[..i];
    ghost var x := a[i];
    j := i;
    while j > 0 && CompletedAt(a[j - 1]) < CompletedAt(a[j])
      invariant 0 <= j <= i
      invariant a[j] == x
      invariant forall k :: 0 <= k < j ==> a[k] == before[k]
      invariant forall k :: j < k <= i ==> a[k] == before[k - 1]
      invariant forall k :: i < k < a.Length ==> a[k] == old(a[k])
      invariant forall k :: j <= k < i ==> CompletedAt(before[k]) < CompletedAt(x)
    {
      a[j - 1], a[j] := a[j], a[j - 1];
      j := j - 1;
    }
    Shifted(a[..i + 1], before, x, j);
  }

  lemma Shifted(r: seq<Job>, s: seq<Job>, x: Job, j: nat)
    requires |r| == |s| + 1 && j <= |s| && r[j] == x
    requires forall k :: 0 <= k < j ==> r[k] == s[k]
    requires forall k :: j < k < |r| ==> r[k] == s[k - 1]
    ensures r == s[..j] + [x] + s[j..]
  {
  }

  /** `sort.SliceStable` on a bucket, as an in-place insertion sort. */
  method SortByCompletionDesc(a: array<Job>)
    modifies a
    ensures a[..] == SortDesc(old(a[..]))
  {
    for i := 0 to a.Length
      invariant a[..i] == SortDesc(old(a[..])[..i])
      invariant a[i..] == old(a[..])[i..]
    {
      SortDescSorted(old(a[..])[..i]);
      ghost var sorted, x := a[..i], a[i];
      var j := InsertInPlace(a, i);
      InsertAt(x, sorted, j);
      assert old(a[..])[..i + 1] == old(a[..])[..i] + [x];
      assert old(a[..])[..i + 1][..i] == old(a[..])[..i];
    }
    assert old(a[..])[..a.Length] == old(a[..]);
  }
}
