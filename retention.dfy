/** Retention within one release group: finished jobs go to a succeeded or a
    failed bucket, each bucket is ordered most recent first, and every job
    past the 20 most recent of a bucket is deleted. Delete errors are
    ignored, so the deletes issued do not depend on the API server's answers
    and the model records only the calls. */
module Retention {
  import opened Kube
  import opened Seqs
  import opened Ordering

  const RetentionLimit: nat := 20

  /** Goes to the succeeded bucket: not active, succeeded, completed. */
  predicate IsSucceededRun(j: Job)
  {
    !(j.status.active > 0) && j.status.succeeded > 0 && j.status.completionTime.Some?
  }

  /** Goes to the failed bucket: not active, not in the succeeded bucket,
      failed, completed. */
  predicate IsFailedRun(j: Job)
  {
    && !(j.status.active > 0)
    && !(j.status.succeeded > 0 && j.status.completionTime.Some?)
    && j.status.failed > 0 && j.status.completionTime.Some?
  }

  function SucceededBucket(group: seq<Job>): seq<Job>
  {
    Filter(group, IsSucceededRun)
  }

  function FailedBucket(group: seq<Job>): seq<Job>
  {
    Filter(group, IsFailedRun)
  }

  /** The loop that fills `succeededJobs` and `failedJobs`. */
  method Partition(group: seq<Job>) returns (succeeded: seq<Job>, failed: seq<Job>)
    ensures succeeded == SucceededBucket(group)
    ensures failed == FailedBucket(group)
  {
    succeeded, failed := [], [];
    for i := 0 to |group|
      invariant succeeded == SucceededBucket(group[..i])
      invariant failed == FailedBucket(group[..i])
    {
      var job := group[i];
      assert group[..i + 1][..i] == group[..i];
      if job.status.active > 0 {
        continue;
      }
      if job.status.succeeded > 0 && job.status.completionTime.Some? {
        succeeded := succeeded + [job];
      } else if job.status.failed > 0 && job.status.completionTime.Some? {
        failed := failed + [job];
      }
    }
    assert group[..|group|] == group;
  }

  /** The buckets: an active job is in neither, a job is in the succeeded
      bucket iff it succeeded and completed, in the failed bucket iff it is
      not in the succeeded one, failed and completed; so in at most one. */
  lemma BucketMembership(group: seq<Job>, j: Job)
    requires j in group
    ensures j in SucceededBucket(group) <==>
      j.status.active <= 0 && j.status.succeeded > 0 && j.status.completionTime.Some?
    ensures j in FailedBucket(group) <==>
      j.status.active <= 0 && j.status.succeeded <= 0 && j.status.failed > 0 && j.status.completionTime.Some?
    ensures !(j in SucceededBucket(group) && j in FailedBucket(group))
  {
    FilterMembership(group, IsSucceededRun, j);
    FilterMembership(group, IsFailedRun, j);
  }

  /** The jobs a bucket loses: all but its 20 most recent. */
  function Excess(bucket: seq<Job>): seq<Job>
  {
    if |bucket| > RetentionLimit then SortDesc(bucket)[RetentionLimit..] else []
  }

  /** The jobs a bucket keeps. */
  function Kept(bucket: seq<Job>): seq<Job>
  {
    if |bucket| > RetentionLimit then SortDesc(bucket)[..RetentionLimit] else bucket
  }

  function DeleteCalls(jobs: seq<Job>): (calls: seq<Call>)
    ensures |calls| == |jobs|
    ensures forall i :: 0 <= i < |jobs| ==> calls[i] == JobDelete(jobs[i].namespace, jobs[i].name, DefaultPropagation)
  {
    if jobs == [] then []
    else DeleteCalls(jobs[..|jobs| - 1]) + [JobDelete(jobs[|jobs| - 1].namespace, jobs[|jobs| - 1].name, DefaultPropagation)]
  }

  /** The deletes of one pass over a release group: the failed bucket's
      excess, then the succeeded bucket's. */
  function RetentionDeletes(group: seq<Job>): seq<Call>
  {
    DeleteCalls(Excess(FailedBucket(group)) + Excess(SucceededBucket(group)))
  }

  /** Sorts one bucket when it is over the limit and deletes the jobs from
      position 20 on, in order. */
  method PruneBucket(bucket: seq<Job>) returns (deletes: seq<Call>)
    ensures deletes == DeleteCalls(Excess(bucket))
  {
    deletes := [];
    if |bucket| > RetentionLimit {
      var a := new Job[|bucket|](i requires 0 <= i < |bucket| => bucket[i]);
      assert a[..] == bucket;
      SortByCompletionDesc(a);
      for i := RetentionLimit to a.Length
        invariant deletes == DeleteCalls(a[RetentionLimit..i])
      {
        assert a[RetentionLimit..i + 1][..i - RetentionLimit] == a[RetentionLimit..i];
        deletes := deletes + [JobDelete(a[i].namespace, a[i].name, DefaultPropagation)];
      }
      assert a[RetentionLimit..a.Length] == a[..][RetentionLimit..];
    }
  }

  /** The per-release goroutine body of the cleanup pass. */
  method EnforceRetention(group: seq<Job>) returns (deletes: seq<Call>)
    ensures deletes == RetentionDeletes(group)
  {
    var succeeded, failed := Partition(group);
    var failedDeletes := PruneBucket(failed);
    var succeededDeletes := PruneBucket(succeeded);
    deletes := failedDeletes + succeededDeletes;
    DeleteCallsConcat(Excess(failed), Excess(succeeded));
  }

  lemma {:induction false} DeleteCallsConcat(a: seq<Job>, b: seq<Job>)
    ensures DeleteCalls(a + b) == DeleteCalls(a) + DeleteCalls(b)
  {
  }

  /** A bucket of at most 20 jobs loses nothing; a larger one loses exactly
      its size minus 20, namely the jobs at positions 20 and on of the
      stable most-recent-first order. The kept and the lost jobs together
      are the bucket, and no lost job completed after a kept one. */
  lemma ExcessIsOldest(bucket: seq<Job>)
    ensures |bucket| <= RetentionLimit ==> Excess(bucket) == [] && Kept(bucket) == bucket
    ensures |bucket| > RetentionLimit ==> |Excess(bucket)| == |bucket| - RetentionLimit && |Kept(bucket)| == RetentionLimit
    ensures multiset(Kept(bucket)) + multiset(Excess(bucket)) == multiset(bucket)
    ensures forall k, d :: 0 <= k < |Kept(bucket)| && 0 <= d < |Excess(bucket)| ==>
      CompletedAt(Kept(bucket)[k]) >= CompletedAt(Excess(bucket)[d])
  {
    SortDescPermutes(bucket);
    SortDescSorted(bucket);
    if |bucket| > RetentionLimit {
      var sorted := SortDesc(bucket);
      assert sorted == Kept(bucket) + Excess(bucket);
      forall k, d | 0 <= k < |Kept(bucket)| && 0 <= d < |Excess(bucket)|
        ensures CompletedAt(Kept(bucket)[k]) >= CompletedAt(Excess(bucket)[d])
      {
        assert Kept(bucket)[k] == sorted[k] && Excess(bucket)[d] == sorted[RetentionLimit + d];
      }
    }
  }

  /** Every job of a bucket's excess is a job of the bucket. */
  lemma ExcessFromBucket(bucket: seq<Job>, j: Job)
    requires j in Excess(bucket)
    ensures j in bucket
  {
    ExcessIsOldest(bucket);
    assert j in multiset(Excess(bucket));
    assert j in multiset(bucket);
  }

  /** Only jobs of the group that are finished and not active are deleted. */
  lemma DeletesOnlyFinished(group: seq<Job>, j: Job)
    requires j in Excess(FailedBucket(group)) + Excess(SucceededBucket(group))
    ensures j in group && j.status.active <= 0 && j.status.completionTime.Some?
  {
    if j in Excess(FailedBucket(group)) {
      ExcessFromBucket(FailedBucket(group), j);
      FilterMembership(group, IsFailedRun, j);
    } else {
      ExcessFromBucket(SucceededBucket(group), j);
      FilterMembership(group, IsSucceededRun, j);
    }
  }

  /** A bucket whose jobs all pass p keeps them all under p's filter. */
  lemma ExcessAll(bucket: seq<Job>, p: Job -> bool)
    requires forall i :: 0 <= i < |bucket| ==> p(bucket[i])
    ensures Filter(Excess(bucket), p) == Excess(bucket)
  {
    forall i | 0 <= i < |Excess(bucket)| ensures p(Excess(bucket)[i]) {
      ExcessFromBucket(bucket, Excess(bucket)[i]);
    }
    FilterAll(Excess(bucket), p);
  }

  /** A bucket whose jobs all fail p loses none under p's filter. */
  lemma ExcessNone(bucket: seq<Job>, p: Job -> bool)
    requires forall i :: 0 <= i < |bucket| ==> !p(bucket[i])
    ensures Filter(Excess(bucket), p) == []
  {
    forall i | 0 <= i < |Excess(bucket)| ensures !p(Excess(bucket)[i]) {
      ExcessFromBucket(bucket, Excess(bucket)[i]);
    }
    FilterNone(Excess(bucket), p);
  }

  /** Re-running the pass on what survives deletes nothing. The survivors
      are the group less the deleted jobs, listed in any order. */
  lemma RetentionIdempotent(group: seq<Job>, survivors: seq<Job>)
    requires multiset(survivors) + multiset(Excess(FailedBucket(group)) + Excess(SucceededBucket(group))) == multiset(group)
    ensures RetentionDeletes(survivors) == []
  {
    var failed, succeeded := FailedBucket(group), SucceededBucket(group);
    var lost := Excess(failed) + Excess(succeeded);
    assert multiset(survivors + lost) == multiset(group);
    forall i | 0 <= i < |failed| ensures IsFailedRun(failed[i]) && !IsSucceededRun(failed[i]) {
      FilterMembership(group, IsFailedRun, failed[i]);
    }
    forall i | 0 <= i < |succeeded| ensures IsSucceededRun(succeeded[i]) && !IsFailedRun(succeeded[i]) {
      FilterMembership(group, IsSucceededRun, succeeded[i]);
    }
    ExcessAll(failed, IsFailedRun);
    ExcessNone(failed, IsSucceededRun);
    ExcessAll(succeeded, IsSucceededRun);
    ExcessNone(succeeded, IsFailedRun);
    ExcessIsOldest(failed);
    ExcessIsOldest(succeeded);
    KeptCount(group, survivors, lost, IsFailedRun, Excess(failed), Excess(succeeded));
    KeptCount(group, survivors, lost, IsSucceededRun, Excess(failed), Excess(succeeded));
    assert |FailedBucket(survivors)| <= RetentionLimit;
    assert |SucceededBucket(survivors)| <= RetentionLimit;
  }

  lemma KeptCount(group: seq<Job>, survivors: seq<Job>, lost: seq<Job>, p: Job -> bool, a: seq<Job>, b: seq<Job>)
    requires lost == a + b
    requires multiset(survivors + lost) == multiset(group)
    ensures |Filter(group, p)| == |Filter(survivors, p)| + |Filter(a, p)| + |Filter(b, p)|
  {
    FilterCountPermutation(group, survivors + lost, p);
    FilterConcat(survivors, lost, p);
    FilterConcat(a, b, p);
  }
}
