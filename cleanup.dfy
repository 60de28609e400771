/** One cleanup pass (`cleanupJobs`): list every namespace, list every job of
    each namespace, group the jobs by release and prune each group. The
    source runs one goroutine per namespace and one per release group; here
    the namespaces are visited in listing order and the groups in an
    arbitrary order, one after the other. */
module Cleanup {
  import opened Kube
  import opened Pagination
  import opened Release
  import opened Retention

  /** The cluster as one pass sees it: the answers to the namespace listing,
      and per namespace the answers to its job listing (a namespace without
      a script never answers). */
  datatype Cluster = Cluster(namespaceScript: seq<Reply<string>>, jobScripts: map<string, seq<Reply<Job>>>)

  function JobScript(cluster: Cluster, namespace: string): seq<Reply<Job>>
  {
    if namespace in cluster.jobScripts then cluster.jobScripts[namespace] else []
  }

  /** The namespace enumeration (create.go, first retry loop). */
  method ListNamespaces(script: seq<Reply<string>>) returns (namespaces: seq<string>, calls: seq<Call>)
    ensures namespaces == Enumerated(script)
    ensures |calls| == CallCount(script) <= |script| + MaxRetries
    ensures forall i :: 0 <= i < |calls| ==> calls[i] == NamespaceList(CursorAt(script, i))
  {
    var cursors;
    namespaces, cursors := Paginate(script);
    calls := seq(|cursors|, i requires 0 <= i < |cursors| => NamespaceList(cursors[i]));
  }

  /** The job enumeration of one namespace (the per-namespace goroutine). */
  method ListJobsIn(namespace: string, script: seq<Reply<Job>>) returns (jobs: seq<Job>, calls: seq<Call>)
    ensures jobs == Enumerated(script)
    ensures |calls| == CallCount(script) <= |script| + MaxRetries
    ensures forall i :: 0 <= i < |calls| ==> calls[i] == JobList(namespace, "", 0, CursorAt(script, i))
  {
    var cursors;
    jobs, cursors := Paginate(script);
    calls := seq(|cursors|, i requires 0 <= i < |cursors| => JobList(namespace, "", 0, cursors[i]));
  }

  /** The merged job list: each namespace's jobs in page order, namespace
      after namespace. */
  function Discovered(cluster: Cluster, namespaces: seq<string>): seq<Job>
  {
    if namespaces == [] then []
    else Discovered(cluster, namespaces[..|namespaces| - 1]) + Enumerated(JobScript(cluster, namespaces[|namespaces| - 1]))
  }

  /** The deletes of the per-release passes, taken in the order `keys`. */
  function PassDeletes(jobs: seq<Job>, keys: seq<string>): seq<Call>
  {
    if keys == [] then []
    else PassDeletes(jobs, keys[..|keys| - 1]) + RetentionDeletes(Members(jobs, keys[|keys| - 1]))
  }

  /** The two enumerations of the pass: namespaces, then the jobs of each. */
  method DiscoverJobs(cluster: Cluster) returns (jobs: seq<Job>)
    ensures jobs == Discovered(cluster, Enumerated(cluster.namespaceScript))
  {
    var namespaces, _ := ListNamespaces(cluster.namespaceScript);
    jobs := [];
    for n := 0 to |namespaces|
      invariant jobs == Discovered(cluster, namespaces[..n])
    {
      var found, _ := ListJobsIn(namespaces[n], JobScript(cluster, namespaces[n]));
      DiscoveredStep(cluster, namespaces, n);
      jobs := jobs + found;
    }
    assert namespaces[..|namespaces|] == namespaces;
  }

  lemma DiscoveredStep(cluster: Cluster, namespaces: seq<string>, n: nat)
    requires n < |namespaces|
    ensures Discovered(cluster, namespaces[..n + 1]) ==
      Discovered(cluster, namespaces[..n]) + Enumerated(JobScript(cluster, namespaces[n]))
  {
    assert namespaces[..n + 1][..n] == namespaces[..n];
  }

  /** The keys of a map in some order, each once: what `range` over a Go map
      visits (its order is unspecified). */
  method KeysInSomeOrder(releases: map<string, seq<Job>>) returns (keys: seq<string>)
    ensures forall i, k :: 0 <= i < k < |keys| ==> keys[i] != keys[k]
    ensures forall i :: 0 <= i < |keys| ==> keys[i] in releases
    ensures forall key :: key in releases ==> key in keys
  {
    var remaining := releases.Keys;
    keys := [];
    while remaining != {}
      invariant remaining <= releases.Keys
      invariant forall i :: 0 <= i < |keys| ==> keys[i] !in remaining && keys[i] in releases
      invariant forall key :: key in releases && key !in remaining ==> key in keys
      invariant forall i, k :: 0 <= i < k < |keys| ==> keys[i] != keys[k]
      decreases remaining
    {
      var key :| key in remaining;
      keys := keys + [key];
      remaining := remaining - {key};
    }
  }

  /** Groups the discovered jobs and prunes every group once. `order` is the
      order in which the groups were pruned. */
  method PruneReleases(jobs: seq<Job>) returns (deletes: seq<Call>, order: seq<string>)
    ensures forall i, k :: 0 <= i < k < |order| ==> order[i] != order[k]
    ensures forall i :: 0 <= i < |order| ==> order[i] in Releases(jobs)
    ensures forall key :: key in Releases(jobs) ==> key in order
    ensures deletes == PassDeletes(jobs, order)
  {
    var jobReleases := GroupByRelease(jobs);
    order := KeysInSomeOrder(jobReleases);
    deletes := PruneGroups(jobs, jobReleases, order);
  }

  /** The per-release passes over the groups `releases` of `jobs`, visiting
      the keys in the order `keys`. */
  method PruneGroups(jobs: seq<Job>, releases: map<string, seq<Job>>, keys: seq<string>) returns (deletes: seq<Call>)
    requires forall key :: key in releases ==> releases[key] == Members(jobs, key)
    requires forall i :: 0 <= i < |keys| ==> keys[i] in releases
    ensures deletes == PassDeletes(jobs, keys)
  {
    deletes := [];
    for i := 0 to |keys|
      invariant deletes == PassDeletes(jobs, keys[..i])
    {
      var groupDeletes := EnforceRetention(releases[keys[i]]);
      PassDeletesStep(jobs, keys, i);
      deletes := deletes + groupDeletes;
    }
    assert keys[..|keys|] == keys;
  }

  lemma PassDeletesStep(jobs: seq<Job>, keys: seq<string>, i: nat)
    requires i < |keys|
    ensures PassDeletes(jobs, keys[..i + 1]) == PassDeletes(jobs, keys[..i]) + RetentionDeletes(Members(jobs, keys[i]))
  {
    assert keys[..i + 1][..i] == keys[..i];
  }

  /** `cleanupJobs`: discover, group, prune. */
  method CleanupJobs(cluster: Cluster) returns (jobs: seq<Job>, deletes: seq<Call>, order: seq<string>)
    ensures jobs == Discovered(cluster, Enumerated(cluster.namespaceScript))
    ensures forall i, k :: 0 <= i < k < |order| ==> order[i] != order[k]
    ensures forall i :: 0 <= i < |order| ==> order[i] in Releases(jobs)
    ensures forall key :: key in Releases(jobs) ==> key in order
    ensures deletes == PassDeletes(jobs, order)
  {
    jobs := DiscoverJobs(cluster);
    deletes, order := PruneReleases(jobs);
  }

  /** The pass deletes only jobs it discovered, whose release it could tell,
      that were not active and had completed. */
  lemma {:induction false} DeletesOnlyStaleReleaseJobs(jobs: seq<Job>, keys: seq<string>, call: Call)
    requires call in PassDeletes(jobs, keys)
    ensures exists j :: (j in jobs && call == JobDelete(j.namespace, j.name, DefaultPropagation)
      && ReleaseKey(j).Some? && j.status.active <= 0 && j.status.completionTime.Some?)
    decreases |keys|
  {
    var key := keys[|keys| - 1];
    if call in PassDeletes(jobs, keys[..|keys| - 1]) {
      DeletesOnlyStaleReleaseJobs(jobs, keys[..|keys| - 1], call);
    } else {
      var group := Members(jobs, key);
      var lost := Excess(FailedBucket(group)) + Excess(SucceededBucket(group));
      assert call in DeleteCalls(lost);
      var i :| 0 <= i < |lost| && DeleteCalls(lost)[i] == call;
      DeletesOnlyFinished(group, lost[i]);
      MembersExactly(jobs, key, lost[i]);
    }
  }

  /** The merged list of two runs of namespaces is the one of the first
      run followed by the one of the second. */
  lemma {:induction false} DiscoveredConcat(cluster: Cluster, a: seq<string>, b: seq<string>)
    ensures Discovered(cluster, a + b) == Discovered(cluster, a) + Discovered(cluster, b)
    decreases |b|
  {
    if b == [] {
      assert a + b == a;
    } else {
      var b', last := b[..|b| - 1], b[|b| - 1];
      assert (a + b)[..|a + b| - 1] == a + b';
      DiscoveredConcat(cluster, a, b');
    }
  }

  /** A namespace whose job listing fails three times in a row adds no job
      to the merged list, wherever it comes in the namespace listing; the
      pass carries on with the others. */
  lemma UnreachableNamespaceAddsNothing(cluster: Cluster, before: seq<string>, namespace: string, after: seq<string>)
    requires var script := JobScript(cluster, namespace);
      Answer(script, 0).Failure? && Answer(script, 1).Failure? && Answer(script, 2).Failure?
    ensures Discovered(cluster, before + [namespace] + after) == Discovered(cluster, before + after)
  {
    ThreeFailuresYieldNothing(JobScript(cluster, namespace));
    assert [namespace][..0] == [];
    assert Discovered(cluster, [namespace]) == [];
    DiscoveredConcat(cluster, before, [namespace]);
    assert Discovered(cluster, before + [namespace]) == Discovered(cluster, before);
    DiscoveredConcat(cluster, before + [namespace], after);
    DiscoveredConcat(cluster, before, after);
  }
}
