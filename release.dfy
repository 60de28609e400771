/** Grouping of the discovered jobs by the Helm release they belong to. The
    release is read from the `meta.helm.sh/release-name` label, falling back
    to `app.kubernetes.io/instance`; a job with neither is in no group, so
    the retention pass never deletes it. */
module Release {
  import opened Kube
  import opened Seqs

  const ReleaseNameLabel: string := "meta.helm.sh/release-name"
  const InstanceLabel: string := "app.kubernetes.io/instance"

  /** The release a job belongs to, if it can be told. */
  function ReleaseKey(j: Job): Option<string>
  {
    var release := Label(j.labels, ReleaseNameLabel);
    if release != "" then Some(release)
    else
      var instance := Label(j.labels, InstanceLabel);
      if instance != "" then Some(instance) else None
  }

  /** The jobs of release `key`, in discovery order. */
  function Members(jobs: seq<Job>, key: string): seq<Job>
  {
    Filter(jobs, (j: Job) => ReleaseKey(j) == Some(key))
  }

  /** The releases that occur among `jobs`. */
  function Releases(jobs: seq<Job>): set<string>
  {
    set i | 0 <= i < |jobs| && ReleaseKey(jobs[i]).Some? :: ReleaseKey(jobs[i]).value
  }

  /** The loop that fills the `jobReleases` map. */
  method GroupByRelease(jobs: seq<Job>) returns (releases: map<string, seq<Job>>)
    ensures releases.Keys == Releases(jobs)
    ensures forall key :: key in releases ==> releases[key] == Members(jobs, key)
  {
    releases := map[];
    for i := 0 to |jobs|
      invariant releases.Keys == Releases(jobs[..i])
      invariant forall key :: key in releases ==> releases[key] == Members(jobs[..i], key)
    {
      var job := jobs[i];
      assert jobs[..i + 1] == jobs[..i] + [job];
      ReleasesSnoc(jobs[..i], job);
      forall key {
        MembersSnoc(jobs[..i], job, key);
      }
      var jobReleaseName := Label(job.labels, ReleaseNameLabel);
      if jobReleaseName == "" {
        jobReleaseName := Label(job.labels, InstanceLabel);
      }
      if jobReleaseName == "" {
        continue;
      }
      if jobReleaseName !in releases {
        NoMembersOutsideReleases(jobs[..i], jobReleaseName);
        releases := releases[jobReleaseName := []];
      }
      releases := releases[jobReleaseName := releases[jobReleaseName] + [job]];
    }
    assert jobs[..|jobs|] == jobs;
  }

  lemma ReleasesSnoc(jobs: seq<Job>, job: Job)
    ensures Releases(jobs + [job]) == Releases(jobs) + (if ReleaseKey(job).Some? then {ReleaseKey(job).value} else {})
  {
    var s := jobs + [job];
    forall r | r in Releases(s) ensures r in Releases(jobs) || ReleaseKey(job) == Some(r) {
      var i :| 0 <= i < |s| && ReleaseKey(s[i]).Some? && ReleaseKey(s[i]).value == r;
      if i < |jobs| {
        assert s[i] == jobs[i];
      }
    }
    forall r | r in Releases(jobs) ensures r in Releases(s) {
      var i :| 0 <= i < |jobs| && ReleaseKey(jobs[i]).Some? && ReleaseKey(jobs[i]).value == r;
      assert s[i] == jobs[i];
    }
    if ReleaseKey(job).Some? {
      assert s[|jobs|] == job;
    }
  }

  /** A release that does not occur has an empty group. */
  lemma NoMembersOutsideReleases(jobs: seq<Job>, key: string)
    requires key !in Releases(jobs)
    ensures Members(jobs, key) == []
  {
    forall i | 0 <= i < |jobs|
      ensures ReleaseKey(jobs[i]) != Some(key)
    {
      assert ReleaseKey(jobs[i]).Some? ==> ReleaseKey(jobs[i]).value in Releases(jobs);
    }
    FilterNone(jobs, (j: Job) => ReleaseKey(j) == Some(key));
  }

  lemma MembersSnoc(jobs: seq<Job>, job: Job, key: string)
    ensures Members(jobs + [job], key) == Members(jobs, key) + (if ReleaseKey(job) == Some(key) then [job] else [])
  {
    assert (jobs + [job])[..|jobs|] == jobs;
  }

  /** A job lands in group `key` exactly when `key` is its release: a job
      with a release label is in that group, one with only an instance label
      in the group of that instance, one with neither in no group, and no
      job is in two groups. */
  lemma MembersExactly(jobs: seq<Job>, key: string, j: Job)
    ensures j in Members(jobs, key) <==> j in jobs && ReleaseKey(j) == Some(key)
  {
    FilterMembership(jobs, (j: Job) => ReleaseKey(j) == Some(key), j);
  }

  /** Every job whose release can be told belongs to a group that exists. */
  lemma {:induction false} KeyedJobHasGroup(jobs: seq<Job>, i: nat)
    requires i < |jobs| && ReleaseKey(jobs[i]).Some?
    ensures ReleaseKey(jobs[i]).value in Releases(jobs)
    ensures jobs[i] in Members(jobs, ReleaseKey(jobs[i]).value)
  {
    MembersExactly(jobs, ReleaseKey(jobs[i]).value, jobs[i]);
  }
}
