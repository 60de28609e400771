/** The `remove-all` command (`RemoveAllJobs`): list the jobs matching a
    selector in one namespace with a single call, then delete them one by
    one with background propagation, stopping at the first failed delete. */
module RemoveAll {
  import opened Kube

  /** The settings of the `remove-all` command (`RemoveAllOpts`). */
  datatype RemoveAllOpts = RemoveAllOpts(labelSelector: string, jobNamespace: string)

  /** Position of the first job whose deletion the API server refuses
      (`refusals` maps a job name to the error it answers with), or the
      number of jobs when it refuses none. */
  function FirstRefused(jobs: seq<Job>, refusals: map<string, string>): (k: nat)
    ensures k <= |jobs|
    ensures forall i :: 0 <= i < k ==> jobs[i].name !in refusals
    ensures k < |jobs| ==> jobs[k].name in refusals
  {
    if jobs == [] || jobs[0].name in refusals then 0 else 1 + FirstRefused(jobs[1..], refusals)
  }

  /** `RemoveAllJobs`. `listReply` is the API server's answer to the list
      call, `refusals` its answers to deletes; `log` is every call issued. */
  method RemoveAllJobs(opts: RemoveAllOpts, listReply: Reply<Job>, refusals: map<string, string>)
    returns (err: Option<string>, log: seq<Call>)
    ensures var namespace := OrDefault(opts.jobNamespace);
      |log| >= 1 && log[0] == JobList(namespace, opts.labelSelector, 0, "")
    ensures listReply.Failure? ==> err == Some(listReply.message) && |log| == 1
    ensures listReply.Page? ==>
      var namespace := OrDefault(opts.jobNamespace);
      var jobs := listReply.items;
      var k := FirstRefused(jobs, refusals);
      && |log| == 1 + (if k < |jobs| then k + 1 else |jobs|)
      && (forall i :: 1 <= i < |log| ==> log[i] == JobDelete(namespace, jobs[i - 1].name, Background))
      && err == (if k < |jobs| then Some(refusals[jobs[k].name]) else None)
    ensures listReply.Page? ==>
      (err == None <==> forall i :: 0 <= i < |listReply.items| ==> listReply.items[i].name !in refusals)
  {
    var namespace := opts.jobNamespace;
    if namespace == "" {
      namespace := DefaultNamespace;
    }
    log := [JobList(namespace, opts.labelSelector, 0, "")];
    if listReply.Failure? {
      return Some(listReply.message), log;
    }
    var matchingJobs := listReply.items;
    var propPolicy := Background;
    for i := 0 to |matchingJobs|
      invariant |log| == 1 + i
      invariant log[0] == JobList(namespace, opts.labelSelector, 0, "")
      invariant forall m :: 1 <= m < |log| ==> log[m] == JobDelete(namespace, matchingJobs[m - 1].name, Background)
      invariant forall m :: 0 <= m < i ==> matchingJobs[m].name !in refusals
    {
      var job := matchingJobs[i];
      log := log + [JobDelete(namespace, job.name, propPolicy)];
      if job.name in refusals {
        FirstRefusedAt(matchingJobs, refusals, i);
        return Some(refusals[job.name]), log;
      }
    }
    FirstRefusedAt(matchingJobs, refusals, |matchingJobs|);
    err := None;
  }

  /** The first refused position is the one a left-to-right scan stops at. */
  lemma FirstRefusedAt(jobs: seq<Job>, refusals: map<string, string>, k: nat)
    requires k <= |jobs|
    requires forall i :: 0 <= i < k ==> jobs[i].name !in refusals
    requires k < |jobs| ==> jobs[k].name in refusals
    ensures FirstRefused(jobs, refusals) == k
  {
  }
}
