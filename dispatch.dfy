/** Job dispatch (`CreateJob`): resolve the target namespace, optionally
    refuse to start while an equivalent job is still running, add the
    configured image pull secrets to the pod spec and create the job.

    The concurrency guard pages through the jobs matching the selector, 25 at
    a time, and stops at the first page holding a running job. Unlike the
    cleanup enumeration it does not retry: a failed list call aborts the
    dispatch with that error. */
module Dispatch {
  import opened Kube
  import opened Pagination

  const GuardPageLimit: nat := 25

  /** The settings of the `create` command (`CreateOpts`). */
  datatype CreateOpts = CreateOpts(
    imagePullSecrets: seq<string>,
    jobTemplatePath: string,
    labelSelector: string,
    allowConcurrency: bool)

  /** What reading the template at `jobTemplatePath` produced. */
  datatype TemplateRead = Loaded(job: JobTemplate) | ReadError(message: string)

  /** Go's three results of `CreateJob`: (job, nil), (nil, nil) and (_, err). */
  datatype Outcome = Created(job: JobTemplate) | Skipped | Failed(message: string)

  /** A job the guard treats as an equivalent run still in progress: it has
      active pods and has not succeeded. */
  predicate Running(j: Job)
  {
    j.status.active > 0 && j.status.succeeded == 0
  }

  predicate HasRunning(jobs: seq<Job>)
  {
    exists k :: 0 <= k < |jobs| && Running(jobs[k])
  }

  /** The guard stops after call n - 1: it failed, showed a running job, or
      returned the last page. */
  predicate GuardEnds(script: seq<Reply<Job>>, n: nat)
  {
    n > 0 &&
    match Answer(script, n - 1)
    case Failure(_) => true
    case Page(items, cont) => HasRunning(items) || cont == ""
  }

  /** The first n >= from after which the guard stops. */
  function FirstGuardEnd(script: seq<Reply<Job>>, from: nat): (n: nat)
    requires 1 <= from <= |script| + 1
    requires forall m :: 0 <= m < from ==> !GuardEnds(script, m)
    ensures from <= n <= |script| + 1
    ensures GuardEnds(script, n)
    ensures forall m :: 0 <= m < n ==> !GuardEnds(script, m)
    decreases |script| + 1 - from
  {
    if GuardEnds(script, from) then from else FirstGuardEnd(script, from + 1)
  }

  /** How many list calls the guard makes. */
  function GuardCalls(script: seq<Reply<Job>>): nat
  {
    FirstGuardEnd(script, 1)
  }

  /** The guard's conclusion. */
  datatype Verdict = Clear | Busy | ListError(message: string)

  function GuardVerdict(script: seq<Reply<Job>>): Verdict
  {
    match Answer(script, GuardCalls(script) - 1)
    case Failure(message) => ListError(message)
    case Page(items, _) => if HasRunning(items) then Busy else Clear
  }

  /** The template with the configured pull secrets appended to its pod
      spec: the original references first, then one per configured name in
      the given order; nothing else changes. */
  function WithPullSecrets(job: JobTemplate, names: seq<string>): (r: JobTemplate)
    ensures r.name == job.name && r.namespace == job.namespace
    ensures |r.imagePullSecrets| == |job.imagePullSecrets| + |names|
    ensures r.imagePullSecrets[..|job.imagePullSecrets|] == job.imagePullSecrets
    ensures forall i :: 0 <= i < |names| ==> r.imagePullSecrets[|job.imagePullSecrets| + i] == LocalObjectReference(names[i])
  {
    job.(imagePullSecrets := job.imagePullSecrets + seq(|names|, i requires 0 <= i < |names| => LocalObjectReference(names[i])))
  }

  /** The loop that extends the pod spec's pull secrets, one name at a time. */
  method AppendPullSecrets(job: JobTemplate, names: seq<string>) returns (r: JobTemplate)
    ensures r == WithPullSecrets(job, names)
  {
    r := job;
    if |names| > 0 {
      for i := 0 to |names|
        invariant r == WithPullSecrets(job, names[..i])
      {
        PullSecretStep(job, names, i);
        r := r.(imagePullSecrets := r.imagePullSecrets + [LocalObjectReference(names[i])]);
      }
      assert names[..|names|] == names;
    }
  }

  lemma PullSecretStep(job: JobTemplate, names: seq<string>, i: nat)
    requires i < |names|
    ensures var r := WithPullSecrets(job, names[..i]);
      WithPullSecrets(job, names[..i + 1]) == r.(imagePullSecrets := r.imagePullSecrets + [LocalObjectReference(names[i])])
  {
    var r, r' := WithPullSecrets(job, names[..i]), WithPullSecrets(job, names[..i + 1]);
    assert r'.imagePullSecrets == r.imagePullSecrets + [LocalObjectReference(names[i])];
  }

  /** The guard stops after the first call that ends it. */
  lemma GuardStopsHere(script: seq<Reply<Job>>, n: nat)
    requires GuardEnds(script, n) && n <= GuardCalls(script)
    ensures GuardCalls(script) == n
  {
  }

  /** The concurrency guard of `CreateJob`: pages through the jobs matching
      `selector` in `namespace` and stops at a list error, at a page holding
      a running job, or after the last page. */
  method CheckConcurrency(namespace: string, selector: string, guardScript: seq<Reply<Job>>)
    returns (verdict: Verdict, log: seq<Call>)
    ensures verdict == GuardVerdict(guardScript)
    ensures |log| == GuardCalls(guardScript)
    ensures forall i :: 0 <= i < |log| ==>
      log[i] == JobList(namespace, selector, GuardPageLimit, CursorAt(guardScript, i))
  {
    log := [];
    var continueVal := "";
    while true
      invariant |log| < GuardCalls(guardScript)
      invariant forall i :: 0 <= i < |log| ==>
        log[i] == JobList(namespace, selector, GuardPageLimit, CursorAt(guardScript, i))
      invariant continueVal == CursorAt(guardScript, |log|)
      decreases GuardCalls(guardScript) - |log|
    {
      var jobs := Answer(guardScript, |log|);
      log := log + [JobList(namespace, selector, GuardPageLimit, continueVal)];
      if jobs.Failure? {
        GuardStopsHere(guardScript, |log|);
        return ListError(jobs.message), log;
      }
      for k := 0 to |jobs.items|
        invariant forall j :: 0 <= j < k ==> !Running(jobs.items[j])
      {
        if Running(jobs.items[k]) {
          GuardStopsHere(guardScript, |log|);
          return Busy, log;
        }
      }
      if jobs.cont == "" {
        GuardStopsHere(guardScript, |log|);
        return Clear, log;
      }
      continueVal := jobs.cont;
    }
  }

  /** `CreateJob`. `guardScript` answers the guard's list calls in turn,
      `createError` is the API server's answer to the create call. `log` is
      every call issued, in order. */
  method CreateJob(opts: CreateOpts, template: TemplateRead, guardScript: seq<Reply<Job>>, createError: Option<string>)
    returns (outcome: Outcome, log: seq<Call>)
    ensures template.ReadError? ==> outcome == Failed(template.message) && log == []
    ensures template.Loaded? ==>
      var namespace := OrDefault(template.job.namespace);
      var created := WithPullSecrets(template.job, opts.imagePullSecrets);
      var listed := if opts.allowConcurrency then 0 else GuardCalls(guardScript);
      var verdict := if opts.allowConcurrency then Clear else GuardVerdict(guardScript);
      && |log| == listed + (if verdict.Clear? then 1 else 0)
      && (forall i :: 0 <= i < listed ==>
            log[i] == JobList(namespace, opts.labelSelector, GuardPageLimit, CursorAt(guardScript, i)))
      && (verdict.ListError? ==> outcome == Failed(verdict.message))
      && (verdict.Busy? ==> outcome == Skipped)
      && (verdict.Clear? ==>
            log[listed] == JobCreate(namespace, created) &&
            outcome == (if createError.Some? then Failed(createError.value) else Created(created)))
  {
    log := [];
    if template.ReadError? {
      return Failed(template.message), log;
    }
    var job := template.job;
    var namespace := job.namespace;
    if namespace == "" {
      namespace := DefaultNamespace;
    }
    if !opts.allowConcurrency {
      var verdict, guardLog := CheckConcurrency(namespace, opts.labelSelector, guardScript);
      log := guardLog;
      if verdict.ListError? {
        return Failed(verdict.message), log;
      } else if verdict.Busy? {
        return Skipped, log;
      }
    }
    job := AppendPullSecrets(job, opts.imagePullSecrets);
    log := log + [JobCreate(namespace, job)];
    if createError.Some? {
      outcome := Failed(createError.value);
    } else {
      outcome := Created(job);
    }
  }

  /** The guard answers Busy exactly when, with no list error, some job on
      the pages it read is running: no earlier page held one, so every page
      before the last was read in full. */
  lemma BusyIffRunningListed(script: seq<Reply<Job>>)
    ensures GuardVerdict(script).Busy? <==>
      !GuardVerdict(script).ListError? && HasRunning(Collected(script, GuardCalls(script)))
  {
    var n := GuardCalls(script);
    NoRunningBeforeEnd(script, n - 1);
    if Answer(script, n - 1).Page? {
      var items := Answer(script, n - 1).items;
      HasRunningConcat(Collected(script, n - 1), items);
    }
  }

  /** Before the guard stops, every call returned a page without a running job. */
  lemma {:induction false} NoRunningBeforeEnd(script: seq<Reply<Job>>, m: nat)
    requires m < GuardCalls(script)
    ensures !HasRunning(Collected(script, m))
  {
    if m > 0 {
      NoRunningBeforeEnd(script, m - 1);
      assert !GuardEnds(script, m);
      HasRunningConcat(Collected(script, m - 1), Answer(script, m - 1).items);
    }
  }

  lemma HasRunningConcat(a: seq<Job>, b: seq<Job>)
    ensures HasRunning(a + b) <==> HasRunning(a) || HasRunning(b)
  {
    if HasRunning(a + b) {
      var k :| 0 <= k < |a + b| && Running((a + b)[k]);
      if k >= |a| {
        assert b[k - |a|] == (a + b)[k];
      }
    }
    if HasRunning(a) {
      var k :| 0 <= k < |a| && Running(a[k]);
      assert (a + b)[k] == a[k];
    }
    if HasRunning(b) {
      var k :| 0 <= k < |b| && Running(b[k]);
      assert (a + b)[|a| + k] == b[k];
    }
  }

  /** `script` pages through the matching jobs `all` without an error: k
      pages, each but the last with a continue token, whose items make up
      `all` in order. */
  predicate PagesOf(script: seq<Reply<Job>>, k: nat, all: seq<Job>)
  {
    && 1 <= k <= |script|
    && (forall i :: 0 <= i < k ==> script[i].Page?)
    && (forall i :: 0 <= i < k - 1 ==> script[i].cont != "")
    && script[k - 1].cont == ""
    && Collected(script, k) == all
  }

  /** Page boundaries do not matter: over any error-free paging of the
      matching jobs, the guard answers Busy iff one of them is running, and
      otherwise Clear after reading every page. */
  lemma GuardSeesAllPages(script: seq<Reply<Job>>, k: nat, all: seq<Job>)
    requires PagesOf(script, k, all)
    ensures GuardVerdict(script).Busy? <==> HasRunning(all)
    ensures !HasRunning(all) ==> GuardVerdict(script) == Clear && GuardCalls(script) == k
  {
    var n := GuardCalls(script);
    assert GuardEnds(script, k);
    assert n <= k;
    BusyIffRunningListed(script);
    CollectedGrows(script, n, k);
    var rest := all[|Collected(script, n)|..];
    assert all == Collected(script, n) + rest;
    HasRunningConcat(Collected(script, n), rest);
    if n < k {
      assert script[n - 1].cont != "";
      assert GuardVerdict(script).Busy?;
    } else {
      assert rest == [];
    }
  }
}
