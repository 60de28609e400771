# porter-job-manager: job dispatch, retention and bulk removal

A Dafny model of the job-lifecycle logic of porter-job-manager, the small
command-line tool that starts Kubernetes jobs on a schedule and keeps the
history of their runs bounded:

- **dispatch** (`CreateJob`): resolve the namespace of the job template
  (`"default"` when it has none); unless concurrency is allowed, page
  through the jobs matching the label selector, 25 at a time, and skip the
  run when one of them is still running; append the configured image pull
  secrets to the pod spec; create the job;
- **cleanup** (`cleanupJobs`): enumerate every namespace and then every job
  in each namespace, each enumeration retrying failed list calls with one
  retry counter of 3 that is never reset; group the jobs by Helm release
  (label `meta.helm.sh/release-name`, falling back to
  `app.kubernetes.io/instance`); in each group put the finished jobs in a
  succeeded or a failed bucket, stable-sort each bucket most recently
  completed first and delete everything past the 20 most recent;
- **bulk removal** (`RemoveAllJobs`): list the jobs matching a selector
  once, then delete them in listing order with background propagation,
  stopping at the first failed delete.

The Kubernetes API server is modelled as data. The successive answers to a
loop's list calls are a script of replies (a page of items with a continue
token, or an error). The answer to the create of `CreateJob` and the
answers to the deletes of `RemoveAllJobs` are parameters. The retention
deletes of the cleanup pass take no answer, because the code ignores them.
Every operation returns the calls it issued, in order, as a log of `Call`
values. Each loop is a `method` whose `ensures` ties its results to a
specification function, and the properties of the tool are lemmas about
those functions.

| file | module | models |
|---|---|---|
| kube.dfy | Kube | jobs, job status, templates, API replies and calls, namespace default |
| seqs.dfy | Seqs | order-preserving filter and its counting lemmas |
| pagination.dfy | Pagination | the retry-bounded paginated enumeration of the cleanup pass |
| dispatch.dfy | Dispatch | `CreateJob`, its concurrency guard and pull-secret append |
| release.dfy | Release | grouping of jobs by release |
| ordering.dfy | Ordering | the stable most-recent-first sort, in place on an array |
| retention.dfy | Retention | buckets, the retention limit of 20 and the deletes it causes |
| cleanup.dfy | Cleanup | one whole cleanup pass |
| remove_all.dfy | RemoveAll | `RemoveAllJobs` |

The model follows the code as written, including where a comment or a
name suggests otherwise:

- The guard treats a job as running when it has active pods **and** has
  not succeeded (`Active > 0 && Succeeded == 0`, create.go:123), although
  the comment above the test (create.go:122) speaks of any active job.
- The enumeration has one retry counter for the whole loop, never reset
  after a successful page. The third failed call ends the loop, whichever
  pages it fell between. A namespace whose listing fails after some pages
  still contributes those pages.
- A job that both succeeded and failed goes to the succeeded bucket only,
  because the failed test is the `else` branch of the succeeded test.
- The retention deletes carry no propagation policy (the server default).
  Only the bulk removal asks for background propagation.

## Model

| member | source | states |
|---|---|---|
| Kube.OrDefault | cmd/manager/cli/create.go:96-100 | the namespace used is the given one when it is non-empty, otherwise `"default"`, and never empty |
| Pagination.FirstFinished | cmd/manager/cli/create.go:161-182 | the enumeration loop stops at a first well-defined call count, within the script length plus 3: the third failure or the final page |
| Pagination.Paginate | cmd/manager/cli/create.go:157-182 | the loop makes exactly `CallCount` calls, at most the script length plus 3, with at most 3 failures; call i carries `CursorAt(i)` (empty first, unchanged after a failure, the page's token after a success); the items are those of every page received, in call order |
| Pagination.FailedCall | cmd/manager/cli/create.go:168-171 | a failed call counts one retry, gathers nothing and leaves the continue token as it was |
| Pagination.ReceivedPage | cmd/manager/cli/create.go:173-181 | a page received adds its items after those gathered, counts no retry, and its token becomes the next call's |
| Pagination.CollectedGrows | cmd/manager/cli/create.go:173-175 | items gathered are never dropped: what is gathered after m calls is a prefix of what is gathered after any later call |
| Pagination.PageKept | cmd/manager/cli/create.go:207-209 | every page received during the enumeration appears whole, contiguously and in order, in the result |
| Pagination.ThreeFailuresYieldNothing | cmd/manager/cli/create.go:159-171 | three failed first calls end the loop after exactly 3 calls, all without a token, gathering nothing |
| Pagination.StopsAtThirdFailure | cmd/manager/cli/create.go:159-171 | the retry counter is never reset: the loop ends at the third failed call however many pages succeeded in between |
| Dispatch.FirstGuardEnd | cmd/manager/cli/create.go:107-135 | the guard loop ends at the first call that fails, shows a running job, or returns the last page, within the script length plus 1 |
| Dispatch.WithPullSecrets | cmd/manager/cli/create.go:138-145 | the pull secrets become the original list followed by one reference per configured name in order; the length grows by exactly the number of names; name and namespace are unchanged |
| Dispatch.AppendPullSecrets | cmd/manager/cli/create.go:139-145 | the append loop yields `WithPullSecrets` |
| Dispatch.CheckConcurrency | cmd/manager/cli/create.go:104-135 | the guard issues exactly `GuardCalls` list calls in the namespace with the selector, limit 25 and the successive continue tokens, and concludes `GuardVerdict`: the list error, busy at the first page holding a running job, clear after the last page |
| Dispatch.CreateJob | cmd/manager/cli/create.go:89-152 | a template read error fails with no call; otherwise no list call when concurrency is allowed, else guard list calls with limit 25 and the successive continue tokens; a list error fails with no create; a running job skips with no create; otherwise exactly one create, in the defaulted namespace, of the template with the pull secrets appended, whose error is returned unchanged |
| Dispatch.BusyIffRunningListed | cmd/manager/cli/create.go:121-126 | the guard skips iff, with no list error, some job on the pages it read is running |
| Dispatch.NoRunningBeforeEnd | cmd/manager/cli/create.go:121-134 | no page before the one the guard stops at holds a running job, so no page is requested after a running job is seen |
| Dispatch.GuardSeesAllPages | cmd/manager/cli/create.go:104-135 | over any error-free paging of the matching jobs, the guard skips iff one of them is running, whatever the page boundaries, and otherwise reads every page |
| Release.GroupByRelease | cmd/manager/cli/create.go:222-242 | the map's keys are exactly the releases that occur, and each key maps to the jobs of that release in discovery order |
| Release.MembersExactly | cmd/manager/cli/create.go:224-241 | a job is in group `key` iff it was discovered and its release-name label, or failing that its instance label, is `key`; a job with neither is in no group |
| Release.KeyedJobHasGroup | cmd/manager/cli/create.go:237-241 | every job whose release can be told has a group, and is in it |
| Release.NoMembersOutsideReleases | cmd/manager/cli/create.go:237-239 | a release that occurs nowhere has an empty group |
| Ordering.SortDescPermutes | cmd/manager/cli/create.go:266-268 | the sort is a permutation of the bucket |
| Ordering.SortDescSorted | cmd/manager/cli/create.go:266-268 | the sort orders the bucket by completion time, most recent first |
| Ordering.SortDescStable | cmd/manager/cli/create.go:266-268 | the sort is stable: the jobs completed at any one instant keep their discovery order |
| Ordering.InsertInPlace | cmd/manager/cli/create.go:266-268 | one insertion step moves a job left past the jobs that completed strictly before it and nothing else changes |
| Ordering.SortByCompletionDesc | cmd/manager/cli/create.go:266-268 | the in-place sort leaves the array equal to the stable most-recent-first order of its old contents |
| Retention.Partition | cmd/manager/cli/create.go:250-263 | the two buckets are the group's finished succeeded jobs and finished failed jobs, in group order |
| Retention.BucketMembership | cmd/manager/cli/create.go:253-263 | active jobs are in neither bucket; a job is in the succeeded bucket iff it succeeded and completed, in the failed bucket iff it did not succeed, failed and completed; never in both |
| Retention.DeleteCalls | cmd/manager/cli/create.go:270-273 | one delete per job, in order, in the job's own namespace, with no propagation policy |
| Retention.PruneBucket | cmd/manager/cli/create.go:265-274 | a bucket is sorted and every job from position 20 on is deleted, in that order |
| Retention.EnforceRetention | cmd/manager/cli/create.go:250-285 | the deletes of one group are the failed bucket's excess, then the succeeded bucket's; one delete's outcome never affects the others |
| Retention.ExcessIsOldest | cmd/manager/cli/create.go:265-285 | a bucket of at most 20 loses nothing; a larger one loses exactly its size minus 20 and keeps 20; kept and lost jobs together are the bucket; no lost job completed after a kept one |
| Retention.DeletesOnlyFinished | cmd/manager/cli/create.go:253-285 | every deleted job is a job of the group, not active and completed |
| Retention.RetentionIdempotent | cmd/manager/cli/create.go:265-285 | a second pass over the survivors of a pass, listed in any order, deletes nothing |
| Cleanup.ListNamespaces | cmd/manager/cli/create.go:157-182 | the namespace enumeration issues namespace list calls with the successive continue tokens and returns every namespace received |
| Cleanup.ListJobsIn | cmd/manager/cli/create.go:194-216 | the job enumeration of one namespace issues job list calls in that namespace with the successive tokens and returns every job received |
| Cleanup.DiscoverJobs | cmd/manager/cli/create.go:184-220 | the merged job list is each enumerated namespace's jobs, namespace after namespace |
| Cleanup.KeysInSomeOrder | cmd/manager/cli/create.go:246 | ranging over the release map visits every key exactly once |
| Cleanup.PruneGroups | cmd/manager/cli/create.go:246-287 | pruning the groups in a given key order issues each group's retention deletes, group after group |
| Cleanup.PruneReleases | cmd/manager/cli/create.go:222-289 | every release group is pruned exactly once, and the deletes are the groups' retention deletes in visiting order |
| Cleanup.CleanupJobs | cmd/manager/cli/create.go:154-294 | one pass: the discovered jobs, every release pruned once, and exactly the resulting deletes |
| Cleanup.DeletesOnlyStaleReleaseJobs | cmd/manager/cli/create.go:222-287 | every delete of a pass targets a discovered job that has a release, is not active and has completed |
| Cleanup.DiscoveredConcat | cmd/manager/cli/create.go:190-218 | each namespace's enumeration contributes its jobs independently: the merged list of two runs of namespaces is the first run's followed by the second's |
| Cleanup.UnreachableNamespaceAddsNothing | cmd/manager/cli/create.go:194-205 | a namespace whose first three job list calls fail contributes no job, wherever it comes in the namespace listing, and the pass goes on with the others |
| RemoveAll.FirstRefused | cmd/manager/cli/remove_all.go:74-90 | the position of the first job whose delete fails: no earlier job's delete fails, and the job there fails |
| RemoveAll.RemoveAllJobs | cmd/manager/cli/remove_all.go:55-91 | one list call in the defaulted namespace with the selector; a list error is returned with no delete; otherwise one background delete per listed job in listing order up to and including the first failing one, whose error is returned; no error iff every delete succeeded, after exactly one delete per listed job |

## Left out

- Reading and decoding the job template from a file (`ReadJobSpec`): the
  template arrives already read, or as the read error.
- Decoding the options from the environment (`CreateOptsFromEnv`,
  `RemoveAllOptsFromEnv`): the options arrive as values.
- The command wiring, the in-cluster configuration, `panic` and the process
  exit (the cobra commands and `root.go`): they hold no logic.
- Logging.
- The transport of the Kubernetes client: contexts, the encoding of list,
  create and delete options. A script that runs out answers every further
  call with an error, so each modelled loop ends.
- Kube.JobStatus: the 32-bit counters are unbounded integers and the
  completion time an integer instant; the code only compares them, so no
  width matters.
- Cleanup.DiscoverJobs: the source lists the namespaces' jobs in concurrent
  goroutines that append whole pages to one slice under a mutex, in any
  interleaving; the model lists them one namespace after another, which is
  one of the possible interleavings.
- Cleanup.PruneReleases: the source prunes the release groups in concurrent
  goroutines; the model prunes them one after another, in an arbitrary
  order of the map's keys.
- Cleanup.CleanupJobs: the list calls of the enumerations are stated by
  `ListNamespaces` and `ListJobsIn` and not repeated in the pass's result,
  which carries the deletes only; the outcomes of the deletes are not
  modelled because the source ignores them.
- Dispatch.CreateJob: on success the outcome carries the template as
  submitted, not the object the API server returns.
