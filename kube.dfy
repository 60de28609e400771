/** The slice of the Kubernetes API that the job manager touches: job records,
    the replies of paginated list calls, and the calls it issues. The cluster
    itself is an oracle: the i-th list call of a loop is answered by the i-th
    reply of a script, and a call past the end of the script fails (the API
    server is unreachable). */
module Kube {

  datatype Option<T> = None | Some(value: T)

  type Labels = map<string, string>

  /** Go's `labels[key]`: a missing key reads as the empty string. */
  function Label(labels: Labels, key: string): string
  {
    if key in labels then labels[key] else ""
  }

  /** `batchv1.JobStatus`, reduced to what the manager reads. Completion
      instants are modelled as integers (larger = later). */
  datatype JobStatus = JobStatus(active: int, succeeded: int, failed: int, completionTime: Option<int>)

  /** A job record as returned by a list call. */
  datatype Job = Job(name: string, namespace: string, labels: Labels, status: JobStatus)

  /** `v1.LocalObjectReference`, the element type of a pod's image pull secrets. */
  datatype LocalObjectReference = LocalObjectReference(name: string)

  /** The job template read from disk, reduced to what dispatch reads or changes. */
  datatype JobTemplate = JobTemplate(name: string, namespace: string, imagePullSecrets: seq<LocalObjectReference>)

  /** The answer to one list call: a page of items with its continue token
      ("" = last page), or an error. */
  datatype Reply<T> = Page(items: seq<T>, cont: string) | Failure(message: string)

  datatype Propagation = DefaultPropagation | Background

  /** The calls the manager issues against the API server. A `limit` of 0
      means that the request sets no limit. */
  datatype Call =
    | NamespaceList(cont: string)
    | JobList(namespace: string, selector: string, limit: nat, cont: string)
    | JobCreate(namespace: string, job: JobTemplate)
    | JobDelete(namespace: string, name: string, propagation: Propagation)

  const DefaultNamespace: string := "default"

  /** The reply the cluster gives to the i-th call of a loop. */
  function Answer<T>(script: seq<Reply<T>>, i: nat): Reply<T>
  {
    if i < |script| then script[i] else Failure("no reply from the API server")
  }

  /** A namespace setting with the fallback both commands apply. */
  function OrDefault(namespace: string): (r: string)
    ensures r != ""
    ensures namespace != "" ==> r == namespace
    ensures namespace == "" ==> r == DefaultNamespace
  {
    if namespace == "" then DefaultNamespace else namespace
  }
}
