/** The retry-bounded paginated listing that the cleanup pass runs twice,
    once over namespaces and once per namespace over its jobs: request a
    page with the current continue token; on an error count one retry and
    ask again with the same token; otherwise keep the page's items and
    follow its token until it is empty. One retry counter serves the whole
    loop and is never reset, so the third failed call ends it, keeping
    whatever was gathered. */
module Pagination {
  import opened Kube

  const MaxRetries: nat := 3

  /** Failed calls among the first n calls of a loop. */
  function Failures<T>(script: seq<Reply<T>>, n: nat): nat
  {
    if n == 0 then 0
    else Failures(script, n - 1) + (if Answer(script, n - 1).Failure? then 1 else 0)
  }

  /** The continue token sent with call i: none for the first call, the same
      token again after a failed call, the token of the page just received
      after a successful one. */
  function CursorAt<T>(script: seq<Reply<T>>, i: nat): string
  {
    if i == 0 then ""
    else match Answer(script, i - 1)
      case Failure(_) => CursorAt(script, i - 1)
      case Page(_, cont) => cont
  }

  /** The items of the successful calls among the first n, in call order. */
  function Collected<T>(script: seq<Reply<T>>, n: nat): seq<T>
  {
    if n == 0 then []
    else Collected(script, n - 1) + (match Answer(script, n - 1) case Page(items, _) => items case Failure(_) => [])
  }

  /** The loop is over after n calls: the retries are spent, or the last
      call returned the final page. */
  predicate Finished<T>(script: seq<Reply<T>>, n: nat)
  {
    || Failures(script, n) >= MaxRetries
    || (n > 0 && Answer(script, n - 1).Page? && Answer(script, n - 1).cont == "")
  }

  /** Calls past the end of the script all fail, so k of them use up k retries. */
  lemma {:induction false} FailuresPastScript<T>(script: seq<Reply<T>>, k: nat)
    ensures Failures(script, |script| + k) >= k
  {
    if k > 0 {
      FailuresPastScript(script, k - 1);
    }
  }

  /** The first n >= from after which the loop is over. */
  function FirstFinished<T>(script: seq<Reply<T>>, from: nat): (n: nat)
    requires from <= |script| + MaxRetries
    requires forall m :: 0 <= m < from ==> !Finished(script, m)
    ensures from <= n <= |script| + MaxRetries
    ensures Finished(script, n)
    ensures forall m :: 0 <= m < n ==> !Finished(script, m)
    decreases |script| + MaxRetries - from
  {
    if Finished(script, from) then from
    else
      assert from < |script| + MaxRetries by { FailuresPastScript(script, MaxRetries); }
      FirstFinished(script, from + 1)
  }

  /** How many list calls one enumeration makes. */
  function CallCount<T>(script: seq<Reply<T>>): nat
  {
    FirstFinished(script, 0)
  }

  /** What one enumeration gathers. */
  function Enumerated<T>(script: seq<Reply<T>>): seq<T>
  {
    Collected(script, CallCount(script))
  }

  /** The enumeration loop. `cursors` are the continue tokens of the calls
      it made, in order. */
  method Paginate<T>(script: seq<Reply<T>>) returns (items: seq<T>, cursors: seq<string>)
    ensures |cursors| == CallCount(script) <= |script| + MaxRetries
    ensures forall i :: 0 <= i < |cursors| ==> cursors[i] == CursorAt(script, i)
    ensures items == Enumerated(script)
    ensures Failures(script, |cursors|) <= MaxRetries
  {
    items, cursors := [], [];
    var continueStr := "";
    var retry := 0;
    ghost var n := 0;
    while retry < MaxRetries
      invariant n == |cursors|
      invariant retry == Failures(script, n) <= MaxRetries
      invariant continueStr == CursorAt(script, n)
      invariant forall i :: 0 <= i < n ==> cursors[i] == CursorAt(script, i)
      invariant items == Collected(script, n)
      invariant n <= CallCount(script)
      invariant n > 0 ==> !(Answer(script, n - 1).Page? && Answer(script, n - 1).cont == "")
      decreases CallCount(script) - n
    {
      var reply := Answer(script, |cursors|);
      assert !Finished(script, n);
      if reply.Failure? {
        FailedCall(script, n);
        cursors, n := cursors + [continueStr], n + 1;
        retry := retry + 1;
        continue;
      }
      ReceivedPage(script, n);
      cursors, n := cursors + [continueStr], n + 1;
      items := items + reply.items;
      if reply.cont == "" {
        break;
      }
      continueStr := reply.cont;
    }
    assert Finished(script, n);
  }

  /** A page adds its items and its token and no failure. */
  lemma ReceivedPage<T>(script: seq<Reply<T>>, n: nat)
    requires Answer(script, n).Page?
    ensures Failures(script, n + 1) == Failures(script, n)
    ensures Collected(script, n + 1) == Collected(script, n) + Answer(script, n).items
    ensures CursorAt(script, n + 1) == Answer(script, n).cont
  {
  }

  /** The items gathered after m calls stay, in place, in what is gathered
      after any later call: nothing accumulated is ever dropped. */
  lemma {:induction false} CollectedGrows<T>(script: seq<Reply<T>>, m: nat, n: nat)
    requires m <= n
    ensures Collected(script, m) <= Collected(script, n)
    decreases n - m
  {
    if m < n {
      CollectedGrows(script, m, n - 1);
    }
  }

  /** Every page received during the enumeration contributes all its items,
      contiguously and in page order, at the position where the items of
      the earlier calls end. */
  lemma PageKept<T>(script: seq<Reply<T>>, i: nat)
    requires i < CallCount(script) && Answer(script, i).Page?
    ensures var before := |Collected(script, i)|;
      before + |Answer(script, i).items| <= |Enumerated(script)| &&
      Enumerated(script)[before..before + |Answer(script, i).items|] == Answer(script, i).items
  {
    CollectedGrows(script, i + 1, CallCount(script));
  }

  /** When the first three calls fail, the enumeration makes exactly those
      three calls, all without a continue token, and gathers nothing. */
  lemma ThreeFailuresYieldNothing<T>(script: seq<Reply<T>>)
    requires Answer(script, 0).Failure? && Answer(script, 1).Failure? && Answer(script, 2).Failure?
    ensures CallCount(script) == 3
    ensures Enumerated(script) == []
    ensures CursorAt(script, 0) == CursorAt(script, 1) == CursorAt(script, 2) == ""
  {
    FailedCall(script, 0);
    FailedCall(script, 1);
    FailedCall(script, 2);
    assert !Finished(script, 0) && !Finished(script, 1) && !Finished(script, 2);
    assert FirstFinished(script, 3) == 3;
    assert FirstFinished(script, 2) == 3;
    assert FirstFinished(script, 1) == 3;
  }

  /** A failed call adds a failure, gathers nothing and leaves the token alone. */
  lemma FailedCall<T>(script: seq<Reply<T>>, n: nat)
    requires Answer(script, n).Failure?
    ensures Failures(script, n + 1) == Failures(script, n) + 1
    ensures Collected(script, n + 1) == Collected(script, n)
    ensures CursorAt(script, n + 1) == CursorAt(script, n)
  {
    assert Collected(script, n + 1) == Collected(script, n) + [];
  }

  /** Retries are counted over the whole loop, not per page: the loop stops
      at its third failed call however many pages succeeded in between. */
  lemma {:induction false} StopsAtThirdFailure<T>(script: seq<Reply<T>>, n: nat)
    requires Failures(script, n) == MaxRetries && Answer(script, n - 1).Failure?
    requires forall m :: 0 <= m < n - 1 ==> Answer(script, m).Failure? || Answer(script, m).cont != ""
    ensures CallCount(script) == n
  {
    assert Finished(script, n);
    forall m | 0 <= m < n
      ensures !Finished(script, m)
    {
      FailuresMonotone(script, m, n - 1);
    }
  }

  lemma {:induction false} FailuresMonotone<T>(script: seq<Reply<T>>, m: nat, n: nat)
    requires m <= n
    ensures Failures(script, m) <= Failures(script, n)
    decreases n - m
  {
    if m < n {
      FailuresMonotone(script, m, n - 1);
    }
  }
}
