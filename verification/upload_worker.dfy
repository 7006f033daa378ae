/**
 The per-file retry of an upload worker. The worker's queue is given as the
 sequence of paths it dequeues; the outcome of each upload attempt is an input.
 */
module UploadWorker {

  /** Each dequeued path gets at most this many upload attempts. */
  const MaxAttempts: nat := 4

  /**
   Whether attempt `i` succeeds, given the outcomes the service would produce;
   an attempt beyond the given outcomes fails.
   */
  predicate Succeeds(outcomes: seq<bool>, i: nat)
  {
    i < |outcomes| && outcomes[i]
  }

  /** How one path fared: the attempts made and whether one of them succeeded. */
  datatype Report = Report(path: string, attempts: nat, uploaded: bool)

  /**
   The retry loop from attempt `i` on: stop at the first success, otherwise try
   again until the attempts run out, then give up quietly.
   */
  function RetryFrom(path: string, outcomes: seq<bool>, i: nat): (r: Report)
    requires i <= MaxAttempts
    ensures r.path == path
    ensures i <= r.attempts <= MaxAttempts
    ensures r.uploaded <==> exists k :: i <= k < MaxAttempts && Succeeds(outcomes, k)
    ensures r.uploaded ==> r.attempts >= 1 && Succeeds(outcomes, r.attempts - 1)
    ensures forall k :: i <= k < r.attempts - (if r.uploaded then 1 else 0) ==> !Succeeds(outcomes, k)
    ensures !r.uploaded ==> r.attempts == MaxAttempts
    decreases MaxAttempts - i
  {
    if i == MaxAttempts then Report(path, i, false)
    else if Succeeds(outcomes, i) then Report(path, i + 1, true)
    else RetryFrom(path, outcomes, i + 1)
  }

  /** The whole retry loop for one dequeued path. */
  function Retry(path: string, outcomes: seq<bool>): (r: Report)
    ensures r.path == path
    ensures 1 <= r.attempts <= MaxAttempts
    ensures r.uploaded <==> exists k :: 0 <= k < MaxAttempts && Succeeds(outcomes, k)
    ensures r.uploaded ==> Succeeds(outcomes, r.attempts - 1)
    ensures forall k :: 0 <= k < r.attempts - 1 ==> !Succeeds(outcomes, k)
    ensures !r.uploaded ==> r.attempts == MaxAttempts && !Succeeds(outcomes, MaxAttempts - 1)
  {
    RetryFrom(path, outcomes, 0)
  }

  /** Failing three times and succeeding on the fourth attempt still uploads the file. */
  lemma FourthAttemptCounts(path: string)
    ensures Retry(path, [false, false, false, true]) == Report(path, 4, true)
  {
  }

  /** A dequeued path together with the outcomes its attempts would have. */
  datatype Task = Task(path: string, outcomes: seq<bool>)

  /**
   One worker draining the paths it dequeues, in order: every path gets its own
   retry loop, and a path that exhausts its attempts does not stop the worker.
   */
  method Drain(tasks: seq<Task>) returns (reports: seq<Report>, totalAttempts: nat)
    ensures |reports| == |tasks|
    ensures forall i :: 0 <= i < |tasks| ==> reports[i] == Retry(tasks[i].path, tasks[i].outcomes)
    ensures totalAttempts <= MaxAttempts * |tasks|
    ensures totalAttempts >= |tasks|
  {
    reports := [];
    totalAttempts := 0;
    var i := 0;
    while i < |tasks|
      invariant 0 <= i <= |tasks|
      invariant |reports| == i
      invariant forall j :: 0 <= j < i ==> reports[j] == Retry(tasks[j].path, tasks[j].outcomes)
      invariant i <= totalAttempts <= MaxAttempts * i
    {
      var report := Retry(tasks[i].path, tasks[i].outcomes);
      reports := reports + [report];
      totalAttempts := totalAttempts + report.attempts;
      i := i + 1;
    }
  }
}
