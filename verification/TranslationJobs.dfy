// Rows of the translation job table, the backoff between attempts, and one worker that drains
// the jobs that are due.
module TranslationJobs {
  import opened Wrappers

  type JobId = string

  datatype Status = Pending | Processing | Failed | Completed

  datatype JobRow = JobRow(status: Status, attempts: nat, nextAttemptAt: int,
      processingStartedAt: Option<int>, createdAt: int)

  type Jobs = map<JobId, JobRow>

  const STALE_MS := 300000
  const MAX_BACKOFF_MS := 900000

  function Min(a: nat, b: nat): nat {
    if a <= b then a else b
  }

  function Pow2(n: nat): nat {
    if n == 0 then 1 else 2 * Pow2(n - 1)
  }

  function Backoff(attempts: nat): nat {
    Min(Pow2(Min(attempts, 8)) * 1000, MAX_BACKOFF_MS)
  }

  lemma {:induction false} Pow2Grows(a: nat, b: nat)
    requires a <= b
    ensures 1 <= Pow2(a) <= Pow2(b)
  {
    if b > 0 {
      if a < b { Pow2Grows(a, b - 1); } else { Pow2Grows(a - 1, b - 1); }
    }
  }

  /** The delay never shrinks as attempts grow, is at least a second, and stays at 256 seconds
      from the eighth attempt on, so the cap of fifteen minutes is never what decides. */
  lemma BackoffGrows(a: nat, b: nat)
    requires a <= b
    ensures 1000 <= Backoff(a) <= Backoff(b) <= 256000
    ensures 8 <= b ==> Backoff(b) == 256000
    ensures Backoff(b) == Pow2(Min(b, 8)) * 1000
  {
    Pow2Grows(Min(a, 8), Min(b, 8));
    Pow2Grows(Min(b, 8), 8);
    assert Pow2(8) == 2 * Pow2(7) == 4 * Pow2(6) == 8 * Pow2(5) == 16 * Pow2(4) == 32 * Pow2(3) == 64 * Pow2(2)
        == 128 * Pow2(1) == 256;
  }

  /** The delays in milliseconds after a first, second, ... and eighth failure. */
  const DELAYS := [2000, 4000, 8000, 16000, 32000, 64000, 128000, 256000]

  lemma BackoffIsDelay(attempts: nat)
    requires 1 <= attempts
    ensures Backoff(attempts) == DELAYS[if attempts < 8 then attempts - 1 else 7]
  {
    assert Pow2(1) == 2 && Pow2(2) == 4 && Pow2(3) == 8 && Pow2(4) == 16;
    assert Pow2(5) == 2 * Pow2(4) && Pow2(6) == 2 * Pow2(5) && Pow2(7) == 2 * Pow2(6) && Pow2(8) == 2 * Pow2(7);
  }

  predicate Waiting(j: JobRow) {
    j.status.Pending? || j.status.Failed?
  }

  predicate Due(j: JobRow, now: int) {
    Waiting(j) && j.nextAttemptAt <= now
  }

  predicate Stale(j: JobRow, now: int) {
    j.status.Processing? && j.processingStartedAt.Some? && j.processingStartedAt.value < now - STALE_MS
  }

  function Recovered(jobs: Jobs, now: int): Jobs {
    map id | id in jobs ::
        if Stale(jobs[id], now) then jobs[id].(status := Failed, processingStartedAt := None, nextAttemptAt := now)
        else jobs[id]
  }

  function Claimed(j: JobRow, now: int): JobRow {
    j.(status := Processing, processingStartedAt := Some(now))
  }

  /** The last write of processJob; `attempts` is what the worker read when it found the job. */
  function Finished(j: JobRow, attempts: nat, ok: bool, now: int): JobRow {
    if ok then j.(status := Completed, processingStartedAt := None)
    else j.(status := Failed, attempts := attempts + 1, nextAttemptAt := now + Backoff(attempts + 1),
        processingStartedAt := None)
  }

  /** The order of findFirst. */
  predicate NotAfter(a: JobRow, b: JobRow) {
    a.nextAttemptAt < b.nextAttemptAt || (a.nextAttemptAt == b.nextAttemptAt && a.createdAt <= b.createdAt)
  }

  /** A due job that has been handled is not due again at the same time. */
  lemma HandledIsNotDue(j: JobRow, ok: bool, now: int)
    ensures !Due(Finished(Claimed(j, now), j.attempts, ok, now), now)
    ensures !ok ==> now + 1000 <= Finished(Claimed(j, now), j.attempts, ok, now).nextAttemptAt <= now + 256000
  {
    BackoffGrows(0, j.attempts + 1);
  }

  /** Every due job handled once, every other job as it was. */
  ghost function Drained(jobs: Jobs, done: set<JobId>, succeeds: JobId -> bool, now: int): Jobs {
    map id | id in jobs ::
        if id in done then Finished(Claimed(jobs[id], now), jobs[id].attempts, succeeds(id), now) else jobs[id]
  }

  function DueIds(jobs: Jobs, now: int): set<JobId> {
    set id | id in jobs && Due(jobs[id], now)
  }

  function StaleIds(jobs: Jobs, now: int): set<JobId> {
    set id | id in jobs && Stale(jobs[id], now)
  }

  /** Pending or failed, and its time has come. */
  ghost predicate IsDue(jobs: Jobs, id: JobId, now: int) {
    id in jobs && jobs[id].status in {Pending, Failed} && jobs[id].nextAttemptAt <= now
  }

  /** Claimed more than five minutes ago. */
  ghost predicate IsStale(jobs: Jobs, id: JobId, now: int) {
    && id in jobs && jobs[id].status.Processing?
    && exists t :: jobs[id].processingStartedAt == Some(t) && t < now - 300000
  }

  /** When the job was or became due, at a recovery at `now`. */
  ghost function DueTime(jobs: Jobs, id: JobId, now: int): int
    requires id in jobs
  {
    if IsStale(jobs, id, now) then now else jobs[id].nextAttemptAt
  }

  /** The row of a handled job: completed, or failed once more and due again after the delay. */
  ghost predicate Handled(was: JobRow, after: JobRow, ok: bool, now: int) {
    && after.createdAt == was.createdAt && after.processingStartedAt == None
    && (ok ==> after.status.Completed? && after.attempts == was.attempts)
    && (!ok ==> && after.status.Failed? && after.attempts == was.attempts + 1
                && after.nextAttemptAt == now + DELAYS[if was.attempts < 7 then was.attempts else 7])
  }

  lemma FinishedIsHandled(j: JobRow, now: int, ok: bool)
    ensures Handled(j, Finished(Claimed(j, now), j.attempts, ok, now), ok, now)
  {
    BackoffIsDelay(j.attempts + 1);
  }

  /** What a recovery does to each row: a stale one is failed and due now, the others are kept. */
  lemma RecoveredMeans(jobs: Jobs, now: int)
    ensures Recovered(jobs, now).Keys == jobs.Keys
    ensures forall id :: id in jobs ==>
              Recovered(jobs, now)[id] == if IsStale(jobs, id, now)
                then JobRow(Failed, jobs[id].attempts, now, None, jobs[id].createdAt) else jobs[id]
  {
  }

  /** A recovery makes exactly the stale jobs due besides those that were; none of them is stale
      at any later time, a second recovery finds nothing, and the attempts go on counting. */
  lemma RecoveryMakesDue(jobs: Jobs, now: int)
    ensures DueIds(Recovered(jobs, now), now) == DueIds(jobs, now) + StaleIds(jobs, now)
    ensures forall later ::
      now <= later ==> StaleIds(Recovered(jobs, now), later) == StaleIds(jobs, later) - StaleIds(jobs, now)
    ensures Recovered(Recovered(jobs, now), now) == Recovered(jobs, now)
    ensures Recovered(jobs, now).Keys == jobs.Keys
    ensures forall id :: id in jobs ==> Recovered(jobs, now)[id].attempts == jobs[id].attempts
  {
    var after := Recovered(jobs, now);
    forall id | id in jobs ensures Due(after[id], now) <==> Due(jobs[id], now) || Stale(jobs[id], now) {
      assert id in after;
    }
    forall later | now <= later ensures StaleIds(after, later) == StaleIds(jobs, later) - StaleIds(jobs, now) {
      forall id ensures id in StaleIds(after, later) <==> id in StaleIds(jobs, later) - StaleIds(jobs, now) {
      }
    }
  }

  /** The claims so far: each once, in the order of the query, none after a job still waiting. */
  ghost predicate Progress(start: Jobs, jobs: Jobs, claims: seq<JobId>, succeeds: JobId -> bool, now: int) {
    && ToSet(claims) <= DueIds(start, now)
    && jobs == Drained(start, ToSet(claims), succeeds, now)
    && Distinct(claims)
    && InOrder(start, claims)
    && forall c, d :: c in claims && d in DueIds(start, now) - ToSet(claims) ==> NotAfter(start[c], start[d])
  }

  ghost predicate InOrder(jobs: Jobs, claims: seq<JobId>) {
    && (forall c :: c in claims ==> c in jobs)
    && forall i, j :: 0 <= i < j < |claims| ==> NotAfter(jobs[claims[i]], jobs[claims[j]])
  }

  lemma WhatIsDue(start: Jobs, jobs: Jobs, claims: seq<JobId>, succeeds: JobId -> bool, now: int)
    requires Progress(start, jobs, claims, succeeds, now)
    ensures DueIds(jobs, now) == DueIds(start, now) - ToSet(claims)
    ensures forall id :: id in DueIds(jobs, now) ==> jobs[id] == start[id]
  {
    forall id | id in start ensures id in DueIds(jobs, now) <==> id in DueIds(start, now) - ToSet(claims) {
      if id in claims { HandledIsNotDue(start[id], succeeds(id), now); }
    }
  }

  lemma ProgressStep(start: Jobs, jobs: Jobs, claims: seq<JobId>, succeeds: JobId -> bool, now: int, id: JobId)
    requires Progress(start, jobs, claims, succeeds, now) && id in DueIds(jobs, now)
    requires forall d :: d in DueIds(jobs, now) ==> NotAfter(jobs[id], jobs[d])
    ensures Progress(start, jobs[id := Finished(Claimed(jobs[id], now), jobs[id].attempts, succeeds(id), now)],
      claims + [id], succeeds, now)
  {
    WhatIsDue(start, jobs, claims, succeeds, now);
    DistinctAppend(claims, [id]);
    var more := claims + [id];
    assert ToSet(more) == ToSet(claims) + {id};
    forall i, j | 0 <= i < j < |more| ensures NotAfter(start[more[i]], start[more[j]]) {
      if j == |claims| { assert claims[i] in claims; }
    }
  }

  /** Along the claims the due times never fall, nor the creation times where the due times are equal. */
  ghost predicate ClaimedByTime(jobs: Jobs, claims: seq<JobId>, now: int) {
    && (forall c :: c in claims ==> c in jobs)
    && (forall i, j :: 0 <= i < j < |claims| ==> DueTime(jobs, claims[i], now) <= DueTime(jobs, claims[j], now))
    && forall i, j :: 0 <= i < j < |claims| && DueTime(jobs, claims[i], now) == DueTime(jobs, claims[j], now)
         ==> jobs[claims[i]].createdAt <= jobs[claims[j]].createdAt
  }

  /** Every claimed job is handled, every other one as it was. */
  ghost predicate DrainedTo(was: Jobs, after: Jobs, claims: seq<JobId>, succeeds: JobId -> bool, now: int) {
    && after.Keys == was.Keys
    && (forall id :: id in was && id in claims ==> Handled(was[id], after[id], succeeds(id), now))
    && forall id :: id in was && id !in claims ==> after[id] == was[id]
  }

  lemma DrainMeans(was: Jobs, after: Jobs, claims: seq<JobId>, succeeds: JobId -> bool, now: int)
    requires ToSet(claims) == DueIds(was, now) + StaleIds(was, now) && InOrder(Recovered(was, now), claims)
    requires after == Drained(Recovered(was, now), ToSet(claims), succeeds, now)
    ensures forall id :: id in claims <==> IsDue(was, id, now) || IsStale(was, id, now)
    ensures ClaimedByTime(was, claims, now) && DrainedTo(was, after, claims, succeeds, now)
  {
    RecoveredMeans(was, now);
    forall id ensures id in claims <==> IsDue(was, id, now) || IsStale(was, id, now) {
      assert id in claims <==> id in ToSet(claims);
    }
    forall id | id in was && id in claims ensures Handled(was[id], after[id], succeeds(id), now) {
      FinishedIsHandled(Recovered(was, now)[id], now, succeeds(id));
    }
    forall i, j | 0 <= i < j < |claims|
      ensures DueTime(was, claims[i], now) <= DueTime(was, claims[j], now)
      ensures DueTime(was, claims[i], now) == DueTime(was, claims[j], now) ==>
                was[claims[i]].createdAt <= was[claims[j]].createdAt
    {
      assert claims[i] in claims && claims[j] in claims;
    }
  }

  class TranslationWorker {
    var jobs: Jobs
    var isProcessingJobs: bool

    constructor ()
      ensures jobs == map[] && !isProcessingJobs
    {
      jobs, isProcessingJobs := map[], false;
    }

    method RecoverStaleJobs(now: int)
      modifies `jobs
      ensures jobs == Recovered(old(jobs), now)
      ensures DueIds(jobs, now) == DueIds(old(jobs), now) + StaleIds(old(jobs), now) && StaleIds(jobs, now) == {}
    {
      RecoveryMakesDue(jobs, now);
      jobs := map id | id in jobs ::
          if Stale(jobs[id], now) then jobs[id].(status := Failed, processingStartedAt := None, nextAttemptAt := now)
          else jobs[id];
    }

    /** The query of claimNextJob. */
    method FindFirst(now: int) returns (found: Option<JobId>)
      ensures found.None? <==> DueIds(jobs, now) == {}
      ensures found.Some? ==> found.value in DueIds(jobs, now) && forall d ::
        d in DueIds(jobs, now) ==> NotAfter(jobs[found.value], jobs[d])
    {
      var left := DueIds(jobs, now);
      found := None;
      while left != {}
        invariant left <= DueIds(jobs, now)
        invariant found.None? ==> left == DueIds(jobs, now)
        invariant found.Some? ==> found.value in DueIds(jobs, now) && forall d ::
          d in DueIds(jobs, now) - left ==> NotAfter(jobs[found.value], jobs[d])
        decreases left
      {
        var id :| id in left;
        if found.None? || !NotAfter(jobs[found.value], jobs[id]) {
          found := Some(id);
        }
        left := left - {id};
      }
    }

    /** The row as it was found, or None when nothing is due. */
    method ClaimNextJob(now: int) returns (claimed: Option<(JobId, JobRow)>)
      modifies `jobs
      ensures claimed.None? <==> DueIds(old(jobs), now) == {}
      ensures claimed.None? ==> jobs == old(jobs)
      ensures claimed.Some? ==>
        var (id, row) := claimed.value;
        && id in DueIds(old(jobs), now) && row == old(jobs)[id] && jobs == old(jobs)[id := Claimed(row, now)]
        && forall d :: d in DueIds(old(jobs), now) ==> NotAfter(row, old(jobs)[d])
      ensures claimed.None? ==> forall d :: !IsDue(old(jobs), d, now)
      ensures claimed.Some? ==>
        var (id, row) := claimed.value;
        && IsDue(old(jobs), id, now) && row == old(jobs)[id]
        && jobs == old(jobs)[id := JobRow(Processing, row.attempts, row.nextAttemptAt, Some(now), row.createdAt)]
        && (forall d :: IsDue(old(jobs), d, now) ==> row.nextAttemptAt <= old(jobs)[d].nextAttemptAt)
        && forall d :: IsDue(old(jobs), d, now) && old(jobs)[d].nextAttemptAt == row.nextAttemptAt
             ==> row.createdAt <= old(jobs)[d].createdAt
    {
      assert forall d :: IsDue(jobs, d, now) <==> d in DueIds(jobs, now);
      var nextJob := FindFirst(now);
      if nextJob.None? {
        return None;
      }
      var id, row := nextJob.value, jobs[nextJob.value];
      var count := if Waiting(jobs[id]) then 1 else 0;
      if count == 1 {
        jobs := jobs[id := jobs[id].(status := Processing, processingStartedAt := Some(now))];
      }
      if count == 0 {
        return None;
      }
      claimed := Some((id, row));
    }

    method ProcessJob(id: JobId, row: JobRow, ok: bool, now: int)
      requires id in jobs
      modifies `jobs
      ensures jobs == old(jobs)[id := Finished(old(jobs)[id], row.attempts, ok, now)]
      ensures row.attempts == old(jobs)[id].attempts ==> Handled(old(jobs)[id], jobs[id], ok, now)
    {
      BackoffIsDelay(row.attempts + 1);
      if ok {
        jobs := jobs[id := jobs[id].(status := Completed, processingStartedAt := None)];
        return;
      }
      var attempts := row.attempts + 1;
      var delayMs := Min(Pow2(Min(attempts, 8)) * 1000, MAX_BACKOFF_MS);
      jobs := jobs[id := jobs[id].(status := Failed, attempts := attempts, nextAttemptAt := now + delayMs,
          processingStartedAt := None)];
    }

    /** The loop of processPendingJobs at a fixed clock, alone on the table: it ends, and claims
        every due job exactly once, in order. */
    method DrainDueJobs(now: int, succeeds: JobId -> bool) returns (claims: seq<JobId>)
      modifies `jobs
      ensures jobs == Drained(old(jobs), DueIds(old(jobs), now), succeeds, now) && DueIds(jobs, now) == {}
      ensures ToSet(claims) == DueIds(old(jobs), now) && Distinct(claims) && InOrder(old(jobs), claims)
    {
      claims := [];
      ghost var start := jobs;
      assert Drained(start, ToSet(claims), succeeds, now) == jobs;
      while true
        invariant Progress(start, jobs, claims, succeeds, now)
        decreases DueIds(start, now) - ToSet(claims)
      {
        WhatIsDue(start, jobs, claims, succeeds, now);
        var job := ClaimNextJob(now);
        if job.None? {
          break;
        }
        var id, row := job.value.0, job.value.1;
        ProgressStep(start, jobs[id := row], claims, succeeds, now, id);
        ProcessJob(id, row, succeeds(id), now);
        claims := claims + [id];
      }
      assert ToSet(claims) == DueIds(start, now);
    }

    /** Every job that was due or stale is claimed exactly once, none is due afterwards. */
    method ProcessPendingJobs(now: int, succeeds: JobId -> bool) returns (claims: seq<JobId>)
      modifies this
      ensures old(isProcessingJobs) ==> unchanged(this) && claims == []
      ensures !old(isProcessingJobs) ==>
        && !isProcessingJobs && DueIds(jobs, now) == {} && Distinct(claims)
        && ToSet(claims) == DueIds(old(jobs), now) + StaleIds(old(jobs), now)
        && jobs == Drained(Recovered(old(jobs), now), ToSet(claims), succeeds, now)
        && InOrder(Recovered(old(jobs), now), claims)
      ensures !old(isProcessingJobs) ==>
        && (forall id :: id in claims <==> IsDue(old(jobs), id, now) || IsStale(old(jobs), id, now))
        && ClaimedByTime(old(jobs), claims, now) && DrainedTo(old(jobs), jobs, claims, succeeds, now)
    {
      if isProcessingJobs {
        return [];
      }
      isProcessingJobs := true;
      RecoverStaleJobs(now);
      claims := DrainDueJobs(now, succeeds);
      isProcessingJobs := false;
      DrainMeans(old(jobs), jobs, claims, succeeds, now);
    }
  }
}
