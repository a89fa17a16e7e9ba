// Workers over one job table: finding, claiming and finishing a job are separate steps.
module TranslationQueue {
  import opened Wrappers
  import opened TranslationJobs

  type WorkerId = nat

  /** What a worker knows: the row it found with the attempts and the time it read, or the job
      it has claimed with that time as its mark. */
  datatype Phase = Idle | Found(id: JobId, attempts: nat, at: int) | Holding(id: JobId, attempts: nat, at: int)

  datatype State = State(jobs: Jobs, workers: map<WorkerId, Phase>)

  datatype Step =
    | Enqueue(job: JobId, now: int)
    | Recover(now: int)
    | Find(worker: WorkerId, job: JobId, now: int)
    | Claim(worker: WorkerId)
    | Finish(worker: WorkerId, ok: bool, now: int)
    | Delete(ids: set<JobId>)

  function PhaseOf(s: State, w: WorkerId): Phase {
    if w in s.workers then s.workers[w] else Idle
  }

  ghost predicate Mentions(s: State, w: WorkerId, id: JobId) {
    !PhaseOf(s, w).Idle? && PhaseOf(s, w).id == id
  }

  ghost predicate Holds(s: State, w: WorkerId, id: JobId) {
    PhaseOf(s, w).Holding? && PhaseOf(s, w).id == id
  }

  /** A key that has no row yet gets a row with a fresh id. */
  ghost predicate Enabled(s: State, step: Step) {
    match step
    case Enqueue(id, _) => id in s.jobs || forall w :: !Mentions(s, w, id)
    case Recover(_) => true
    case Find(w, id, now) => PhaseOf(s, w).Idle? && id in s.jobs && Due(s.jobs[id], now)
    case Claim(w) => PhaseOf(s, w).Found?
    case Finish(w, _, _) => PhaseOf(s, w).Holding?
    case Delete(_) => true
  }

  /** queueEntityTranslations resets whatever row the key has. */
  function Enqueued(jobs: Jobs, id: JobId, now: int): Jobs {
    jobs[id := JobRow(Pending, 0, now, None, if id in jobs then jobs[id].createdAt else now)]
  }

  function Next(s: State, step: Step): State
    requires step.Find? ==> step.job in s.jobs
    requires step.Claim? ==> PhaseOf(s, step.worker).Found?
    requires step.Finish? ==> PhaseOf(s, step.worker).Holding?
  {
    match step
    case Enqueue(id, now) => s.(jobs := Enqueued(s.jobs, id, now))
    case Recover(now) => s.(jobs := Recovered(s.jobs, now))
    case Find(w, id, now) => s.(workers := s.workers[w := Found(id, s.jobs[id].attempts, now)])
    case Claim(w) =>
      var p := PhaseOf(s, w);
      if p.id in s.jobs && Waiting(s.jobs[p.id])
      then State(s.jobs[p.id := Claimed(s.jobs[p.id], p.at)], s.workers[w := Holding(p.id, p.attempts, p.at)])
      else s.(workers := s.workers[w := Idle])
    case Finish(w, ok, now) =>
      // The write looks at the id only; a row that is gone stays gone.
      var p := PhaseOf(s, w);
      State(if p.id in s.jobs then s.jobs[p.id := Finished(s.jobs[p.id], p.attempts, ok, now)] else s.jobs,
          s.workers[w := Idle])
    case Delete(ids) => s.(jobs := s.jobs - ids)
  }

  /** What the steps do to the row: queueing starts it afresh, keeping when it was created; claiming
      works only on a pending or failed row and marks it with the time read; finishing writes the
      outcome whatever the row has become. Nothing else about the jobs changes. */
  lemma StepsMean(s: State, step: Step)
    requires Enabled(s, step)
    ensures step.Enqueue? ==>
              Next(s, step).jobs == s.jobs[step.job := JobRow(Pending, 0, step.now, None,
                if step.job in s.jobs then s.jobs[step.job].createdAt else step.now)]
    ensures step.Find? ==> IsDue(s.jobs, step.job, step.now) && Next(s, step).jobs == s.jobs
    ensures step.Claim? ==>
              var (id, t) := (PhaseOf(s, step.worker).id, PhaseOf(s, step.worker).at);
              if id in s.jobs && s.jobs[id].status in {Pending, Failed}
              then Holds(Next(s, step), step.worker, id) && Next(s, step).jobs
                == s.jobs[id := s.jobs[id].(status := Processing, processingStartedAt := Some(t))]
              else PhaseOf(Next(s, step), step.worker).Idle? && Next(s, step).jobs == s.jobs
    ensures step.Finish? ==>
              var (id, n) := (PhaseOf(s, step.worker).id, PhaseOf(s, step.worker).attempts);
              && PhaseOf(Next(s, step), step.worker).Idle?
              && Next(s, step).jobs == if id !in s.jobs then s.jobs
                else if step.ok then s.jobs[id := s.jobs[id].(status := Completed, processingStartedAt := None)]
                else
                  var delay := DELAYS[if n < 7 then n else 7];
                  s.jobs[id := JobRow(Failed, n + 1, step.now + delay, None, s.jobs[id].createdAt)]
  {
    if step.Finish? { BackoffIsDelay(PhaseOf(s, step.worker).attempts + 1); }
  }

  // ----- exclusion -----

  /** The row of a held job, while it exists, is marked as claimed by its holder. */
  ghost predicate Locked(s: State) {
    forall w, id :: Holds(s, w, id) && id in s.jobs
        ==> s.jobs[id].status.Processing? && s.jobs[id].processingStartedAt == Some(PhaseOf(s, w).at)
  }

  ghost predicate Exclusive(s: State) {
    forall v, w, id :: Holds(s, v, id) && Holds(s, w, id) ==> v == w
  }

  /** The step takes a claim away behind the holder's back: a recovery that finds it stale, or
      the key being queued again. */
  ghost predicate Disturbs(s: State, step: Step) {
    || (step.Enqueue? && step.job in s.jobs && exists w :: Holds(s, w, step.job))
    || (step.Recover? && exists w :: HoldsTooLong(s, w, step.now))
  }

  ghost predicate HoldsTooLong(s: State, w: WorkerId, now: int) {
    PhaseOf(s, w).Holding? && PhaseOf(s, w).id in s.jobs && PhaseOf(s, w).at < now - STALE_MS
  }

  /** A job that may be claimed is held by nobody. */
  lemma WaitingIsFree(s: State, w: WorkerId, id: JobId)
    requires Locked(s) && id in s.jobs && Waiting(s.jobs[id])
    ensures !Holds(s, w, id)
  {
  }

  /** A step keeps at most one holder per job. */
  lemma StepKeepsExclusive(s: State, step: Step)
    requires Enabled(s, step) && Locked(s) && Exclusive(s)
    ensures Exclusive(Next(s, step))
  {
    var t := Next(s, step);
    forall v, w, id | Holds(t, v, id) && Holds(t, w, id) ensures v == w {
      if step.Claim? && step.worker == v {
        if v != w { WaitingIsFree(s, w, id); }
      } else if step.Claim? && step.worker == w {
        WaitingIsFree(s, v, id);
      } else {
        assert Holds(s, v, id) && Holds(s, w, id);
      }
    }
  }

  lemma UndisturbedKeepsLocked(s: State, step: Step)
    requires Enabled(s, step) && Locked(s) && Exclusive(s) && !Disturbs(s, step)
    ensures Locked(Next(s, step))
  {
    var t := Next(s, step);
    forall w, id | Holds(t, w, id) && id in t.jobs
      ensures t.jobs[id].status.Processing? && t.jobs[id].processingStartedAt == Some(PhaseOf(t, w).at)
    {
      if !(step.Claim? && step.worker == w) {
        assert Holds(s, w, id);
        if step.Enqueue? && step.job == id { assert Mentions(s, w, id); }
        if step.Recover? { assert !HoldsTooLong(s, w, step.now); }
        assert step.Finish? ==> !Holds(s, step.worker, id);
        if step.Claim? && id in s.jobs && Waiting(s.jobs[id]) { WaitingIsFree(s, w, id); }
      }
    }
  }

  /** What a disturbing step leaves: a held job that is due. */
  lemma DisturbedIsDue(s: State, step: Step) returns (w: WorkerId, id: JobId)
    requires Enabled(s, step) && Locked(s) && Disturbs(s, step)
    ensures Holds(Next(s, step), w, id) && id in Next(s, step).jobs && Due(Next(s, step).jobs[id], step.now)
  {
    if step.Enqueue? {
      id := step.job;
      w :| Holds(s, w, step.job);
    } else {
      w :| HoldsTooLong(s, w, step.now);
      id := PhaseOf(s, w).id;
      assert Holds(s, w, id) && Stale(s.jobs[id], step.now);
    }
    assert Holds(Next(s, step), w, id);
  }

  /** A step leaves every claim marked exactly if it disturbs none. */
  lemma LockedIff(s: State, step: Step)
    requires Enabled(s, step) && Locked(s) && Exclusive(s)
    ensures Locked(Next(s, step)) <==> !Disturbs(s, step)
  {
    if Disturbs(s, step) {
      var w, id := DisturbedIsDue(s, step);
    } else {
      UndisturbedKeepsLocked(s, step);
    }
  }

  // ----- runs -----

  ghost predicate Possible(s: State, steps: seq<Step>)
    decreases |steps|
  {
    steps == [] || (Enabled(s, steps[0]) && Possible(Next(s, steps[0]), steps[1..]))
  }

  ghost function Run(s: State, steps: seq<Step>): State
    requires Possible(s, steps)
    decreases |steps|
  {
    if steps == [] then s else Run(Next(s, steps[0]), steps[1..])
  }

  ghost predicate Undisturbed(s: State, steps: seq<Step>)
    requires Possible(s, steps)
    decreases |steps|
  {
    steps == [] || (!Disturbs(s, steps[0]) && Undisturbed(Next(s, steps[0]), steps[1..]))
  }

  /** Any number of workers, any interleaving: while no recovery finds a held job older than five
      minutes and no held key is queued again, no job is held by two workers and every result is
      written to the row its worker claimed. */
  lemma {:induction false} NoJobIsHeldTwice(s: State, steps: seq<Step>)
    requires Possible(s, steps) && Undisturbed(s, steps) && Locked(s) && Exclusive(s)
    ensures Exclusive(Run(s, steps)) && Locked(Run(s, steps))
    decreases |steps|
  {
    if steps != [] {
      StepKeepsExclusive(s, steps[0]);
      UndisturbedKeepsLocked(s, steps[0]);
      NoJobIsHeldTwice(Next(s, steps[0]), steps[1..]);
    }
  }

  // ----- what happens without the two conditions -----

  /** Some worker has not claimed anything. */
  lemma IdleWorker(s: State) returns (v: WorkerId)
    ensures v !in s.workers
  {
    v := 0;
    var seen: set<WorkerId> := {};
    while v in s.workers
      invariant seen <= s.workers.Keys && forall u :: u in seen <==> 0 <= u < v
      decreases s.workers.Keys - seen
    {
      seen, v := seen + {v}, v + 1;
    }
  }

  /** A job that is due while it is held can be claimed by a second worker in two steps. */
  lemma DueWhileHeld(s: State, w: WorkerId, id: JobId, now: int) returns (more: seq<Step>)
    requires Holds(s, w, id) && id in s.jobs && Due(s.jobs[id], now)
    ensures Possible(s, more) && Undisturbed(s, more) && !Exclusive(Run(s, more))
  {
    var v := IdleWorker(s);
    var found := Next(s, Find(v, id, now));
    var twice := Next(found, Claim(v));
    assert Holds(twice, v, id) && Holds(twice, w, id);
    RunStep(found, Claim(v), []);
    RunStep(s, Find(v, id, now), [Claim(v)] + []);
    more := [Find(v, id, now)] + ([Claim(v)] + []);
  }

  ghost predicate CanHoldTwice(s: State) {
    exists more :: Possible(s, more) && Undisturbed(s, more) && !Exclusive(Run(s, more))
  }

  /** The two kinds of steps are exactly those that endanger exclusion: after any other step no
      undisturbed continuation lets two workers hold a job; after one of these some does. */
  lemma ExclusionIsLostIff(s: State, step: Step)
    requires Enabled(s, step) && Locked(s) && Exclusive(s)
    ensures CanHoldTwice(Next(s, step)) <==> Disturbs(s, step)
  {
    if Disturbs(s, step) {
      var w, id := DisturbedIsDue(s, step);
      var more := DueWhileHeld(Next(s, step), w, id, step.now);
    } else {
      StepKeepsExclusive(s, step);
      LockedIff(s, step);
      forall more | Possible(Next(s, step), more) && Undisturbed(Next(s, step), more)
          ensures Exclusive(Run(Next(s, step), more)) {
        NoJobIsHeldTwice(Next(s, step), more);
      }
    }
  }

  lemma RunStep(s: State, step: Step, rest: seq<Step>)
    requires Enabled(s, step) && Possible(Next(s, step), rest)
    ensures Possible(s, [step] + rest) && Run(s, [step] + rest) == Run(Next(s, step), rest)
    ensures Undisturbed(s, [step] + rest) <==> !Disturbs(s, step) && Undisturbed(Next(s, step), rest)
  {
    assert ([step] + rest)[1..] == rest;
  }

  const ONE_JOB := State(map["j" := JobRow(Pending, 0, 0, None, 0)], map[])

  /** A job queued again while it is processed is claimed a second time. */
  lemma RequeueBreaksExclusion() returns (steps: seq<Step>)
    ensures Possible(ONE_JOB, steps) && !Exclusive(Run(ONE_JOB, steps))
    ensures forall step :: step in steps ==> !step.Recover?
  {
    var s0 := ONE_JOB;
    var a, b, c, d, e := Find(1, "j", 0), Claim(1), Enqueue("j", 1), Find(2, "j", 1), Claim(2);
    var s1 := Next(s0, a);
    var s2 := Next(s1, b);
    var s3 := Next(s2, c);
    var s4 := Next(s3, d);
    var s5 := Next(s4, e);
    RunStep(s4, e, []);
    RunStep(s3, d, [e]);
    RunStep(s2, c, [d] + [e]);
    RunStep(s1, b, [c] + ([d] + [e]));
    RunStep(s0, a, [b] + ([c] + ([d] + [e])));
    steps := [a] + ([b] + ([c] + ([d] + [e])));
    assert Holds(s5, 1, "j") && Holds(s5, 2, "j");
  }

  /** So is a job that takes longer than five minutes, without anything being queued again. */
  lemma SlowJobBreaksExclusion() returns (steps: seq<Step>)
    ensures Possible(ONE_JOB, steps) && !Exclusive(Run(ONE_JOB, steps))
    ensures forall step :: step in steps ==> !step.Enqueue?
  {
    var s0 := ONE_JOB;
    var a, b, c, d, e := Find(1, "j", 0), Claim(1), Recover(300001), Find(2, "j", 300001), Claim(2);
    var s1 := Next(s0, a);
    var s2 := Next(s1, b);
    var s3 := Next(s2, c);
    var s4 := Next(s3, d);
    var s5 := Next(s4, e);
    RunStep(s4, e, []);
    RunStep(s3, d, [e]);
    RunStep(s2, c, [d] + [e]);
    RunStep(s1, b, [c] + ([d] + [e]));
    RunStep(s0, a, [b] + ([c] + ([d] + [e])));
    steps := [a] + ([b] + ([c] + ([d] + [e])));
    assert Holds(s5, 1, "j") && Holds(s5, 2, "j");
  }

  // ----- requeued work -----

  ghost predicate CompletedIn(s: State, id: JobId) {
    id in s.jobs && s.jobs[id].status.Completed?
  }

  /** No worker reads the row. */
  ghost predicate Unread(steps: seq<Step>, id: JobId) {
    forall step :: step in steps ==> !(step.Find? && step.job == id)
  }

  /** The job can become completed although nobody reads its row from now on. */
  ghost predicate CanBeSwallowed(s: State, id: JobId) {
    exists more :: Possible(s, more) && Unread(more, id) && CompletedIn(Run(s, more), id)
  }

  /** Nobody works on the job, and it is not completed. */
  ghost predicate Untouched(s: State, id: JobId) {
    !CompletedIn(s, id) && forall w :: !Mentions(s, w, id)
  }

  lemma UntouchedStep(s: State, step: Step, id: JobId)
    requires Enabled(s, step) && Untouched(s, id) && !(step.Find? && step.job == id)
    ensures Untouched(Next(s, step), id)
  {
    var t := Next(s, step);
    forall w ensures !Mentions(t, w, id) {
      assert !Mentions(s, w, id);
    }
    if step.Finish? { assert !Mentions(s, step.worker, id); }
    if step.Claim? { assert !Mentions(s, step.worker, id); }
  }

  lemma {:induction false} UntouchedRun(s: State, steps: seq<Step>, id: JobId)
    requires Possible(s, steps) && Unread(steps, id) && Untouched(s, id)
    ensures !CompletedIn(Run(s, steps), id)
    decreases |steps|
  {
    if steps != [] {
      assert steps[0] in steps;
      UntouchedStep(s, steps[0], id);
      UntouchedRun(Next(s, steps[0]), steps[1..], id);
    }
  }

  /** A holder finishes what it holds, whatever has been queued since. */
  lemma HolderCompletes(s: State, w: WorkerId, id: JobId)
    requires Holds(s, w, id) && id in s.jobs
    ensures Possible(s, [Finish(w, true, 0)]) && CompletedIn(Run(s, [Finish(w, true, 0)]), id)
  {
    RunStep(s, Finish(w, true, 0), []);
    assert [Finish(w, true, 0)] + [] == [Finish(w, true, 0)];
  }

  /** A worker that has found the row claims it, since it is pending, and finishes it. */
  lemma FinderCompletes(s: State, w: WorkerId, id: JobId)
    requires PhaseOf(s, w).Found? && PhaseOf(s, w).id == id && id in s.jobs && Waiting(s.jobs[id])
    ensures var steps := [Claim(w)] + [Finish(w, true, 0)];
            Possible(s, steps) && CompletedIn(Run(s, steps), id)
  {
    HolderCompletes(Next(s, Claim(w)), w, id);
    RunStep(s, Claim(w), [Finish(w, true, 0)]);
  }

  /** What is queued can be marked completed without anybody having read it exactly if a worker
      is at the key when it is queued: one that processes the job, whose last write looks at the
      id only, or one that has found the row and claims it with the fields it read before. */
  lemma RequeuedWorkIsSwallowedIff(s: State, id: JobId, now: int)
    requires Enabled(s, Enqueue(id, now))
    ensures CanBeSwallowed(Next(s, Enqueue(id, now)), id) <==> exists w :: Mentions(s, w, id)
  {
    var queued := Next(s, Enqueue(id, now));
    if w :| Mentions(s, w, id) {
      var steps: seq<Step>;
      if Holds(s, w, id) {
        HolderCompletes(queued, w, id);
        steps := [Finish(w, true, 0)];
      } else {
        FinderCompletes(queued, w, id);
        steps := [Claim(w)] + [Finish(w, true, 0)];
      }
      assert Unread(steps, id);
    } else {
      forall w ensures !Mentions(queued, w, id) {
        assert !Mentions(s, w, id);
      }
      forall more | Possible(queued, more) && Unread(more, id) ensures !CompletedIn(Run(queued, more), id) {
        UntouchedRun(queued, more, id);
      }
    }
  }
}
