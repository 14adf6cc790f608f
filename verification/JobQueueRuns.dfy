/** Any number of workers, the watchdog and enqueuers interleaved over one job table. */
module JobQueueRuns {
  import opened Wrappers
  import opened JobQueue

  /** The `job` variable of a worker that is between acquiring and writing its outcome. */
  datatype Execution = Execution(job: JobId, since: Time)

  datatype State = State(now: Time, jobs: Rows, workers: map<WorkerId, Execution>)

  /** Each database session is one step; a poll that finds nothing changes nothing and is no step. */
  datatype Action =
    | Enqueue(id: JobId, dedupeId: Option<string>, runAt: Option<Time>)
    | Acquire(worker: WorkerId, job: JobId)
    | Succeed(worker: WorkerId)
    | Fail(worker: WorkerId)
    | Watchdog
    | Tick(dt: nat)
    | Crash(worker: WorkerId)

  predicate Enabled(s: State, a: Action) {
    match a
    case Enqueue(id, _, _) => id !in s.jobs
    case Acquire(w, j) => w !in s.workers && EarliestClaimable(s.jobs, s.now, j)
    case Succeed(w) => w in s.workers
    case Fail(w) => w in s.workers
    case Crash(w) => w in s.workers
    case Watchdog => true
    case Tick(_) => true
  }

  function Step(s: State, a: Action): State
    requires Enabled(s, a)
  {
    match a
    case Enqueue(id, dedupeId, runAt) => s.(jobs := EnqueueRows(s.jobs, s.now, id, dedupeId, runAt))
    case Acquire(w, j) =>
      s.(jobs := s.jobs[j := LockRow(s.jobs[j], s.now, w)], workers := s.workers[w := Execution(j, s.now)])
    case Succeed(w) =>
      var j := s.workers[w].job;
      s.(jobs := if j in s.jobs then s.jobs[j := DoneRow(s.jobs[j])] else s.jobs, workers := s.workers - {w})
    case Fail(w) =>
      var j := s.workers[w].job;
      s.(jobs := if j in s.jobs then s.jobs[j := FailRow(s.jobs[j], s.now)] else s.jobs, workers := s.workers - {w})
    case Crash(w) => s.(workers := s.workers - {w})
    case Watchdog => s.(jobs := ReclaimRows(s.jobs, s.now))
    case Tick(dt) => s.(now := s.now + dt)
  }

  datatype Run = Run(states: seq<State>, acts: seq<Action>)

  /** A table of fresh jobs, any retry limits, no two active jobs under one deduplication id. */
  ghost predicate Initial(s: State) {
    && s.workers == map[]
    && (forall j :: j in s.jobs ==>
          && s.jobs[j].status == PENDING && s.jobs[j].attempts == 0 && s.jobs[j].maxAttempts >= 1
          && s.jobs[j].lockedAt == None && s.jobs[j].lockedBy == None)
    && UniqueActive(s.jobs)
  }

  ghost predicate IsRun(r: Run) {
    && |r.states| == |r.acts| + 1
    && Initial(r.states[0])
    && forall i :: 0 <= i < |r.acts| ==>
         Enabled(r.states[i], r.acts[i]) && r.states[i + 1] == Step(r.states[i], r.acts[i])
  }

  /** Every worker writes its outcome within five minutes of `locked_at`. */
  ghost predicate WithinLease(s: State) {
    forall w :: w in s.workers ==> s.now <= s.workers[w].since + LEASE
  }

  ghost predicate LeaseKept(r: Run) {
    forall i :: 0 <= i < |r.states| ==> WithinLease(r.states[i])
  }

  ghost predicate CrashFree(r: Run) {
    forall i :: 0 <= i < |r.acts| ==> !r.acts[i].Crash?
  }

  ghost predicate UniqueActive(jobs: Rows) {
    forall j, k ::
      (j in jobs && k in jobs && Active(jobs[j]) && Active(jobs[k])
       && Deduplicated(jobs[j].dedupeId) && jobs[j].dedupeId == jobs[k].dedupeId) ==> j == k
  }

  // ---------------------------------------------------------------- events of one job

  /** TakenOver: the acquisition of a job whose lock is older than the lease. */
  datatype Event = Executed | TakenOver | Succeeded | Failed | Crashed | Reclaimed

  predicate Happens(s: State, a: Action, e: Event, j: JobId) {
    match e
    case Executed => a.Acquire? && a.job == j
    case TakenOver => a.Acquire? && a.job == j && j in s.jobs && s.jobs[j].status == RUNNING
    case Succeeded => a.Succeed? && a.worker in s.workers && s.workers[a.worker].job == j
    case Failed => a.Fail? && a.worker in s.workers && s.workers[a.worker].job == j
    case Crashed => a.Crash? && a.worker in s.workers && s.workers[a.worker].job == j
    case Reclaimed => a.Watchdog? && j in s.jobs && Zombie(s.jobs[j], s.now)
  }

  /** How often an event of job `j` happens in the first `n` steps. */
  ghost function Tally(r: Run, n: nat, e: Event, j: JobId): nat
    requires IsRun(r) && n <= |r.acts|
  {
    if n == 0 then 0
    else Tally(r, n - 1, e, j) + if Happens(r.states[n - 1], r.acts[n - 1], e, j) then 1 else 0
  }

  /** The times of the first and the last failure of `j` in the first `n` steps. */
  ghost function FirstFailure(r: Run, n: nat, j: JobId): Option<Time>
    requires IsRun(r) && n <= |r.acts|
  {
    if n == 0 then None
    else if FirstFailure(r, n - 1, j).Some? then FirstFailure(r, n - 1, j)
    else if Happens(r.states[n - 1], r.acts[n - 1], Failed, j) then Some(r.states[n - 1].now)
    else None
  }

  ghost function LastFailure(r: Run, n: nat, j: JobId): Option<Time>
    requires IsRun(r) && n <= |r.acts|
  {
    if n == 0 then None
    else if Happens(r.states[n - 1], r.acts[n - 1], Failed, j) then Some(r.states[n - 1].now)
    else LastFailure(r, n - 1, j)
  }

  // ---------------------------------------------------------------- with no lease assumption

  ghost predicate WellFormed(s: State) {
    && (forall w :: w in s.workers ==> s.workers[w].job in s.jobs)
    && (forall j :: j in s.jobs && s.jobs[j].status == RUNNING ==> s.jobs[j].lockedAt.Some? && s.jobs[j].lockedBy.Some?)
    && (forall j :: j in s.jobs && s.jobs[j].status == DLQ ==> s.jobs[j].attempts >= s.jobs[j].maxAttempts)
    && (forall j :: j in s.jobs ==> s.jobs[j].maxAttempts >= 1)
  }

  lemma StepWellFormed(s: State, a: Action)
    requires Enabled(s, a) && WellFormed(s)
    ensures WellFormed(Step(s, a))
    ensures s.jobs.Keys <= Step(s, a).jobs.Keys && s.now <= Step(s, a).now
  {
  }

  lemma {:induction false} RunWellFormed(r: Run, n: nat)
    requires IsRun(r) && n <= |r.acts|
    ensures WellFormed(r.states[n])
  {
    if n > 0 {
      RunWellFormed(r, n - 1);
      StepWellFormed(r.states[n - 1], r.acts[n - 1]);
    }
  }

  lemma StepAttempts(s: State, a: Action, j: JobId)
    requires Enabled(s, a) && WellFormed(s)
    ensures j in s.jobs ==>
              && j in Step(s, a).jobs
              && Step(s, a).jobs[j].attempts == s.jobs[j].attempts
                   + (if Happens(s, a, Failed, j) then 1 else 0) + (if Happens(s, a, Reclaimed, j) then 1 else 0)
    ensures j !in s.jobs ==>
              && !Happens(s, a, Failed, j) && !Happens(s, a, Reclaimed, j)
              && (j in Step(s, a).jobs ==> Step(s, a).jobs[j].attempts == 0)
  {
  }

  /** Stale workers included: every attempt is a recorded failure or a watchdog reclaim. */
  lemma {:induction false} AttemptsAreFailuresPlusReclaims(r: Run, n: nat, j: JobId)
    requires IsRun(r) && n <= |r.acts|
    ensures j in r.states[n].jobs ==>
              r.states[n].jobs[j].attempts == Tally(r, n, Failed, j) + Tally(r, n, Reclaimed, j)
    ensures j !in r.states[n].jobs ==> Tally(r, n, Failed, j) == Tally(r, n, Reclaimed, j) == 0
  {
    hide Step, Enabled, Happens, WellFormed;
    if n > 0 {
      AttemptsAreFailuresPlusReclaims(r, n - 1, j);
      RunWellFormed(r, n - 1);
      StepAttempts(r.states[n - 1], r.acts[n - 1], j);
    }
  }

  /** A job in the dead-letter queue can be overwritten with DONE by a stale worker, and with nothing else. */
  lemma {:induction false} DeadLettersStayDead(r: Run, i: nat, n: nat, j: JobId)
    requires IsRun(r) && i <= n <= |r.acts|
    requires j in r.states[i].jobs && r.states[i].jobs[j].status == DLQ
    ensures j in r.states[n].jobs
    ensures r.states[n].jobs[j].status == DLQ || r.states[n].jobs[j].status == DONE
    ensures r.states[n].jobs[j].attempts >= r.states[n].jobs[j].maxAttempts == r.states[i].jobs[j].maxAttempts
  {
    if n == i {
      RunWellFormed(r, n);
    } else {
      DeadLettersStayDead(r, i, n - 1, j);
    }
  }

  /** A finished job leaves DONE in exactly one way: the failure of another execution of the same job. */
  lemma DoneIsLeftOnlyByStaleFailure(s: State, a: Action, j: JobId)
    requires Enabled(s, a) && j in s.jobs && s.jobs[j].status == DONE
    ensures j in Step(s, a).jobs
    ensures Step(s, a).jobs[j].status != DONE <==> a.Fail? && s.workers[a.worker].job == j
    ensures Step(s, a).jobs[j].status == PENDING <==>
            a.Fail? && s.workers[a.worker].job == j && s.jobs[j].attempts + 1 < s.jobs[j].maxAttempts
  {
  }

  /** The workers that are executing `j`. */
  ghost function Executors(s: State, j: JobId): set<WorkerId> {
    set w | w in s.workers && s.workers[w].job == j
  }

  lemma ExecutorsAfterStep(s: State, a: Action, j: JobId)
    requires Enabled(s, a)
    ensures Happens(s, a, Executed, j) ==>
              a.worker !in Executors(s, j) && Executors(Step(s, a), j) == Executors(s, j) + {a.worker}
    ensures Happens(s, a, Succeeded, j) || Happens(s, a, Failed, j) || Happens(s, a, Crashed, j) ==>
              a.worker in Executors(s, j) && Executors(Step(s, a), j) == Executors(s, j) - {a.worker}
    ensures !(exists e :: (e == Executed || e == Succeeded || e == Failed || e == Crashed) && Happens(s, a, e, j)) ==>
              Executors(Step(s, a), j) == Executors(s, j)
  {
    hide EnqueueRows, ReclaimRows, EarliestClaimable, FailRow, DoneRow, LockRow;
    var t := Step(s, a);
    assert !(a.Acquire? || a.Succeed? || a.Fail? || a.Crash?) ==> t.workers == s.workers;
    assert a.Acquire? ==> Happens(s, a, Executed, a.job);
    assert a.Succeed? ==> Happens(s, a, Succeeded, s.workers[a.worker].job);
    assert a.Fail? ==> Happens(s, a, Failed, s.workers[a.worker].job);
    assert a.Crash? ==> Happens(s, a, Crashed, s.workers[a.worker].job);
  }

  lemma StepConserves(s: State, a: Action, j: JobId)
    requires Enabled(s, a)
    ensures |Executors(Step(s, a), j)| + (if Happens(s, a, Succeeded, j) then 1 else 0)
              + (if Happens(s, a, Failed, j) then 1 else 0) + (if Happens(s, a, Crashed, j) then 1 else 0)
            == |Executors(s, j)| + if Happens(s, a, Executed, j) then 1 else 0
  {
    ExecutorsAfterStep(s, a, j);
    hide Step, Enabled, Executors;
  }

  /** In every run, every execution has succeeded, failed or crashed, or is still going on. */
  lemma {:induction false} ExecutionsAreConserved(r: Run, n: nat, j: JobId)
    requires IsRun(r) && n <= |r.acts|
    ensures Tally(r, n, Executed, j)
            == Tally(r, n, Succeeded, j) + Tally(r, n, Failed, j) + Tally(r, n, Crashed, j) + |Executors(r.states[n], j)|
  {
    hide Step, Enabled, Happens, Executors;
    if n > 0 {
      ExecutionsAreConserved(r, n - 1, j);
      StepConserves(r.states[n - 1], r.acts[n - 1], j);
    } else {
      NoExecutors(r.states[0], j);
    }
  }

  lemma NoExecutors(s: State, j: JobId)
    requires s.workers == map[]
    ensures Executors(s, j) == {}
  {
  }

  /** The one step that breaks deduplication: a stale failure brings back a job whose successor is active. */
  predicate RevivesTwin(s: State, a: Action) {
    && a.Fail? && a.worker in s.workers
    && var j := s.workers[a.worker].job;
       && j in s.jobs && !Active(s.jobs[j])
       && s.jobs[j].attempts + 1 < s.jobs[j].maxAttempts
       && HasActiveTwin(s.jobs, s.jobs[j].dedupeId)
  }

  lemma RevivalBreaksUniqueness(s: State, a: Action)
    requires Enabled(s, a) && RevivesTwin(s, a)
    ensures !UniqueActive(Step(s, a).jobs)
  {
    var j, t := s.workers[a.worker].job, Step(s, a);
    var k :| k in s.jobs && Active(s.jobs[k]) && s.jobs[k].dedupeId == s.jobs[j].dedupeId;
    assert j != k && t.jobs[k] == s.jobs[k] && Active(t.jobs[j]);
  }

  lemma OtherStepsKeepUniqueness(s: State, a: Action)
    requires Enabled(s, a) && UniqueActive(s.jobs) && !RevivesTwin(s, a)
    ensures UniqueActive(Step(s, a).jobs)
  {
    var t := Step(s, a);
    if a.Enqueue? && !HasActiveTwin(s.jobs, a.dedupeId) {
      assert forall k :: k in s.jobs && Active(s.jobs[k]) && Deduplicated(a.dedupeId) ==> s.jobs[k].dedupeId != a.dedupeId;
    } else if a.Fail? && s.workers[a.worker].job in s.jobs && !Active(s.jobs[s.workers[a.worker].job]) {
      var j := s.workers[a.worker].job;
      assert Active(t.jobs[j]) && Deduplicated(s.jobs[j].dedupeId) ==>
               forall k :: k in s.jobs && Active(s.jobs[k]) ==> s.jobs[k].dedupeId != s.jobs[j].dedupeId;
    } else {
      assert forall j :: j in t.jobs ==> j in s.jobs && t.jobs[j].dedupeId == s.jobs[j].dedupeId;
      assert forall j :: j in t.jobs && Active(t.jobs[j]) ==> Active(s.jobs[j]);
    }
  }

  /** Deduplication survives a step exactly when the step is not such a failure, whatever the workers do. */
  lemma UniquenessLostExactly(s: State, a: Action)
    requires Enabled(s, a) && UniqueActive(s.jobs)
    ensures UniqueActive(Step(s, a).jobs) <==> !RevivesTwin(s, a)
  {
    if RevivesTwin(s, a) {
      RevivalBreaksUniqueness(s, a);
    } else {
      OtherStepsKeepUniqueness(s, a);
    }
  }

  ghost predicate AlwaysUnique(r: Run, n: nat)
    requires IsRun(r) && n <= |r.acts|
  {
    forall i :: 0 <= i <= n ==> UniqueActive(r.states[i].jobs)
  }

  ghost predicate NeverRevives(r: Run, n: nat)
    requires IsRun(r) && n <= |r.acts|
  {
    forall i :: 0 <= i < n ==> !RevivesTwin(r.states[i], r.acts[i])
  }

  /** So deduplication holds throughout a run exactly when no step of the run is one. */
  lemma {:induction false} DeduplicationHoldsExactly(r: Run, n: nat)
    requires IsRun(r) && n <= |r.acts|
    ensures AlwaysUnique(r, n) <==> NeverRevives(r, n)
  {
    hide Step, Enabled, UniqueActive, RevivesTwin;
    if n == 0 {
      InitialIsUnique(r);
    } else {
      DeduplicationHoldsExactly(r, n - 1);
      assert AlwaysUnique(r, n) <==> AlwaysUnique(r, n - 1) && UniqueActive(r.states[n].jobs);
      assert NeverRevives(r, n) <==> NeverRevives(r, n - 1) && !RevivesTwin(r.states[n - 1], r.acts[n - 1]);
      if AlwaysUnique(r, n - 1) {
        UniquenessLostExactly(r.states[n - 1], r.acts[n - 1]);
      }
    }
  }

  lemma InitialIsUnique(r: Run)
    requires IsRun(r)
    ensures UniqueActive(r.states[0].jobs)
  {
  }

  /** A dead letter is overwritten in exactly one way: the success of an execution that was still going on. */
  lemma DeadLetterLeftOnlyByStaleSuccess(s: State, a: Action, j: JobId)
    requires Enabled(s, a) && WellFormed(s) && j in s.jobs && s.jobs[j].status == DLQ
    ensures j in Step(s, a).jobs
    ensures Step(s, a).jobs[j].status != DLQ <==> a.Succeed? && s.workers[a.worker].job == j
  {
  }

  /** No job is executed by two workers. */
  ghost predicate OneWorkerPerJob(s: State) {
    forall v, w :: v in s.workers && w in s.workers && s.workers[v].job == s.workers[w].job ==> v == w
  }

  /** A worker takes over a job that another is still executing. */
  ghost predicate TakesFromOther(s: State, a: Action) {
    a.Acquire? && exists w :: w in s.workers && s.workers[w].job == a.job
  }

  /** Every step but such a takeover keeps jobs to one worker each, and every such takeover does not. */
  lemma OneWorkerLostExactly(s: State, a: Action)
    requires Enabled(s, a) && OneWorkerPerJob(s)
    ensures OneWorkerPerJob(Step(s, a)) <==> !TakesFromOther(s, a)
  {
    hide EnqueueRows, ReclaimRows, EarliestClaimable, FailRow, DoneRow, LockRow;
    var t := Step(s, a);
    if TakesFromOther(s, a) {
      var w :| w in s.workers && s.workers[w].job == a.job;
      assert w != a.worker && t.workers[w] == s.workers[w] && t.workers[a.worker].job == a.job;
    } else {
      assert forall w :: w in t.workers && !(a.Acquire? && a.worker == w) ==> w in s.workers && t.workers[w] == s.workers[w];
    }
  }

  ghost predicate AlwaysOneWorker(r: Run, n: nat)
    requires IsRun(r) && n <= |r.acts|
  {
    forall i :: 0 <= i <= n ==> OneWorkerPerJob(r.states[i])
  }

  ghost predicate NeverTakesFromOther(r: Run, n: nat)
    requires IsRun(r) && n <= |r.acts|
  {
    forall i :: 0 <= i < n ==> !TakesFromOther(r.states[i], r.acts[i])
  }

  /** In every run, however late the workers, no job ever has two executors exactly if none is taken from its executor. */
  lemma {:induction false} OneWorkerHoldsExactly(r: Run, n: nat)
    requires IsRun(r) && n <= |r.acts|
    ensures AlwaysOneWorker(r, n) <==> NeverTakesFromOther(r, n)
  {
    hide Step, Enabled, TakesFromOther;
    if n > 0 {
      hide OneWorkerPerJob;
      OneWorkerHoldsExactly(r, n - 1);
      assert AlwaysOneWorker(r, n) <==> AlwaysOneWorker(r, n - 1) && OneWorkerPerJob(r.states[n]);
      assert NeverTakesFromOther(r, n) <==> NeverTakesFromOther(r, n - 1) && !TakesFromOther(r.states[n - 1], r.acts[n - 1]);
      if AlwaysOneWorker(r, n - 1) {
        OneWorkerLostExactly(r.states[n - 1], r.acts[n - 1]);
      }
    }
  }

  // ---------------------------------------------------------------- within the lease

  /** Every executing worker holds the lock on its job. */
  ghost predicate LocksHeld(s: State) {
    forall w :: w in s.workers ==>
      var e := s.workers[w];
      && e.job in s.jobs
      && s.jobs[e.job].status == RUNNING
      && s.jobs[e.job].lockedBy == Some(w)
      && s.jobs[e.job].lockedAt == Some(e.since)
  }

  lemma StepLocksHeld(s: State, a: Action)
    requires Enabled(s, a) && WellFormed(s) && WithinLease(s) && LocksHeld(s)
    ensures LocksHeld(Step(s, a))
  {
  }

  lemma {:induction false} RunLocksHeld(r: Run, n: nat)
    requires IsRun(r) && LeaseKept(r) && n <= |r.acts|
    ensures LocksHeld(r.states[n]) && WellFormed(r.states[n])
  {
    RunWellFormed(r, n);
    if n > 0 {
      RunLocksHeld(r, n - 1);
      assert WithinLease(r.states[n - 1]);
      StepLocksHeld(r.states[n - 1], r.acts[n - 1]);
    }
  }

  /** No job is ever executed by two workers at once, and the one executing it is `locked_by`. */
  lemma AtMostOneExecutor(r: Run, n: nat, v: WorkerId, w: WorkerId)
    requires IsRun(r) && LeaseKept(r) && n <= |r.acts|
    requires v in r.states[n].workers && w in r.states[n].workers
    requires r.states[n].workers[v].job == r.states[n].workers[w].job
    ensures v == w
    ensures r.states[n].workers[w].job in r.states[n].jobs
    ensures r.states[n].jobs[r.states[n].workers[w].job].status == RUNNING
    ensures r.states[n].jobs[r.states[n].workers[w].job].lockedBy == Some(w)
  {
    RunLocksHeld(r, n);
  }

  /** Every running job has an executor. */
  ghost predicate RunningHasExecutor(s: State) {
    forall j :: j in s.jobs && s.jobs[j].status == RUNNING ==>
      && s.jobs[j].lockedBy.Some?
      && s.jobs[j].lockedBy.value in s.workers
      && s.workers[s.jobs[j].lockedBy.value].job == j
  }

  lemma StepRunningHasExecutor(s: State, a: Action)
    requires Enabled(s, a) && WellFormed(s) && LocksHeld(s) && RunningHasExecutor(s) && !a.Crash?
    ensures RunningHasExecutor(Step(s, a))
  {
  }

  /** Without crashes each running job has exactly one executor: the worker named in `locked_by`. */
  lemma {:induction false} ExactlyOneExecutor(r: Run, n: nat)
    requires IsRun(r) && LeaseKept(r) && CrashFree(r) && n <= |r.acts|
    ensures RunningHasExecutor(r.states[n])
    ensures forall j, w :: j in r.states[n].jobs && w in r.states[n].workers ==>
              (r.states[n].workers[w].job == j <==>
               r.states[n].jobs[j].status == RUNNING && r.states[n].jobs[j].lockedBy == Some(w))
  {
    if n > 0 {
      ExactlyOneExecutor(r, n - 1);
      RunLocksHeld(r, n - 1);
      StepRunningHasExecutor(r.states[n - 1], r.acts[n - 1]);
    }
    RunLocksHeld(r, n);
  }

  predicate Settled(job: Job) {
    job.status == DONE || job.status == DLQ
  }

  lemma SettledRowStays(s: State, a: Action, j: JobId)
    requires Enabled(s, a) && LocksHeld(s) && j in s.jobs && Settled(s.jobs[j])
    ensures j in Step(s, a).jobs && Step(s, a).jobs[j] == s.jobs[j]
  {
  }

  /** DONE and DLQ are absorbing: a settled row is never written again. */
  lemma {:induction false} SettledRowsAreFinal(r: Run, i: nat, n: nat, j: JobId)
    requires IsRun(r) && LeaseKept(r) && i <= n <= |r.acts|
    requires j in r.states[i].jobs && Settled(r.states[i].jobs[j])
    ensures j in r.states[n].jobs && r.states[n].jobs[j] == r.states[i].jobs[j]
  {
    hide Step, Enabled, LocksHeld;
    if i < n {
      SettledRowsAreFinal(r, i, n - 1, j);
      RunLocksHeld(r, n - 1);
      SettledRowStays(r.states[n - 1], r.acts[n - 1], j);
    }
  }

  /** Deduplication: one active job per nonempty deduplication id, in every interleaving within the lease. */
  lemma {:induction false} OneActiveJobPerDedupeId(r: Run, n: nat)
    requires IsRun(r) && LeaseKept(r) && n <= |r.acts|
    ensures UniqueActive(r.states[n].jobs)
  {
    forall i | 0 <= i < n ensures !RevivesTwin(r.states[i], r.acts[i]) {
      RunLocksHeld(r, i);
    }
    DeduplicationHoldsExactly(r, n);
  }

  // ---------------------------------------------------------------- retries and backoff

  /** How executions, failure times and backoffs of one job fit its row at time `now`. */
  ghost predicate Accounts(job: Job, now: Time, executed: nat, first: Option<Time>, last: Option<Time>) {
    && job.status != FAILED
    && (first.Some? <==> job.attempts >= 1)
    && (last.Some? <==> job.attempts >= 1)
    && (job.status == DLQ ==>
          && executed == job.attempts == job.maxAttempts
          && first.Some?
          && last.value - first.value >= (Pow2(job.attempts) - 2) * SECOND)
    && (job.status != DLQ ==>
          && job.attempts < job.maxAttempts
          && executed == job.attempts + (if job.status == PENDING then 0 else 1)
          && (job.attempts >= 1 ==>
                && job.runAt == last.value + Pow2(job.attempts) * SECOND
                && job.runAt >= first.value + (Pow2(job.attempts + 1) - 2) * SECOND))
    && (job.status == RUNNING ==> job.runAt <= now)
  }

  ghost predicate AccountsInTable(s: State, j: JobId, executed: nat, first: Option<Time>, last: Option<Time>) {
    if j in s.jobs then Accounts(s.jobs[j], s.now, executed, first, last)
    else executed == 0 && first.None? && last.None?
  }

  ghost predicate RetryAccount(r: Run, n: nat, j: JobId)
    requires IsRun(r) && n <= |r.acts|
  {
    AccountsInTable(r.states[n], j, Tally(r, n, Executed, j), FirstFailure(r, n, j), LastFailure(r, n, j))
  }

  lemma FailAccounts(job: Job, now: Time, executed: nat, first: Option<Time>, last: Option<Time>)
    requires Accounts(job, now, executed, first, last) && job.status == RUNNING
    ensures Accounts(FailRow(job, now), now, executed, if first.Some? then first else Some(now), Some(now))
  {
  }

  /** Acquiring, finishing and waiting keep the account. */
  lemma QuietAccounts(job: Job, now: Time, executed: nat, first: Option<Time>, last: Option<Time>, later: Time, w: WorkerId)
    requires Accounts(job, now, executed, first, last) && now <= later
    ensures Accounts(job, later, executed, first, last)
    ensures job.status == PENDING && job.runAt <= now ==> Accounts(LockRow(job, now, w), now, executed + 1, first, last)
    ensures job.status == RUNNING ==> Accounts(DoneRow(job), now, executed, first, last)
  {
  }

  /** What one step does to the row of `j` when no lock is stale. */
  lemma RowAfterStep(s: State, a: Action, j: JobId)
    requires Enabled(s, a) && WellFormed(s) && LocksHeld(s) && RunningHasExecutor(s) && WithinLease(s)
    requires j in s.jobs
    ensures j in Step(s, a).jobs
    ensures Step(s, a).now == s.now || Step(s, a).jobs == s.jobs
    ensures Happens(s, a, Executed, j) ==>
              && s.jobs[j].status == PENDING && s.jobs[j].runAt <= s.now
              && Step(s, a).jobs[j] == LockRow(s.jobs[j], s.now, a.worker)
    ensures Happens(s, a, Failed, j) ==> s.jobs[j].status == RUNNING && Step(s, a).jobs[j] == FailRow(s.jobs[j], s.now)
    ensures Happens(s, a, Succeeded, j) ==> s.jobs[j].status == RUNNING && Step(s, a).jobs[j] == DoneRow(s.jobs[j])
    ensures !Happens(s, a, Executed, j) && !Happens(s, a, Failed, j) && !Happens(s, a, Succeeded, j) ==>
              Step(s, a).jobs[j] == s.jobs[j]
  {
    assert s.jobs[j].status == RUNNING ==> !Zombie(s.jobs[j], s.now) && !Claimable(s.jobs[j], s.now);
  }

  lemma StepAccounts(s: State, a: Action, j: JobId, executed: nat, first: Option<Time>, last: Option<Time>)
    requires Enabled(s, a) && WellFormed(s) && LocksHeld(s) && RunningHasExecutor(s) && WithinLease(s)
    requires AccountsInTable(s, j, executed, first, last)
    ensures AccountsInTable(Step(s, a), j,
                            executed + (if Happens(s, a, Executed, j) then 1 else 0),
                            if first.None? && Happens(s, a, Failed, j) then Some(s.now) else first,
                            if Happens(s, a, Failed, j) then Some(s.now) else last)
  {
    StepWellFormed(s, a);
    if j in s.jobs {
      RowAfterStep(s, a, j);
      QuietAccounts(s.jobs[j], s.now, executed, first, last, Step(s, a).now, if a.Acquire? then a.worker else "");
      if Happens(s, a, Failed, j) {
        FailAccounts(s.jobs[j], s.now, executed, first, last);
      }
      hide Accounts, FailRow, Enabled, Step, WellFormed, LocksHeld, RunningHasExecutor, WithinLease;
    }
  }

  lemma InitialAccounts(s: State, j: JobId)
    requires Initial(s)
    ensures AccountsInTable(s, j, 0, None, None)
  {
  }

  lemma {:induction false} RetryAccountHolds(r: Run, n: nat, j: JobId)
    requires IsRun(r) && LeaseKept(r) && CrashFree(r) && n <= |r.acts|
    ensures RetryAccount(r, n, j)
  {
    hide Accounts, Step, Enabled, WellFormed, LocksHeld, RunningHasExecutor, WithinLease, Happens;
    if n > 0 {
      RetryAccountHolds(r, n - 1, j);
      RunLocksHeld(r, n - 1);
      ExactlyOneExecutor(r, n - 1);
      var s, a := r.states[n - 1], r.acts[n - 1];
      assert WithinLease(s) && Enabled(s, a) && r.states[n] == Step(s, a);
      StepAccounts(s, a, j, Tally(r, n - 1, Executed, j), FirstFailure(r, n - 1, j), LastFailure(r, n - 1, j));
    } else {
      InitialAccounts(r.states[0], j);
    }
  }

  /** A job runs at most `max_attempts` times, and exactly that often if it ends in the dead-letter queue. */
  lemma AtMostMaxAttemptsExecutions(r: Run, n: nat, j: JobId)
    requires IsRun(r) && LeaseKept(r) && CrashFree(r) && n <= |r.acts| && j in r.states[n].jobs
    ensures Tally(r, n, Executed, j) <= r.states[n].jobs[j].maxAttempts
    ensures r.states[n].jobs[j].status == DLQ ==> Tally(r, n, Executed, j) == r.states[n].jobs[j].maxAttempts
  {
    RetryAccountHolds(r, n, j);
  }

  /** The backoffs add up: 2 + 4 + ... + 2^(m-1) seconds lie between the first and the last failure. */
  lemma DeadLetterTakesTheWholeBackoff(r: Run, n: nat, j: JobId)
    requires IsRun(r) && LeaseKept(r) && CrashFree(r) && n <= |r.acts|
    requires j in r.states[n].jobs && r.states[n].jobs[j].status == DLQ
    ensures FirstFailure(r, n, j).Some? && LastFailure(r, n, j).Some? && r.states[n].jobs[j].maxAttempts >= 1
    ensures LastFailure(r, n, j).value - FirstFailure(r, n, j).value
            >= (Pow2(r.states[n].jobs[j].maxAttempts) - 2) * SECOND
  {
    RetryAccountHolds(r, n, j);
    RunWellFormed(r, n);
  }

  /** Between failures a job is due exactly its backoff after the last one: two seconds, then four, and so on. */
  lemma RetryIsDueAfterBackoff(r: Run, n: nat, j: JobId)
    requires IsRun(r) && LeaseKept(r) && CrashFree(r) && n <= |r.acts|
    requires j in r.states[n].jobs && r.states[n].jobs[j].status != DLQ
    ensures LastFailure(r, n, j).Some? <==> r.states[n].jobs[j].attempts >= 1
    ensures LastFailure(r, n, j).Some? ==>
              r.states[n].jobs[j].runAt == LastFailure(r, n, j).value + Pow2(r.states[n].jobs[j].attempts) * SECOND
  {
    RetryAccountHolds(r, n, j);
  }

  /** The delay that a failure of `j` sets, where the job is to be retried. */
  ghost function Delay(s: State, a: Action, j: JobId): Time
    requires Enabled(s, a) && j in Step(s, a).jobs
  {
    Step(s, a).jobs[j].runAt - s.now
  }

  /** A failure of `j` after which it is to be retried. */
  ghost predicate Retried(s: State, a: Action, j: JobId)
    requires Enabled(s, a)
  {
    Happens(s, a, Failed, j) && j in Step(s, a).jobs && Step(s, a).jobs[j].status == PENDING
  }

  lemma FailureSetsDelay(s: State, a: Action, j: JobId)
    requires Enabled(s, a) && j in s.jobs && Happens(s, a, Failed, j)
    ensures j in Step(s, a).jobs
    ensures s.jobs[j].status == RUNNING ==>
              (Retried(s, a, j) <==> s.jobs[j].attempts + 1 < s.jobs[j].maxAttempts)
              && (Retried(s, a, j) ==> Delay(s, a, j) == Pow2(s.jobs[j].attempts + 1) * SECOND)
  {
  }

  lemma {:induction false} NothingReclaimed(r: Run, n: nat, j: JobId)
    requires IsRun(r) && LeaseKept(r) && CrashFree(r) && n <= |r.acts|
    ensures Tally(r, n, Reclaimed, j) == 0
  {
    hide Step, Enabled, Tally;
    if n > 0 {
      NothingReclaimed(r, n - 1, j);
      RunLocksHeld(r, n - 1);
      ExactlyOneExecutor(r, n - 1);
      assert WithinLease(r.states[n - 1]);
      assert !Happens(r.states[n - 1], r.acts[n - 1], Reclaimed, j);
      TallyStep(r, n, Reclaimed, j);
    } else {
      NothingTallied(r, Reclaimed, j);
    }
  }

  lemma TallyStep(r: Run, n: nat, e: Event, j: JobId)
    requires IsRun(r) && 0 < n <= |r.acts|
    ensures Tally(r, n, e, j) == Tally(r, n - 1, e, j) + if Happens(r.states[n - 1], r.acts[n - 1], e, j) then 1 else 0
  {
  }

  /** Within the lease and without crashes, a failing job was running and has one attempt for each earlier failure. */
  lemma FailingJob(r: Run, i: nat, j: JobId)
    requires IsRun(r) && LeaseKept(r) && CrashFree(r) && i < |r.acts| && Happens(r.states[i], r.acts[i], Failed, j)
    ensures Enabled(r.states[i], r.acts[i]) && r.states[i + 1] == Step(r.states[i], r.acts[i])
    ensures j in r.states[i].jobs && r.states[i].jobs[j].status == RUNNING
    ensures r.states[i].jobs[j].attempts == Tally(r, i, Failed, j)
  {
    RunLocksHeld(r, i);
    AttemptsAreFailuresPlusReclaims(r, i, j);
    NothingReclaimed(r, i, j);
  }

  /** The first retry of a job is due two seconds after its first failure. */
  lemma FirstDelayIsTwoSeconds(r: Run, i: nat, j: JobId)
    requires IsRun(r) && LeaseKept(r) && CrashFree(r) && i < |r.acts|
    requires Enabled(r.states[i], r.acts[i]) && Retried(r.states[i], r.acts[i], j)
    requires Tally(r, i, Failed, j) == 0
    ensures Delay(r.states[i], r.acts[i], j) == 2_000_000
  {
    hide Tally;
    FailingJob(r, i, j);
    FailureSetsDelay(r.states[i], r.acts[i], j);
    assert Pow2(1) == 2 * Pow2(0) == 2;
  }

  /** Each further retry of a job waits twice as long as the one before. */
  lemma DelaysDouble(r: Run, i: nat, k: nat, j: JobId)
    requires IsRun(r) && LeaseKept(r) && CrashFree(r) && i < k < |r.acts|
    requires Enabled(r.states[i], r.acts[i]) && Retried(r.states[i], r.acts[i], j)
    requires Enabled(r.states[k], r.acts[k]) && Retried(r.states[k], r.acts[k], j)
    requires Tally(r, k, Failed, j) == Tally(r, i, Failed, j) + 1
    ensures Delay(r.states[k], r.acts[k], j) == 2 * Delay(r.states[i], r.acts[i], j)
  {
    hide Tally;
    FailingJob(r, i, j);
    FailingJob(r, k, j);
    FailureSetsDelay(r.states[i], r.acts[i], j);
    FailureSetsDelay(r.states[k], r.acts[k], j);
    var a := r.states[i].jobs[j].attempts;
    assert Pow2(a + 2) == 2 * Pow2(a + 1);
  }

  /** All the delays set for `j` in the first `n` steps. */
  ghost function TotalDelay(r: Run, n: nat, j: JobId): Time
    requires IsRun(r) && n <= |r.acts|
  {
    if n == 0 then 0
    else TotalDelay(r, n - 1, j)
         + if Retried(r.states[n - 1], r.acts[n - 1], j) then Delay(r.states[n - 1], r.acts[n - 1], j) else 0
  }

  ghost predicate DelaysAddUp(s: State, j: JobId, total: Time) {
    total == if j !in s.jobs || s.jobs[j].attempts == 0 then 0
             else if s.jobs[j].status == DLQ then (Pow2(s.jobs[j].attempts) - 2) * SECOND
             else (Pow2(s.jobs[j].attempts + 1) - 2) * SECOND
  }

  lemma StepAddsDelay(s: State, a: Action, j: JobId, total: Time)
    requires Enabled(s, a) && WellFormed(s) && LocksHeld(s) && RunningHasExecutor(s) && WithinLease(s)
    requires DelaysAddUp(s, j, total)
    ensures DelaysAddUp(Step(s, a), j, total + if Retried(s, a, j) then Delay(s, a, j) else 0)
  {
    StepAttempts(s, a, j);
    if j in s.jobs {
      RowAfterStep(s, a, j);
      if Happens(s, a, Failed, j) {
        FailureSetsDelay(s, a, j);
        assert Pow2(s.jobs[j].attempts + 2) == 2 * Pow2(s.jobs[j].attempts + 1);
        assert Pow2(1) == 2 * Pow2(0);
      }
      hide Enabled, Step, WellFormed, LocksHeld, RunningHasExecutor, WithinLease;
    }
  }

  lemma {:induction false} RunAddsDelays(r: Run, n: nat, j: JobId)
    requires IsRun(r) && LeaseKept(r) && CrashFree(r) && n <= |r.acts|
    ensures DelaysAddUp(r.states[n], j, TotalDelay(r, n, j))
  {
    hide Step, Enabled, WellFormed, LocksHeld, RunningHasExecutor, WithinLease, Happens, Retried, Delay;
    if n > 0 {
      hide DelaysAddUp;
      RunAddsDelays(r, n - 1, j);
      RunLocksHeld(r, n - 1);
      ExactlyOneExecutor(r, n - 1);
      var s, a := r.states[n - 1], r.acts[n - 1];
      assert WithinLease(s) && Enabled(s, a) && r.states[n] == Step(s, a);
      StepAddsDelay(s, a, j, TotalDelay(r, n - 1, j));
    }
  }

  /** Between the first and the last failure of a dead-lettered job lie all the delays: six seconds for the default limit. */
  lemma DeadLetterWaitsOutItsDelays(r: Run, n: nat, j: JobId)
    requires IsRun(r) && LeaseKept(r) && CrashFree(r) && n <= |r.acts|
    requires j in r.states[n].jobs && r.states[n].jobs[j].status == DLQ
    ensures FirstFailure(r, n, j).Some? && LastFailure(r, n, j).Some?
    ensures LastFailure(r, n, j).value - FirstFailure(r, n, j).value >= TotalDelay(r, n, j)
    ensures r.states[n].jobs[j].maxAttempts == 3 ==> TotalDelay(r, n, j) == 6_000_000
  {
    hide TotalDelay, FirstFailure, LastFailure;
    RetryAccountHolds(r, n, j);
    RunAddsDelays(r, n, j);
    RunWellFormed(r, n);
    assert Pow2(3) == 2 * Pow2(2) == 4 * Pow2(1) == 8 * Pow2(0) == 8;
  }

  // ---------------------------------------------------------------- executions when workers crash

  predicate Counted(job: Job) {
    job.status == RUNNING || job.status == DONE
  }

  /** How the events of `j` fit its row, crashes included. */
  ghost predicate Books(s: State, j: JobId, executed: nat, takenOver: nat, succeeded: nat, failed: nat) {
    if j in s.jobs then
      var job := s.jobs[j];
      && executed == job.attempts + takenOver + (if Counted(job) then 1 else 0)
      && succeeded == (if job.status == DONE then 1 else 0)
      && failed <= job.attempts
      && failed <= job.maxAttempts - (if job.status == DLQ then 0 else 1)
    else executed == 0 && takenOver == 0 && succeeded == 0 && failed == 0
  }

  lemma StepBooks(s: State, a: Action, j: JobId, executed: nat, takenOver: nat, succeeded: nat, failed: nat)
    requires Enabled(s, a) && WellFormed(s) && LocksHeld(s) && Books(s, j, executed, takenOver, succeeded, failed)
    ensures Books(Step(s, a), j,
                  executed + (if Happens(s, a, Executed, j) then 1 else 0),
                  takenOver + (if Happens(s, a, TakenOver, j) then 1 else 0),
                  succeeded + (if Happens(s, a, Succeeded, j) then 1 else 0),
                  failed + (if Happens(s, a, Failed, j) then 1 else 0))
  {
    if a.Succeed? || a.Fail? {
      assert s.workers[a.worker].job in s.jobs && s.jobs[s.workers[a.worker].job].status == RUNNING;
    }
  }

  lemma InitialBooks(s: State, j: JobId)
    requires Initial(s)
    ensures Books(s, j, 0, 0, 0, 0)
  {
  }

  lemma {:induction false} RunBooks(r: Run, n: nat, j: JobId)
    requires IsRun(r) && LeaseKept(r) && n <= |r.acts|
    ensures Books(r.states[n], j, Tally(r, n, Executed, j), Tally(r, n, TakenOver, j),
                  Tally(r, n, Succeeded, j), Tally(r, n, Failed, j))
  {
    hide Books, Step, Enabled, Happens, WellFormed, LocksHeld, Initial;
    if n == 0 {
      InitialBooks(r.states[0], j);
    } else {
      RunBooks(r, n - 1, j);
      RunLocksHeld(r, n - 1);
      StepBooks(r.states[n - 1], r.acts[n - 1], j, Tally(r, n - 1, Executed, j), Tally(r, n - 1, TakenOver, j),
                Tally(r, n - 1, Succeeded, j), Tally(r, n - 1, Failed, j));
    }
  }

  /**
    * What the retry limit leaves out: within the lease, crashes or not, a job has been executed once for every
    * recorded failure, every watchdog reclaim and every lease takeover, and once more while it runs or when it
    * is done. `attempts` counts the first two, and only a failure compares it with the limit.
    */
  lemma ExecutionsAreAttemptsPlusTakeovers(r: Run, n: nat, j: JobId)
    requires IsRun(r) && LeaseKept(r) && n <= |r.acts| && j in r.states[n].jobs
    ensures var job := r.states[n].jobs[j];
            && Tally(r, n, Executed, j) == job.attempts + Tally(r, n, TakenOver, j) + (if Counted(job) then 1 else 0)
            && Tally(r, n, Executed, j) == Tally(r, n, Failed, j) + Tally(r, n, Reclaimed, j) + Tally(r, n, TakenOver, j)
                                           + (if Counted(job) then 1 else 0)
            && (Tally(r, n, Executed, j) <= job.maxAttempts <==>
                job.attempts + Tally(r, n, TakenOver, j) <= job.maxAttempts - if Counted(job) then 1 else 0)
  {
    RunBooks(r, n, j);
    AttemptsAreFailuresPlusReclaims(r, n, j);
  }

  /** Only reclaims and takeovers go beyond the limit, each by at most one: without them it holds, crashes or not. */
  lemma RecoveriesBoundExecutions(r: Run, n: nat, j: JobId)
    requires IsRun(r) && LeaseKept(r) && n <= |r.acts| && j in r.states[n].jobs
    ensures Tally(r, n, Executed, j) <= r.states[n].jobs[j].maxAttempts + Tally(r, n, Reclaimed, j) + Tally(r, n, TakenOver, j)
  {
    RunBooks(r, n, j);
    AttemptsAreFailuresPlusReclaims(r, n, j);
  }

  lemma OneExecutorAtMost(s: State, j: JobId)
    requires LocksHeld(s) && j in s.jobs
    ensures |Executors(s, j)| <= if s.jobs[j].status == RUNNING then 1 else 0
  {
    var job := s.jobs[j];
    if job.status == RUNNING && job.lockedBy.Some? {
      assert Executors(s, j) <= {job.lockedBy.value};
      SubsetOfOne(Executors(s, j), job.lockedBy.value);
    } else {
      assert Executors(s, j) == {};
    }
  }

  lemma SubsetOfOne<T>(s: set<T>, x: T)
    requires s <= {x}
    ensures |s| <= 1
  {
    assert s == {} || s == {x};
  }

  /** Within the lease only crashes take a job beyond its retry limit, and each by at most one execution. */
  lemma CrashesBoundExecutions(r: Run, n: nat, j: JobId)
    requires IsRun(r) && LeaseKept(r) && n <= |r.acts| && j in r.states[n].jobs
    ensures Tally(r, n, Executed, j) <= r.states[n].jobs[j].maxAttempts + Tally(r, n, Crashed, j)
  {
    ExecutionsAreConserved(r, n, j);
    RunBooks(r, n, j);
    RunLocksHeld(r, n);
    OneExecutorAtMost(r.states[n], j);
  }

  /** How many more worker events a job can see before it is settled. */
  function Remaining(job: Job): int {
    match job.status
    case PENDING => 2 * (job.maxAttempts - job.attempts)
    case RUNNING => 2 * (job.maxAttempts - job.attempts) - 1
    case _ => 0
  }

  /** Every worker event of a job uses up some of what remains, and nothing gives any back. */
  lemma SettlingMeasure(r: Run, n: nat, j: JobId)
    requires IsRun(r) && LeaseKept(r) && CrashFree(r) && n < |r.acts| && j in r.states[n].jobs
    ensures j in r.states[n + 1].jobs
    ensures Remaining(r.states[n].jobs[j]) >= 0
    ensures Remaining(r.states[n].jobs[j]) == 0 <==> r.states[n].jobs[j].status == DONE || r.states[n].jobs[j].status == DLQ
    ensures var before, after := Remaining(r.states[n].jobs[j]), Remaining(r.states[n + 1].jobs[j]);
            if exists e :: e != Reclaimed && Happens(r.states[n], r.acts[n], e, j)
            then after < before else after == before
  {
    RetryAccountHolds(r, n, j);
    RunLocksHeld(r, n);
    ExactlyOneExecutor(r, n);
    var s, a := r.states[n], r.acts[n];
    assert WithinLease(s) && Enabled(s, a) && r.states[n + 1] == Step(s, a);
    RowAfterStep(s, a, j);
    assert Happens(s, a, Executed, j) || Happens(s, a, Succeeded, j) || Happens(s, a, Failed, j)
           || r.states[n + 1].jobs[j] == s.jobs[j];
  }

  // ---------------------------------------------------------------- no starvation

  /** The pending jobs that may be acquired before `j`. */
  ghost function Ahead(s: State, j: JobId): set<JobId>
    requires j in s.jobs
  {
    set k | k in s.jobs && k != j && s.jobs[k].status == PENDING && s.jobs[k].runAt <= s.jobs[j].runAt
  }

  /** An enqueue that puts a new job in front of a job due at `runAt`. */
  predicate JumpsQueue(s: State, a: Action, runAt: Time) {
    a.Enqueue? && EffectiveRunAt(s.now, a.runAt) <= runAt
  }

  /** Acquisitions of other jobs, and queue-jumping enqueues, between steps `i` and `n`. */
  ghost function Overtakes(r: Run, i: nat, n: nat, j: JobId): nat
    requires IsRun(r) && i <= n <= |r.acts|
  {
    if n == i then 0
    else Overtakes(r, i, n - 1, j) + if r.acts[n - 1].Acquire? && r.acts[n - 1].job != j then 1 else 0
  }

  ghost function QueueJumps(r: Run, i: nat, n: nat, runAt: Time): nat
    requires IsRun(r) && i <= n <= |r.acts|
  {
    if n == i then 0
    else QueueJumps(r, i, n - 1, runAt) + if JumpsQueue(r.states[n - 1], r.acts[n - 1], runAt) then 1 else 0
  }

  /** `j` stays pending, untouched, from step `i` to step `n`. */
  ghost predicate Waits(r: Run, i: nat, n: nat, j: JobId)
    requires IsRun(r) && i <= n <= |r.acts|
  {
    forall k :: i <= k <= n ==> j in r.states[k].jobs && r.states[k].jobs[j].status == PENDING
  }

  lemma AcquireAhead(s: State, w: WorkerId, k: JobId, j: JobId)
    requires Enabled(s, Acquire(w, k)) && j in s.jobs && j != k
    requires s.jobs[j].status == PENDING && s.jobs[j].runAt <= s.now
    requires forall i :: i in s.jobs && s.jobs[i].status == RUNNING ==> !Claimable(s.jobs[i], s.now)
    ensures |Ahead(Step(s, Acquire(w, k)), j)| + 1 <= |Ahead(s, j)|
  {
    assert Claimable(s.jobs[j], s.now);
    assert k in Ahead(s, j);
    assert Ahead(Step(s, Acquire(w, k)), j) == Ahead(s, j) - {k};
  }

  lemma EnqueueAhead(s: State, a: Action, j: JobId)
    requires a.Enqueue? && Enabled(s, a) && j in s.jobs && s.jobs[j].status == PENDING
    ensures |Ahead(Step(s, a), j)| <= |Ahead(s, j)| + if JumpsQueue(s, a, s.jobs[j].runAt) then 1 else 0
  {
    var before, after := Ahead(s, j), Ahead(Step(s, a), j);
    if JumpsQueue(s, a, s.jobs[j].runAt) && !HasActiveTwin(s.jobs, a.dedupeId) {
      assert after == before + {a.id};
    } else {
      assert after == before;
    }
  }

  lemma OutcomeAhead(s: State, a: Action, j: JobId)
    requires (a.Succeed? || a.Fail?) && Enabled(s, a) && LocksHeld(s)
    requires j in s.jobs && s.jobs[j].status == PENDING && s.jobs[j].runAt <= s.now
    ensures Ahead(Step(s, a), j) == Ahead(s, j) && Step(s, a).jobs[j] == s.jobs[j]
  {
  }

  lemma StepAhead(s: State, a: Action, j: JobId)
    requires Enabled(s, a) && WellFormed(s) && LocksHeld(s) && RunningHasExecutor(s) && WithinLease(s) && !a.Crash?
    requires j in s.jobs && s.jobs[j].status == PENDING && s.jobs[j].runAt <= s.now
    requires j in Step(s, a).jobs && Step(s, a).jobs[j].status == PENDING
    ensures Step(s, a).jobs[j] == s.jobs[j] && (a.Acquire? ==> a.job != j)
    ensures |Ahead(Step(s, a), j)| + (if a.Acquire? then 1 else 0)
            <= |Ahead(s, j)| + if JumpsQueue(s, a, s.jobs[j].runAt) then 1 else 0
  {
    assert forall k :: k in s.jobs && s.jobs[k].status == RUNNING ==>
                         !Zombie(s.jobs[k], s.now) && !Claimable(s.jobs[k], s.now);
    match a
    case Acquire(w, k) => AcquireAhead(s, w, k, j);
    case Enqueue(_, _, _) => EnqueueAhead(s, a, j);
    case Succeed(_) => OutcomeAhead(s, a, j);
    case Fail(_) => OutcomeAhead(s, a, j);
    case Watchdog => assert Step(s, a).jobs == s.jobs;
    case Tick(_) =>
  }

  /** No starvation: what overtakes a due job was already ahead of it, or was enqueued with an earlier `run_at`. */
  lemma {:induction false} OvertakesAreBounded(r: Run, i: nat, n: nat, j: JobId)
    requires IsRun(r) && LeaseKept(r) && CrashFree(r) && i <= n <= |r.acts|
    requires Waits(r, i, n, j) && r.states[i].jobs[j].runAt <= r.states[i].now
    ensures r.states[n].jobs[j] == r.states[i].jobs[j] && r.states[i].now <= r.states[n].now
    ensures Overtakes(r, i, n, j) + |Ahead(r.states[n], j)|
            <= |Ahead(r.states[i], j)| + QueueJumps(r, i, n, r.states[i].jobs[j].runAt)
  {
    hide Step, Enabled, Ahead, WellFormed, LocksHeld, RunningHasExecutor;
    if i < n {
      assert Waits(r, i, n - 1, j);
      OvertakesAreBounded(r, i, n - 1, j);
      RunLocksHeld(r, n - 1);
      ExactlyOneExecutor(r, n - 1);
      assert WithinLease(r.states[n - 1]) && Enabled(r.states[n - 1], r.acts[n - 1]);
      assert r.states[n] == Step(r.states[n - 1], r.acts[n - 1]);
      StepWellFormed(r.states[n - 1], r.acts[n - 1]);
      StepAhead(r.states[n - 1], r.acts[n - 1], j);
    }
  }

  /** Default enqueues never jump an overdue job, so only the jobs already ahead can overtake it. */
  lemma {:induction false} OverdueJobIsNotStarved(r: Run, i: nat, n: nat, j: JobId)
    requires IsRun(r) && LeaseKept(r) && CrashFree(r) && i <= n <= |r.acts|
    requires Waits(r, i, n, j) && r.states[i].jobs[j].runAt < r.states[i].now
    requires forall k :: i <= k < n && r.acts[k].Enqueue? ==>
               r.acts[k].runAt == None || r.acts[k].runAt.value > r.states[i].jobs[j].runAt
    ensures QueueJumps(r, i, n, r.states[i].jobs[j].runAt) == 0
    ensures Overtakes(r, i, n, j) <= |Ahead(r.states[i], j)|
  {
    hide Step, Enabled, Ahead;
    if i < n {
      assert Waits(r, i, n - 1, j);
      OverdueJobIsNotStarved(r, i, n - 1, j);
      OvertakesAreBounded(r, i, n - 1, j);
    }
    OvertakesAreBounded(r, i, n, j);
  }

  // ---------------------------------------------------------------- where the promises end

  /**
    * Without the lease DONE is not absorbing and deduplication breaks: worker A oversleeps, B takes the job
    * over and finishes it, the same work is enqueued again, and A's failure makes the finished job pending.
    */
  lemma {:induction false} StaleFailureReopensDoneJob() returns (r: Run)
    ensures IsRun(r) && |r.acts| == 6
    ensures "j" in r.states[4].jobs && "j" in r.states[6].jobs
    ensures r.states[4].jobs["j"].status == DONE && r.states[6].jobs["j"].status == PENDING
    ensures !UniqueActive(r.states[6].jobs)
  {
    var d := Some("auto_sync:ws");
    var job := NewJob(d, 0);
    var s0 := State(0, map["j" := job], map[]);
    var a0 := Acquire("A", "j");
    var s1 := Step(s0, a0);
    var a1 := Tick(301 * SECOND);
    var s2 := Step(s1, a1);
    var a2 := Acquire("B", "j");
    var s3 := Step(s2, a2);
    var a3 := Succeed("B");
    var s4 := Step(s3, a3);
    var a4 := Enqueue("k", d, None);
    var s5 := Step(s4, a4);
    var a5 := Fail("A");
    var s6 := Step(s5, a5);
    r := Run([s0, s1, s2, s3, s4, s5, s6], [a0, a1, a2, a3, a4, a5]);
    assert s5.jobs["k"] == NewJob(d, s4.now);
    assert s6.jobs["j"].status == PENDING && s6.jobs["k"].status == PENDING && "j" != "k";
  }

  /** The empty deduplication id is stored but deduplicates nothing. */
  lemma EmptyDedupeIdIsNotUnique() returns (r: Run)
    ensures IsRun(r) && LeaseKept(r) && CrashFree(r) && |r.acts| == 2
    ensures "j" in r.states[2].jobs && "k" in r.states[2].jobs
    ensures Active(r.states[2].jobs["j"]) && Active(r.states[2].jobs["k"])
    ensures r.states[2].jobs["j"].dedupeId == r.states[2].jobs["k"].dedupeId == Some("")
  {
    var s0 := State(0, map[], map[]);
    var a0 := Enqueue("j", Some(""), None);
    var s1 := Step(s0, a0);
    var a1 := Enqueue("k", Some(""), None);
    var s2 := Step(s1, a1);
    r := Run([s0, s1, s2], [a0, a1]);
  }

  function Extend(r: Run, a: Action): Run
    requires |r.states| > 0 && Enabled(r.states[|r.states| - 1], a)
  {
    Run(r.states + [Step(r.states[|r.states| - 1], a)], r.acts + [a])
  }

  lemma {:induction false} ExtendTally(r: Run, a: Action, n: nat, e: Event, j: JobId)
    requires IsRun(r) && Enabled(r.states[|r.acts|], a) && n <= |r.acts|
    ensures IsRun(Extend(r, a))
    ensures Tally(Extend(r, a), n, e, j) == Tally(r, n, e, j)
  {
    if n > 0 {
      ExtendTally(r, a, n - 1, e, j);
    }
  }

  /** One more step of a run within the lease, and what it adds to the executions of `j`. */
  lemma ExtendRun(r: Run, a: Action, j: JobId)
    requires IsRun(r) && LeaseKept(r) && Enabled(r.states[|r.acts|], a)
    requires WithinLease(Step(r.states[|r.acts|], a))
    ensures var q := Extend(r, a);
            && IsRun(q) && LeaseKept(q) && |q.acts| == |r.acts| + 1
            && q.states[|q.acts|] == Step(r.states[|r.acts|], a)
            && Tally(q, |q.acts|, Executed, j) == Tally(r, |r.acts|, Executed, j)
                 + if a.Acquire? && a.job == j then 1 else 0
  {
    ExtendTally(r, a, |r.acts|, Executed, j);
    var q := Extend(r, a);
    forall i | 0 <= i < |q.states| ensures WithinLease(q.states[i]) {
      assert i < |r.states| ==> q.states[i] == r.states[i];
    }
  }

  /** `times` executions of the only job, the last still running in the only worker; no attempt recorded. */
  ghost predicate Unrecorded(r: Run, times: nat) {
    && IsRun(r) && LeaseKept(r)
    && Tally(r, |r.acts|, Executed, "j") == times
    && var s := r.states[|r.acts|];
       && s.jobs.Keys == {"j"} && s.workers.Keys == {"w"}
       && s.jobs["j"].status == RUNNING && s.jobs["j"].attempts == 0 && s.jobs["j"].lockedAt == Some(s.now)
  }

  lemma CrashAndTakeOver(q: Run, times: nat) returns (r: Run)
    requires Unrecorded(q, times)
    ensures Unrecorded(r, times + 1)
  {
    ExtendRun(q, Crash("w"), "j");
    r := Extend(q, Crash("w"));
    assert r.states[|r.acts|].workers.Keys == {};
    ExtendRun(r, Tick(LEASE + 1), "j");
    r := Extend(r, Tick(LEASE + 1));
    assert EarliestClaimable(r.states[|r.acts|].jobs, r.states[|r.acts|].now, "j");
    ExtendRun(r, Acquire("w", "j"), "j");
    r := Extend(r, Acquire("w", "j"));
  }

  /**
    * No bound without the number of crashes: a lease takeover records no attempt, so a job that kills its
    * worker each time can be executed any number of times, with every lock respected.
    */
  lemma {:induction false} CrashingJobIsRetriedForever(times: nat) returns (r: Run)
    requires times >= 1
    ensures Unrecorded(r, times)
  {
    if times == 1 {
      var s0 := State(0, map["j" := NewJob(None, 0)], map[]);
      r := Run([s0], []);
      ExtendRun(r, Acquire("w", "j"), "j");
      r := Extend(r, Acquire("w", "j"));
    } else {
      r := CrashingJobIsRetriedForever(times - 1);
      r := CrashAndTakeOver(r, times - 1);
    }
  }

  const LATE := ZOMBIE_AGE + 1
  const ONCE := NewJob(None, 0).(maxAttempts := 1)

  /** A job with a limit of one, acquired by a worker that dies, ten minutes later. */
  lemma AbandonedJob() returns (r: Run)
    ensures IsRun(r) && LeaseKept(r) && |r.acts| == 3 && |r.states| == 4 && Tally(r, 3, Executed, "j") == 1
    ensures r.states[3] == State(LATE, map["j" := LockRow(ONCE, 0, "w")], map[])
  {
    r := Run([State(0, map["j" := ONCE], map[])], []);
    assert IsRun(r) && LeaseKept(r);
    NothingTallied(r, Executed, "j");
    hide IsRun, LeaseKept, Tally;
    ExtendRun(r, Acquire("w", "j"), "j");
    r := Extend(r, Acquire("w", "j"));
    assert r.states[1] == State(0, map["j" := LockRow(ONCE, 0, "w")], map["w" := Execution("j", 0)]);
    ExtendRun(r, Crash("w"), "j");
    r := Extend(r, Crash("w"));
    assert r.states[2] == State(0, map["j" := LockRow(ONCE, 0, "w")], map[]);
    ExtendRun(r, Tick(LATE), "j");
    r := Extend(r, Tick(LATE));
  }

  /** Takeovers are not needed: the watchdog, too, gives a job that has used its attempts up to the next worker. */
  lemma ReclaimedJobExceedsLimit() returns (r: Run)
    ensures IsRun(r) && LeaseKept(r) && |r.acts| == 5 && |r.states| == 6 && "j" in r.states[5].jobs
    ensures Tally(r, 5, Executed, "j") == 2 && Tally(r, 5, TakenOver, "j") == 0 && r.states[5].jobs["j"].maxAttempts == 1
  {
    hide IsRun, LeaseKept, Tally;
    r := AbandonedJob();
    ExtendRun(r, Watchdog, "j");
    r := Extend(r, Watchdog);
    assert r.states[4] == State(LATE, map["j" := ReclaimRow(LockRow(ONCE, 0, "w"))], map[]);
    ExtendRun(r, Acquire("w", "j"), "j");
    r := Extend(r, Acquire("w", "j"));
    ExecutionsAreAttemptsPlusTakeovers(r, 5, "j");
  }

  lemma NothingTallied(r: Run, e: Event, j: JobId)
    requires IsRun(r)
    ensures Tally(r, 0, e, j) == 0
  {
  }
}
