/** The background job queue: its table, and the database sessions that read and write it. */
module JobQueue {
  import opened Wrappers

  type JobId = string
  type WorkerId = string

  /** A point in time, or a duration, in microseconds. */
  type Time = int

  const SECOND: Time := 1_000_000
  const LEASE: Time := 300 * SECOND
  const ZOMBIE_AGE: Time := 600 * SECOND
  const DEFAULT_MAX_ATTEMPTS := 3

  datatype Status = PENDING | RUNNING | DONE | FAILED | DLQ

  datatype Job = Job(
    dedupeId: Option<string>,
    runAt: Time,
    status: Status,
    attempts: nat,
    maxAttempts: int,
    lockedAt: Option<Time>,
    lockedBy: Option<WorkerId>)

  type Rows = map<JobId, Job>

  predicate Active(job: Job) {
    job.status == PENDING || job.status == RUNNING
  }

  /** An empty deduplication id is stored, but never looked up. */
  predicate Deduplicated(dedupeId: Option<string>) {
    dedupeId.Some? && dedupeId.value != ""
  }

  predicate HasActiveTwin(rows: Rows, dedupeId: Option<string>) {
    Deduplicated(dedupeId) && exists id :: id in rows && Active(rows[id]) && rows[id].dedupeId == dedupeId
  }

  function NewJob(dedupeId: Option<string>, runAt: Time): Job {
    Job(dedupeId, runAt, PENDING, 0, DEFAULT_MAX_ATTEMPTS, None, None)
  }

  function EffectiveRunAt(now: Time, runAt: Option<Time>): Time {
    if runAt.Some? then runAt.value else now
  }

  function EnqueueRows(rows: Rows, now: Time, id: JobId, dedupeId: Option<string>, runAt: Option<Time>): Rows {
    if HasActiveTwin(rows, dedupeId) then rows else rows[id := NewJob(dedupeId, EffectiveRunAt(now, runAt))]
  }

  /** A job that is due, or whose lock is older than the lease. */
  predicate Claimable(job: Job, now: Time) {
    || (job.status == PENDING && job.runAt <= now)
    || (job.status == RUNNING && job.lockedAt.Some? && job.lockedAt.value < now - LEASE)
  }

  predicate EarliestClaimable(rows: Rows, now: Time, id: JobId) {
    && id in rows
    && Claimable(rows[id], now)
    && forall k :: k in rows && Claimable(rows[k], now) ==> rows[id].runAt <= rows[k].runAt
  }

  function LockRow(job: Job, now: Time, worker: WorkerId): Job {
    job.(status := RUNNING, lockedAt := Some(now), lockedBy := Some(worker))
  }

  function DoneRow(job: Job): Job {
    job.(status := DONE)
  }

  function Pow2(n: nat): (r: nat)
    ensures r >= 1
  {
    if n == 0 then 1 else 2 * Pow2(n - 1)
  }

  /** Retry with exponential backoff, or the dead-letter queue. */
  function FailRow(job: Job, now: Time): Job {
    var attempts := job.attempts + 1;
    if attempts >= job.maxAttempts then
      job.(attempts := attempts, status := DLQ)
    else
      job.(attempts := attempts, status := PENDING, runAt := now + Pow2(attempts) * SECOND,
           lockedAt := None, lockedBy := None)
  }

  /** One attempt more doubles the delay before the next. */
  lemma BackoffDoubles(job: Job, now: Time)
    requires job.attempts + 2 < job.maxAttempts
    ensures FailRow(job.(attempts := job.attempts + 1), now).runAt - now == 2 * (FailRow(job, now).runAt - now) > 0
    ensures job.attempts == 0 ==> FailRow(job, now).runAt == now + 2_000_000
  {
    assert Pow2(1) == 2 * Pow2(0);
    assert Pow2(job.attempts + 2) == 2 * Pow2(job.attempts + 1);
  }

  predicate Zombie(job: Job, now: Time) {
    job.status == RUNNING && job.lockedAt.Some? && job.lockedAt.value < now - ZOMBIE_AGE
  }

  function ReclaimRow(job: Job): Job {
    job.(status := PENDING, lockedAt := None, lockedBy := None, attempts := job.attempts + 1)
  }

  /** The attempt that sends a failing job to the dead-letter queue leaves a reclaimed one pending, and due as before. */
  lemma ReclaimIgnoresLimit(job: Job, now: Time)
    requires job.attempts + 1 >= job.maxAttempts
    ensures FailRow(job, now).status == DLQ && ReclaimRow(job).status == PENDING
    ensures FailRow(job, now).attempts == ReclaimRow(job).attempts >= job.maxAttempts
    ensures Claimable(ReclaimRow(job), now) <==> job.runAt <= now
  {
  }

  function ReclaimRows(rows: Rows, now: Time): Rows {
    map id | id in rows :: if Zombie(rows[id], now) then ReclaimRow(rows[id]) else rows[id]
  }

  /** A nonempty set of jobs has a member with the least `runAt`. */
  lemma {:induction false} EarliestExists(rows: Rows, ids: set<JobId>)
    requires ids != {} && ids <= rows.Keys
    ensures exists id :: id in ids && forall k :: k in ids ==> rows[id].runAt <= rows[k].runAt
    decreases |ids|
  {
    var x :| x in ids;
    var rest := ids - {x};
    if rest == {} {
      assert ids == {x};
    } else {
      EarliestExists(rows, rest);
      var y :| y in rest && forall k :: k in rest ==> rows[y].runAt <= rows[k].runAt;
      var z := if rows[x].runAt <= rows[y].runAt then x else y;
      assert forall k :: k in ids ==> k == x || k in rest;
      assert z in ids && forall k :: k in ids ==> rows[z].runAt <= rows[k].runAt;
    }
  }

  class Database {
    var jobs: Rows

    constructor ()
      ensures jobs == map[]
    {
      jobs := map[];
    }
  }

  /** One process's handle on the queue. The clock and the identifier generator are passed in. */
  class AdvancedSQLiteQueue {
    const db: Database
    const workerId: WorkerId

    constructor (db: Database, workerId: WorkerId)
      ensures this.db == db && this.workerId == workerId
    {
      this.db := db;
      this.workerId := workerId;
    }

    method Enqueue(now: Time, freshId: JobId, dedupeId: Option<string>, runAt: Option<Time>) returns (id: JobId)
      requires freshId !in db.jobs
      modifies db
      ensures db.jobs == EnqueueRows(old(db.jobs), now, freshId, dedupeId, runAt)
      ensures id in db.jobs && Active(db.jobs[id]) && db.jobs[id].dedupeId == dedupeId
      ensures id == freshId <==>
              || dedupeId == None || dedupeId == Some("")
              || forall k :: k in old(db.jobs) && old(db.jobs)[k].dedupeId == dedupeId ==>
                   old(db.jobs)[k].status != PENDING && old(db.jobs)[k].status != RUNNING
      ensures id != freshId ==> db.jobs == old(db.jobs)
      ensures id == freshId ==>
                db.jobs == old(db.jobs)[id := Job(dedupeId, if runAt.Some? then runAt.value else now, PENDING, 0, 3, None, None)]
    {
      if Deduplicated(dedupeId) {
        var existing := set k | k in db.jobs && db.jobs[k].dedupeId == dedupeId && Active(db.jobs[k]);
        assert forall k :: k in db.jobs && Active(db.jobs[k]) && db.jobs[k].dedupeId == dedupeId ==> k in existing;
        if existing != {} {
          var first :| first in existing;
          return first;
        }
      }
      db.jobs := db.jobs[freshId := NewJob(dedupeId, EffectiveRunAt(now, runAt))];
      return freshId;
    }

    method AcquireJob(now: Time) returns (candidate: Option<JobId>)
      modifies db
      ensures candidate.None? ==>
                && db.jobs == old(db.jobs)
                && forall k :: k in db.jobs ==> !Claimable(db.jobs[k], now)
      ensures candidate.Some? ==>
                && EarliestClaimable(old(db.jobs), now, candidate.value)
                && db.jobs == old(db.jobs)[candidate.value := old(db.jobs)[candidate.value].(
                                             status := RUNNING, lockedAt := Some(now), lockedBy := Some(workerId))]
      ensures forall k :: k in old(db.jobs) ==>
                var job := old(db.jobs)[k];
                || (job.status == PENDING && job.runAt <= now)
                || (job.status == RUNNING && job.lockedAt.Some? && now - job.lockedAt.value > 300_000_000) ==>
                  candidate.Some? && old(db.jobs)[candidate.value].runAt <= job.runAt
      ensures candidate.Some? ==>
                var job := old(db.jobs)[candidate.value];
                || (job.status == PENDING && job.runAt <= now)
                || (job.status == RUNNING && job.lockedAt.Some? && now - job.lockedAt.value > 300_000_000)
    {
      var claimable := set k | k in db.jobs && Claimable(db.jobs[k], now);
      assert forall k :: k in db.jobs && Claimable(db.jobs[k], now) ==> k in claimable;
      if claimable == {} {
        return None;
      }
      EarliestExists(db.jobs, claimable);
      var id :| id in claimable && forall k :: k in claimable ==> db.jobs[id].runAt <= db.jobs[k].runAt;
      db.jobs := db.jobs[id := LockRow(db.jobs[id], now, workerId)];
      return Some(id);
    }

    /** One pass of the watchdog: every job locked for more than ten minutes is pending again. */
    method SyncWatchdog(now: Time)
      modifies db
      ensures db.jobs == ReclaimRows(old(db.jobs), now)
      ensures db.jobs.Keys == old(db.jobs).Keys
      ensures forall k :: k in db.jobs ==>
                var job := old(db.jobs)[k];
                db.jobs[k] == if job.status == RUNNING && job.lockedAt.Some? && now - job.lockedAt.value > 600_000_000
                              then job.(status := PENDING, lockedAt := None, lockedBy := None, attempts := job.attempts + 1)
                              else job
    {
      var zombies := set k | k in db.jobs && Zombie(db.jobs[k], now);
      var rows := db.jobs;
      var todo := zombies;
      while todo != {}
        invariant todo <= zombies
        invariant rows.Keys == db.jobs.Keys
        invariant db.jobs == old(db.jobs)
        invariant forall k :: k in rows ==>
                    rows[k] == if k in zombies && k !in todo then ReclaimRow(db.jobs[k]) else db.jobs[k]
        decreases todo
      {
        var k :| k in todo;
        rows := rows[k := ReclaimRow(rows[k])];
        todo := todo - {k};
      }
      db.jobs := rows;
    }

    method MarkDone(id: JobId)
      modifies db
      ensures db.jobs == if id in old(db.jobs) then old(db.jobs)[id := DoneRow(old(db.jobs)[id])] else old(db.jobs)
      ensures id in old(db.jobs) ==> db.jobs[id] == old(db.jobs)[id].(status := DONE)
    {
      if id in db.jobs {
        db.jobs := db.jobs[id := db.jobs[id].(status := DONE)];
      }
    }

    /** The first retry is due after two seconds; each further failure doubles the delay, as the run laws say. */
    method MarkFailed(id: JobId, now: Time)
      modifies db
      ensures db.jobs == if id in old(db.jobs) then old(db.jobs)[id := FailRow(old(db.jobs)[id], now)] else old(db.jobs)
      ensures id in old(db.jobs) ==>
                var before, after := old(db.jobs)[id], db.jobs[id];
                && after.attempts == before.attempts + 1
                && (before.attempts + 1 >= before.maxAttempts ==> after == before.(attempts := before.attempts + 1, status := DLQ))
                && (before.attempts + 1 < before.maxAttempts ==>
                      after == before.(attempts := before.attempts + 1, status := PENDING, runAt := after.runAt,
                                       lockedAt := None, lockedBy := None))
                && (before.attempts == 0 && before.maxAttempts > 1 ==> after.runAt == now + 2_000_000)
                && (before.attempts == 1 && before.maxAttempts > 2 ==> after.runAt == now + 4_000_000)
    {
      if id !in db.jobs {
        return;
      }
      var job := db.jobs[id];
      job := job.(attempts := job.attempts + 1);
      if job.attempts >= job.maxAttempts {
        job := job.(status := DLQ);
      } else {
        var backoff := Pow2(job.attempts);
        job := job.(status := PENDING, runAt := now + backoff * SECOND, lockedAt := None, lockedBy := None);
      }
      db.jobs := db.jobs[id := job];
    }
  }
}
